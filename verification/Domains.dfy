/** What is hashed, or sealed under a wrap key, in one component is never taken for another's. */
module Domains {
  import opened Words
  import opened Primitives
  import opened PacketCodec
  import OrderedChannel
  import Snapshot
  import MeshNode
  import MeshCheckpoint
  import WalJournal

  /** Transcripts, packet digests and log frames never hash the same input. */
  lemma HashInputsApart(acc: Bytes32, link: OrderedChannel.Link, p: Packet, prev: Bytes32, body: Bytes)
    requires |body| < U32_LIMIT
    ensures OrderedChannel.TranscriptInput(acc, link) != MeshNode.DigestInput(p)
    ensures OrderedChannel.TranscriptInput(acc, link) != WalJournal.FrameInput(prev, body)
    ensures MeshNode.DigestInput(p) != WalJournal.FrameInput(prev, body)
  {
    hide Be32, Be64, TagOf;
    var transcript, digest, frame := OrderedChannel.TranscriptInput(acc, link), MeshNode.DigestInput(p),
                                     WalJournal.FrameInput(prev, body);
    assert transcript[1] == 'r' as int as byte && transcript[13] == 'T' as int as byte;
    assert digest[1] == 'h' as int as byte;
    assert frame[1] == 'r' as int as byte && frame[13] == 'W' as int as byte;
  }

  /** A snapshot and a checkpoint under one wrap key never carry the same associated data. */
  lemma SnapshotsAreNotCheckpoints(version: byte, context: Bytes, cfg: MeshNode.Config)
    ensures Snapshot.SnapshotAad(version, context) != Ok(MeshCheckpoint.StateAad(cfg))
  {
    hide Be32;
    assert MeshCheckpoint.StateAad(cfg)[2] == 'M' as int as byte;
    assert Snapshot.SnapshotAad(version, context).Ok? ==>
        Snapshot.SnapshotAad(version, context).value[2] == 'S' as int as byte;
  }
}
