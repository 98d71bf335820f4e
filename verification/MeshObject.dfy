/** The mesh node as the source has it: one object with a peer table and a digest buffer updated in place. */
module MeshObject {
  import opened Words
  import opened Primitives
  import opened PacketCodec
  import opened SlidingWindow
  import opened MeshNode
  import opened MeshCheckpoint

  class ChronoMeshNode {
    const cfg: Config
    const integrity: array<byte>
    var epoch: u64
    var txSeq: u64
    var peers: map<PeerKey, PeerReplay>

    ghost predicate Valid() {
      integrity.Length == 32
    }

    ghost function State(): Node
      requires Valid()
      reads this, integrity
    {
      Node(epoch, txSeq, Rx(peers, integrity[..]))
    }

    constructor (cfg: Config, bootEpoch: u64)
      ensures Valid() && fresh(integrity) && this.cfg == cfg
      ensures State() == Node(bootEpoch, 0, EMPTY_RX)
    {
      this.cfg := cfg;
      epoch, txSeq, peers := bootEpoch, 0, map[];
      integrity := new byte[32](_ => 0);
    }

    method FoldPacketIntoIntegrityHash(packet: Packet)
      requires Valid()
      modifies integrity
      ensures State() == old(State()).(rx := Folded(cfg, old(State().rx), packet))
    {
      var digest := Digest(cfg, packet);
      for i := 0 to 32
        invariant forall j :: 0 <= j < i ==> integrity[j] == XorByte(old(integrity[j]), digest[j])
        invariant forall j :: i <= j < 32 ==> integrity[j] == old(integrity[j])
      {
        integrity[i] := XorByte(integrity[i], digest[i]);
      }
      assert integrity[..] == Xor(old(integrity[..]), digest);
    }

    method Seal(plaintext: Bytes, userAad: Bytes, now: u64) returns (r: Result<Packet>)
      requires Valid()
      modifies this`txSeq, integrity
      ensures (State(), r) == SealRealtime(cfg, old(State()), plaintext, userAad, now)
    {
      var loaded := epoch;
      var sequence := txSeq;
      txSeq := (txSeq + 1) % U64_LIMIT;
      if sequence == U64_MAX {
        return Err(Cifrado);
      }
      r := SealPacket(cfg, loaded, sequence, now, plaintext, userAad);
      if r.Ok? {
        FoldPacketIntoIntegrityHash(r.value);
      }
    }

    /** First critical section of `open_realtime`. */
    method CheckSection(packet: Packet) returns (r: Result<()>)
      requires Valid()
      ensures r == CheckPeers(State().rx, packet)
    {
      if KeyOf(packet) in peers {
        return Check(peers[KeyOf(packet)].window, packet.sequence, MAX_WINDOW);
      }
      return Ok(());
    }

    /** Second critical section of `open_realtime`. */
    method AcceptSection(packet: Packet) returns (r: Result<()>)
      requires Valid()
      modifies this`peers, integrity
      ensures var (rx, verdict) := Accept(cfg, old(State()).rx, packet);
              State() == old(State()).(rx := rx) && r == verdict
    {
      hide Digest, Check, Record, Xor;
      var peer := if KeyOf(packet) in peers then peers[KeyOf(packet)] else FRESH_PEER;
      peers := peers[KeyOf(packet) := peer];
      var verdict := Check(peer.window, packet.sequence, MAX_WINDOW);
      if verdict.Err? {
        return verdict;
      }
      peers := peers[KeyOf(packet) := RecordPeer(peer, packet.sequence)];
      FoldPacketIntoIntegrityHash(packet);
      return Ok(());
    }

    method Open(packet: Packet, userAad: Bytes, now: u64) returns (r: Result<Bytes>)
      requires Valid()
      modifies this`peers, integrity
      ensures var (rx, result) := AtomicOpen(cfg, old(State()).rx, packet, userAad, now);
              State() == old(State()).(rx := rx) && r == result
    {
      hide Authenticate, Accept, CheckPeers;
      var pre := PreCheck(cfg, packet, now);
      if pre.Err? {
        return Err(pre.error);
      }
      var first := CheckSection(packet);
      if first.Err? {
        return Err(first.error);
      }
      var plaintext := Authenticate(cfg, packet, userAad);
      if plaintext.Err? {
        return plaintext;
      }
      AcceptAgreesWithCheck(cfg, State().rx, packet);
      var second := AcceptSection(packet);
      r := Outcome(second, plaintext);
    }

    /** The peer table, entry by entry in ascending order; the order is returned for the proof only. */
    method WritePeers() returns (table: Bytes, ghost order: seq<PeerKey>)
      ensures Lists(order, peers)
      ensures table == EncodePeers(order, peers)
    {
      hide Be32, Be64, EncodePeer;
      order := [];
      table := [];
      var left := peers.Keys;
      while left != {}
        invariant left <= peers.Keys
        invariant forall key :: key in peers <==> key in left || key in order
        invariant forall i :: 0 <= i < |order| ==> order[i] in peers
        invariant forall i, key :: 0 <= i < |order| && key in left ==> Before(order[i], key)
        invariant forall i, j :: 0 <= i < j < |order| ==> Before(order[i], order[j])
        invariant table == EncodePeers(order, peers)
        decreases left
      {
        ghost var least := LeastExists(left);
        var key :| key in left && forall other :: other in left ==> other == key || Before(key, other);
        assert (order + [key])[..|order|] == order;
        table := table + EncodePeer(key, peers[key]);
        order := order + [key];
        left := left - {key};
      }
    }

    method ExportCheckpoint(wrap: Bytes32, randomNonce: Nonce) returns (r: Result<Bytes>, ghost order: seq<PeerKey>)
      requires Valid()
      ensures Lists(order, peers)
      ensures r == Export(cfg, State(), order, wrap, randomNonce)
    {
      hide Be32, Be64, EncodePeer;
      var table: Bytes;
      table, order := WritePeers();
      if |peers| >= U32_LIMIT {
        r := Err(AadDemasiadoLargo);
        return;
      }
      var raw := RawHeader(cfg, Node(epoch, txSeq, Rx(peers, integrity[..]))) + table;
      var ciphertext := cfg.aead.enc(wrap, randomNonce, StateAad(cfg), raw);
      if ciphertext.None? {
        r := Err(Cifrado);
        return;
      }
      var out := Magic();
      out := out + [MESH_STATE_VERSION];
      out := out + randomNonce;
      out := out + ciphertext.value;
      r := Ok(out);
    }

    /** The entries behind the fixed part, a later one replacing an earlier one of the same peer. */
    static method ReadPeers(raw: Bytes, peerCount: nat) returns (table: map<PeerKey, PeerReplay>)
      requires |raw| == FIXED_LEN + peerCount * PEER_LEN
      ensures table == DecodePeers(raw[FIXED_LEN..])
    {
      hide DecodeKey, DecodePeer;
      table := map[];
      var offset := FIXED_LEN;
      for i := 0 to peerCount
        invariant offset == FIXED_LEN + i * PEER_LEN
        invariant table == DecodePeers(raw[FIXED_LEN..offset])
      {
        var entry := raw[offset..offset + PEER_LEN];
        ghost var seen := raw[FIXED_LEN..offset + PEER_LEN];
        assert seen[..|seen| - PEER_LEN] == raw[FIXED_LEN..offset] && seen[|seen| - PEER_LEN..] == entry;
        table := table[DecodeKey(entry) := DecodePeer(entry)];
        offset := offset + PEER_LEN;
      }
      assert raw[FIXED_LEN..offset] == raw[FIXED_LEN..];
    }

    method RestoreCheckpoint(b: Bytes, wrap: Bytes32) returns (r: Result<()>)
      requires Valid()
      modifies this, integrity
      ensures Valid() && (State(), r) == Restore(cfg, old(State()), b, wrap)
    {
      hide DecodeKey, DecodePeer, ReadBe32, ReadBe64;
      if |b| < 4 + 1 + 12 + TAG_LEN || b[..4] != Magic() || b[4] != MESH_STATE_VERSION {
        return Err(PaqueteCorrupto);
      }
      var plaintext := cfg.aead.dec(wrap, b[5..17], StateAad(cfg), b[17..]);
      if plaintext.None? {
        return Err(Autenticacion);
      }
      var raw := plaintext.value;
      if |raw| < FIXED_LEN {
        return Err(PaqueteCorrupto);
      }
      if ReadBe32(raw[0..4]) != cfg.nodeId {
        return Err(Autenticacion);
      }
      var peerCount := ReadBe32(raw[52..56]);
      if |raw| != FIXED_LEN + peerCount * PEER_LEN {
        return Err(PaqueteCorrupto);
      }
      var table := ReadPeers(raw, peerCount);
      hide DecodePeers;
      epoch := ResumedEpoch(epoch, ReadBe64(raw[4..12]));
      txSeq := ReadBe64(raw[12..20]);
      peers := table;
      forall i | 0 <= i < 32 {
        integrity[i] := raw[20 + i];
      }
      assert integrity[..] == raw[20..52];
      return Ok(());
    }
  }
}
