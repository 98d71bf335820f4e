/** src/modes/chrono.rs: encrypted checkpoints of a mesh node, and what a restore keeps. */
module MeshCheckpoint {
  import opened Words
  import opened Primitives
  import opened PacketCodec
  import opened SlidingWindow
  import opened MeshNode

  const MESH_STATE_VERSION: byte := 1
  const PEER_LEN: nat := 36
  const FIXED_LEN: nat := 56

  function Magic(): (m: Bytes)
    ensures |m| == 4
  {
    Ascii("CNMS")
  }

  function StateAad(cfg: Config): Bytes {
    Magic() + [MESH_STATE_VERSION] + cfg.contextHash
  }

  // --------------------------------------------------------------------------
  // The peer table
  // --------------------------------------------------------------------------

  /** The order of the source's tree map: by node id, then by epoch. */
  predicate Before(x: PeerKey, y: PeerKey) {
    x.0 < y.0 || (x.0 == y.0 && x.1 < y.1)
  }

  /** `order` visits every peer once, in ascending order, as iterating over the table does. */
  ghost predicate Lists(order: seq<PeerKey>, peers: map<PeerKey, PeerReplay>) {
    && (forall i :: 0 <= i < |order| ==> order[i] in peers)
    && (forall key :: key in peers ==> key in order)
    && (forall i, j :: 0 <= i < j < |order| ==> Before(order[i], order[j]))
  }

  ghost predicate IsLeast(keys: set<PeerKey>, key: PeerKey) {
    key in keys && forall other :: other in keys ==> other == key || Before(key, other)
  }

  lemma {:induction false} LeastExists(keys: set<PeerKey>) returns (key: PeerKey)
    requires keys != {}
    ensures IsLeast(keys, key)
    decreases keys
  {
    var some :| some in keys;
    var rest := keys - {some};
    assert keys == rest + {some};
    if rest == {} {
      key := some;
    } else {
      var least := LeastExists(rest);
      key := if Before(some, least) then some else least;
    }
  }

  /** Every table has a listing. */
  lemma {:induction false} ListingExists(peers: map<PeerKey, PeerReplay>) returns (order: seq<PeerKey>)
    ensures Lists(order, peers)
    decreases |peers.Keys|
  {
    if peers == map[] {
      order := [];
    } else {
      var key := LeastExists(peers.Keys);
      var tail := ListingExists(peers - {key});
      LeastFirst(key, tail, peers);
      order := [key] + tail;
    }
  }

  lemma LeastFirst(key: PeerKey, tail: seq<PeerKey>, peers: map<PeerKey, PeerReplay>)
    requires IsLeast(peers.Keys, key) && Lists(tail, peers - {key})
    ensures Lists([key] + tail, peers)
  {
    hide Before;
    var order := [key] + tail;
    forall other | other in peers ensures other in order {
      assert other == key || other in peers - {key};
    }
    forall i, j | 0 <= i < j < |order| ensures Before(order[i], order[j]) {
      assert order[j] == tail[j - 1];
      assert i > 0 ==> order[i] == tail[i - 1];
    }
  }

  /** And only one: what a checkpoint writes is determined by the table. */
  lemma {:induction false} ListingUnique(order: seq<PeerKey>, order': seq<PeerKey>, peers: map<PeerKey, PeerReplay>)
    requires Lists(order, peers) && Lists(order', peers)
    ensures order == order'
    decreases |order|
  {
    if order == [] {
      assert peers == map[];
    } else {
      assert order[0] in order' && order'[0] in order;
      assert order[0] == order'[0];
      var rest := peers - {order[0]};
      RestLists(order, peers);
      RestLists(order', peers);
      ListingUnique(order[1..], order'[1..], rest);
    }
  }

  lemma RestLists(order: seq<PeerKey>, peers: map<PeerKey, PeerReplay>)
    requires Lists(order, peers) && order != []
    ensures Lists(order[1..], peers - {order[0]})
  {
    var rest := peers - {order[0]};
    forall key | key in rest ensures key in order[1..] {
      var i :| 0 <= i < |order| && order[i] == key;
      assert order[1..][i - 1] == key;
    }
  }

  /** `None` is stored as the last u64. */
  function StoredHighest(w: Window): u64 {
    if w.highest.Some? then w.highest.value else U64_MAX
  }

  function LoadedHighest(stored: u64): Option<u64> {
    if stored == U64_MAX then None else Some(stored)
  }

  function EncodePeer(key: PeerKey, peer: PeerReplay): (b: Bytes)
    ensures |b| == PEER_LEN
  {
    Be32(key.0) + Be64(key.1) + Be64(StoredHighest(peer.window)) + Be128(peer.window.bitmap)
  }

  function DecodeKey(b: Bytes): PeerKey
    requires |b| == PEER_LEN
  {
    (ReadBe32(b[..4]), ReadBe64(b[4..12]))
  }

  function DecodePeer(b: Bytes): PeerReplay
    requires |b| == PEER_LEN
  {
    PeerReplay(Window(LoadedHighest(ReadBe64(b[12..20])), ReadBe128(b[20..36])), 0)
  }

  /** What a restore makes of a stored peer: the receive count restarts, and the sentinel reads as None. */
  function RestoredPeer(peer: PeerReplay): PeerReplay {
    PeerReplay(Window(LoadedHighest(StoredHighest(peer.window)), peer.window.bitmap), 0)
  }

  /** Where each field of a peer's entry stands. */
  lemma PeerLayout(key: PeerKey, peer: PeerReplay)
    ensures var b := EncodePeer(key, peer);
            && |b| == 36 && b[..4] == Be32(key.0) && b[4..12] == Be64(key.1)
            && b[12..20] == Be64(if peer.window.highest.Some? then peer.window.highest.value else U64_MAX)
            && b[20..] == Be128(peer.window.bitmap)
  {
    hide Be32, Be64, Be128;
  }

  lemma DecodeOfEncodedPeer(key: PeerKey, peer: PeerReplay)
    ensures DecodeKey(EncodePeer(key, peer)) == key
    ensures DecodePeer(EncodePeer(key, peer)) == RestoredPeer(peer)
  {
    var b := EncodePeer(key, peer);
    assert b[..4] == Be32(key.0) && b[4..12] == Be64(key.1);
    assert b[12..20] == Be64(StoredHighest(peer.window)) && b[20..36] == Be128(peer.window.bitmap);
  }

  function EncodePeers(order: seq<PeerKey>, peers: map<PeerKey, PeerReplay>): (b: Bytes)
    requires forall i :: 0 <= i < |order| ==> order[i] in peers
    ensures |b| == PEER_LEN * |order|
  {
    if order == [] then []
    else EncodePeers(order[..|order| - 1], peers) + EncodePeer(order[|order| - 1], peers[order[|order| - 1]])
  }

  /** Entry `i` of the table is that of the i-th peer listed. */
  lemma {:induction false} EntryAt(order: seq<PeerKey>, peers: map<PeerKey, PeerReplay>, i: nat)
    requires (forall k :: 0 <= k < |order| ==> order[k] in peers) && i < |order|
    ensures |EncodePeers(order, peers)| == |order| * 36
    ensures EncodePeers(order, peers)[i * 36..i * 36 + 36] == EncodePeer(order[i], peers[order[i]])
    decreases |order|
  {
    hide EncodePeer;
    if i < |order| - 1 {
      EntryAt(order[..|order| - 1], peers, i);
    }
  }

  function DecodePeers(b: Bytes): map<PeerKey, PeerReplay>
    requires |b| % PEER_LEN == 0
  {
    if b == [] then map[]
    else
      var last := b[|b| - PEER_LEN..];
      DecodePeers(b[..|b| - PEER_LEN])[DecodeKey(last) := DecodePeer(last)]
  }

  function RestoredPeers(peers: map<PeerKey, PeerReplay>): map<PeerKey, PeerReplay> {
    map key | key in peers :: RestoredPeer(peers[key])
  }

  lemma DecodeAppended(b: Bytes, key: PeerKey, peer: PeerReplay)
    requires |b| % PEER_LEN == 0
    ensures |b + EncodePeer(key, peer)| % PEER_LEN == 0
    ensures DecodePeers(b + EncodePeer(key, peer)) == DecodePeers(b)[key := RestoredPeer(peer)]
  {
    DecodeOfEncodedPeer(key, peer);
    hide EncodePeer, DecodePeer, DecodeKey, RestoredPeer;
    var c := b + EncodePeer(key, peer);
    assert c[..|c| - PEER_LEN] == b && c[|c| - PEER_LEN..] == EncodePeer(key, peer);
  }

  function RestoredOf(order: seq<PeerKey>, peers: map<PeerKey, PeerReplay>): map<PeerKey, PeerReplay>
    requires forall i :: 0 <= i < |order| ==> order[i] in peers
  {
    map key | key in order :: RestoredPeer(peers[key])
  }

  lemma RestoredOfAppended(order: seq<PeerKey>, peers: map<PeerKey, PeerReplay>)
    requires order != [] && forall i :: 0 <= i < |order| ==> order[i] in peers
    ensures var init, last := order[..|order| - 1], order[|order| - 1];
            RestoredOf(order, peers) == RestoredOf(init, peers)[last := RestoredPeer(peers[last])]
  {
    hide RestoredPeer;
    var init, last := order[..|order| - 1], order[|order| - 1];
    assert forall key :: key in order <==> key in init || key == last;
  }

  lemma {:induction false} DecodeOfEncodedPeers(order: seq<PeerKey>, peers: map<PeerKey, PeerReplay>)
    requires forall i :: 0 <= i < |order| ==> order[i] in peers
    ensures DecodePeers(EncodePeers(order, peers)) == RestoredOf(order, peers)
    decreases |order|
  {
    hide EncodePeer, DecodePeer, DecodeKey, RestoredPeer;
    if order == [] {
      assert RestoredOf(order, peers) == map[];
    } else {
      hide DecodePeers, RestoredOf;
      var init, last := order[..|order| - 1], order[|order| - 1];
      DecodeOfEncodedPeers(init, peers);
      DecodeAppended(EncodePeers(init, peers), last, peers[last]);
      RestoredOfAppended(order, peers);
    }
  }

  // --------------------------------------------------------------------------
  // Export and restore
  // --------------------------------------------------------------------------

  function RawHeader(cfg: Config, n: Node): (b: Bytes)
    requires |n.rx.peers| < U32_LIMIT
    ensures |b| == FIXED_LEN
  {
    Be32(cfg.nodeId) + Be64(n.epoch) + Be64(n.txSeq) + n.rx.integrity + Be32(|n.rx.peers|)
  }

  function Export(cfg: Config, n: Node, order: seq<PeerKey>, wrap: Bytes32, nonce: Nonce): (r: Result<Bytes>)
    requires forall i :: 0 <= i < |order| ==> order[i] in n.rx.peers
  {
    if |n.rx.peers| >= U32_LIMIT then Err(AadDemasiadoLargo)
    else
      var ciphertext := cfg.aead.enc(wrap, nonce, StateAad(cfg), RawHeader(cfg, n) + EncodePeers(order, n.rx.peers));
      if ciphertext.None? then Err(Cifrado)
      else Ok(Magic() + [MESH_STATE_VERSION] + nonce + ciphertext.value)
  }

  /** The identity a restore resumes with: past the saved epoch, at the saved ticket. */
  function ResumedEpoch(current: u64, saved: u64): u64 {
    var next := if saved == U64_MAX then U64_MAX else saved + 1;
    if current < next then next else current
  }

  function RestoreRaw(cfg: Config, n: Node, raw: Bytes): (r: (Node, Result<()>)) {
    if |raw| < FIXED_LEN then (n, Err(PaqueteCorrupto))
    else if ReadBe32(raw[0..4]) != cfg.nodeId then (n, Err(Autenticacion))
    else if |raw| != FIXED_LEN + ReadBe32(raw[52..56]) * PEER_LEN then (n, Err(PaqueteCorrupto))
    else
      (Node(ResumedEpoch(n.epoch, ReadBe64(raw[4..12])), ReadBe64(raw[12..20]),
            Rx(DecodePeers(raw[FIXED_LEN..]), raw[20..52])),
       Ok(()))
  }

  function Restore(cfg: Config, n: Node, b: Bytes, wrap: Bytes32): (r: (Node, Result<()>)) {
    if |b| < 4 + 1 + 12 + TAG_LEN || b[..4] != Magic() || b[4] != MESH_STATE_VERSION then (n, Err(PaqueteCorrupto))
    else
      var raw := cfg.aead.dec(wrap, b[5..17], StateAad(cfg), b[17..]);
      if raw.None? then (n, Err(Autenticacion)) else RestoreRaw(cfg, n, raw.value)
  }

  /** A rejected checkpoint leaves the node as it was. */
  lemma RejectedRestore(cfg: Config, n: Node, b: Bytes, wrap: Bytes32)
    requires Restore(cfg, n, b, wrap).1.Err?
    ensures Restore(cfg, n, b, wrap).0 == n
  {}

  lemma RawRoundTrip(cfg: Config, saved: Node, order: seq<PeerKey>, n: Node)
    requires |saved.rx.peers| < U32_LIMIT && Lists(order, saved.rx.peers) && |order| == |saved.rx.peers|
    ensures RestoreRaw(cfg, n, RawHeader(cfg, saved) + EncodePeers(order, saved.rx.peers)) ==
            (Node(ResumedEpoch(n.epoch, saved.epoch), saved.txSeq,
                  Rx(RestoredPeers(saved.rx.peers), saved.rx.integrity)), Ok(()))
  {
    hide Be32, Be64, EncodePeers, DecodePeers, RawHeader, RestoredPeer, ResumedEpoch;
    var tail := EncodePeers(order, saved.rx.peers);
    HeaderFields(cfg, saved, tail);
    DecodeOfEncodedPeers(order, saved.rx.peers);
    assert RestoredOf(order, saved.rx.peers) == RestoredPeers(saved.rx.peers);
    hide RestoredOf, RestoredPeers, Lists;
  }

  lemma HeaderFields(cfg: Config, n: Node, tail: Bytes)
    requires |n.rx.peers| < U32_LIMIT
    ensures var raw := RawHeader(cfg, n) + tail;
            && raw[0..4] == Be32(cfg.nodeId) && raw[4..12] == Be64(n.epoch) && raw[12..20] == Be64(n.txSeq)
            && raw[20..52] == n.rx.integrity && raw[52..56] == Be32(|n.rx.peers|) && raw[FIXED_LEN..] == tail
  {
    hide Be32, Be64;
    var h := RawHeader(cfg, n);
    assert h[0..4] == Be32(cfg.nodeId) && h[4..12] == Be64(n.epoch) && h[12..20] == Be64(n.txSeq);
    assert h[20..52] == n.rx.integrity && h[52..56] == Be32(|n.rx.peers|);
    hide RawHeader;
    var raw := h + tail;
    assert raw[0..4] == h[0..4] && raw[4..12] == h[4..12] && raw[12..20] == h[12..20];
    assert raw[20..52] == h[20..52] && raw[52..56] == h[52..56] && raw[FIXED_LEN..] == tail;
  }

  lemma {:induction false} ListingLength(order: seq<PeerKey>, peers: map<PeerKey, PeerReplay>)
    requires Lists(order, peers)
    ensures |order| == |peers|
    decreases |order|
  {
    if order == [] {
      assert peers == map[];
    } else {
      var init, last := order[..|order| - 1], order[|order| - 1];
      var rest := peers - {last};
      assert peers.Keys == rest.Keys + {last};
      forall key | key in rest ensures key in init {
        var i :| 0 <= i < |order| && order[i] == key;
        assert init[i] == key;
      }
      ListingLength(init, rest);
    }
  }

  /** Restoring what was exported, into any node of the same id and context: the peer windows and
      the hash come back, tickets continue, and the epoch moves past the saved one. */
  lemma RestoreOfExport(cfg: Config, saved: Node, order: seq<PeerKey>, wrap: Bytes32, nonce: Nonce, cfg': Config,
                        n: Node)
    requires cfg.aead.Sound() && Lists(order, saved.rx.peers)
    requires Export(cfg, saved, order, wrap, nonce).Ok?
    requires cfg'.aead == cfg.aead && cfg'.nodeId == cfg.nodeId && cfg'.contextHash == cfg.contextHash
    ensures Restore(cfg', n, Export(cfg, saved, order, wrap, nonce).value, wrap) ==
            (Node(ResumedEpoch(n.epoch, saved.epoch), saved.txSeq,
                  Rx(RestoredPeers(saved.rx.peers), saved.rx.integrity)), Ok(()))
  {
    ListingLength(order, saved.rx.peers);
    RawRoundTrip(cfg', saved, order, n);
    var raw := RawHeader(cfg, saved) + EncodePeers(order, saved.rx.peers);
    var ciphertext := cfg.aead.enc(wrap, nonce, StateAad(cfg), raw);
    assert ciphertext.Some? && cfg.aead.dec(wrap, nonce, StateAad(cfg), ciphertext.value) == Some(raw);
    var b := Export(cfg, saved, order, wrap, nonce).value;
    assert b[..4] == Magic() && b[4] == MESH_STATE_VERSION && b[5..17] == nonce && b[17..] == ciphertext.value;
    hide RestoreRaw, RawHeader, EncodePeers, Lists, RestoredPeers;
    assert RawHeader(cfg, saved) == RawHeader(cfg', saved) by {
      RawHeaderOfId(cfg, cfg', saved);
    }
  }

  /** What a checkpoint binds to its context: equal associated data mean equal context hashes. */
  lemma StateAadInjective(cfg: Config, cfg': Config)
    ensures StateAad(cfg) == StateAad(cfg') <==> cfg.contextHash == cfg'.contextHash
  {
    assert StateAad(cfg)[5..] == cfg.contextHash && StateAad(cfg')[5..] == cfg'.contextHash;
  }

  /** A checkpoint is refused by every other node of the mesh, by every other context, and under every other wrap key,
      where the cipher opens only what was exported; the refusing node is left as it was. */
  lemma RestoreElsewhere(cfg: Config, saved: Node, order: seq<PeerKey>, wrap: Bytes32, nonce: Nonce, cfg': Config,
                         n: Node, wrap': Bytes32)
    requires cfg.aead.Sound() && Lists(order, saved.rx.peers) && cfg'.aead == cfg.aead
    requires Export(cfg, saved, order, wrap, nonce).Ok?
    requires var b := Export(cfg, saved, order, wrap, nonce).value;
             var raw := RawHeader(cfg, saved) + EncodePeers(order, saved.rx.peers);
             Unforgeable(cfg.aead, {Sealing(wrap, nonce, StateAad(cfg), raw, b[17..])}, wrap', nonce, StateAad(cfg'),
                         b[17..])
    ensures var b := Export(cfg, saved, order, wrap, nonce).value;
            if cfg'.nodeId == cfg.nodeId && cfg'.contextHash == cfg.contextHash && wrap' == wrap
            then Restore(cfg', n, b, wrap').1.Ok?
            else Restore(cfg', n, b, wrap') == (n, Err(Autenticacion))
  {
    StateAadInjective(cfg, cfg');
    ExportedBytes(cfg, saved, order, wrap, nonce);
    if cfg'.nodeId == cfg.nodeId && cfg'.contextHash == cfg.contextHash && wrap' == wrap {
      RestoreOfExport(cfg, saved, order, wrap, nonce, cfg', n);
    }
    hide RawHeader, EncodePeers, Lists, DecodePeers, Export, StateAad, Be32, ReadBe64, Magic;
    assert ReadBe32(Be32(cfg.nodeId)) == cfg.nodeId;
  }

  /** What an exported blob is made of, and what its content starts with. */
  lemma ExportedBytes(cfg: Config, saved: Node, order: seq<PeerKey>, wrap: Bytes32, nonce: Nonce)
    requires cfg.aead.Sound() && Lists(order, saved.rx.peers) && Export(cfg, saved, order, wrap, nonce).Ok?
    ensures var b := Export(cfg, saved, order, wrap, nonce).value;
            var raw := RawHeader(cfg, saved) + EncodePeers(order, saved.rx.peers);
            && |b| >= 33 && b[..4] == Magic() && b[4] == MESH_STATE_VERSION && b[5..17] == nonce
            && cfg.aead.enc(wrap, nonce, StateAad(cfg), raw) == Some(b[17..])
            && cfg.aead.dec(wrap, nonce, StateAad(cfg), b[17..]) == Some(raw)
            && |raw| >= FIXED_LEN && raw[0..4] == Be32(cfg.nodeId)
  {
    hide Be32, Be64, StateAad, EncodePeers;
    var raw := RawHeader(cfg, saved) + EncodePeers(order, saved.rx.peers);
    HeaderFields(cfg, saved, EncodePeers(order, saved.rx.peers));
    hide RawHeader;
    assert cfg.aead.enc(wrap, nonce, StateAad(cfg), raw).Some?;
  }

  lemma RawHeaderOfId(cfg: Config, cfg': Config, n: Node)
    requires cfg.nodeId == cfg'.nodeId && |n.rx.peers| < U32_LIMIT
    ensures RawHeader(cfg, n) == RawHeader(cfg', n)
  {}

  // --------------------------------------------------------------------------
  // Replay protection across a restore
  // --------------------------------------------------------------------------

  /** Some peer's highest sequence is the value that stands for None. */
  ghost predicate SentinelClash(peers: map<PeerKey, PeerReplay>) {
    exists key :: key in peers && peers[key].window.highest == Some(U64_MAX)
  }

  ghost predicate SameVerdicts(rx: Rx, rx': Rx) {
    forall p: Packet :: CheckPeers(rx, p) == CheckPeers(rx', p)
  }

  /** A restore reproduces the verdict on every packet exactly when no stored highest is the sentinel. */
  lemma RestoreKeepsVerdictsIff(rx: Rx)
    ensures SameVerdicts(rx, rx.(peers := RestoredPeers(rx.peers))) <==> !SentinelClash(rx.peers)
  {
    var rx' := rx.(peers := RestoredPeers(rx.peers));
    if SentinelClash(rx.peers) {
      var key :| key in rx.peers && rx.peers[key].window.highest == Some(U64_MAX);
      var p := Packet(WIRE_VERSION_V3, 0, key.0, key.1, 0, 0, Zeros(12), []);
      assert KeyOf(p) == key;
      assert CheckPeers(rx, p) == Err(FueraDeOrden) && CheckPeers(rx', p).Ok?;
    } else {
      forall p: Packet ensures CheckPeers(rx, p) == CheckPeers(rx', p) {
        if KeyOf(p) in rx.peers {
          assert rx.peers[KeyOf(p)].window.highest != Some(U64_MAX);
          assert rx'.peers[KeyOf(p)].window == rx.peers[KeyOf(p)].window;
        }
      }
    }
  }

  /** Equal up to the receive counts, which nothing reads. */
  ghost predicate SameWindows(rx: Rx, rx': Rx) {
    && rx.integrity == rx'.integrity && rx.peers.Keys == rx'.peers.Keys
    && forall key :: key in rx.peers ==> rx.peers[key].window == rx'.peers[key].window
  }

  lemma RestoredSameWindows(rx: Rx)
    requires !SentinelClash(rx.peers)
    ensures SameWindows(rx, rx.(peers := RestoredPeers(rx.peers)))
  {
    forall key | key in rx.peers ensures rx.peers[key].window == RestoredPeers(rx.peers)[key].window {
      assert rx.peers[key].window.highest != Some(U64_MAX);
    }
  }

  lemma SameWindowsAccept(cfg: Config, rx: Rx, rx': Rx, p: Packet)
    requires SameWindows(rx, rx')
    ensures CheckPeers(rx, p) == CheckPeers(rx', p)
    ensures SameWindows(Accept(cfg, rx, p).0, Accept(cfg, rx', p).0)
  {
    hide Check, Record, Digest;
  }

  /** From states with the same windows every open returns the same and leaves the same windows,
      so by repetition the whole future agrees: nothing accepted before the export is accepted after it. */
  lemma SameFuture(cfg: Config, rx: Rx, rx': Rx, p: Packet, userAad: Bytes, now: u64)
    requires SameWindows(rx, rx')
    ensures AtomicOpen(cfg, rx, p, userAad, now).1 == AtomicOpen(cfg, rx', p, userAad, now).1
    ensures SameWindows(AtomicOpen(cfg, rx, p, userAad, now).0, AtomicOpen(cfg, rx', p, userAad, now).0)
    ensures SameWindows(Folded(cfg, rx, p), Folded(cfg, rx', p))
  {
    SameWindowsAccept(cfg, rx, rx', p);
    hide Accept, CheckPeers, Authenticate, PreCheck, Digest;
  }
}
