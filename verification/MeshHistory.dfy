/** Sequential histories of a mesh node: what any order of indivisible operations guarantees. */
module MeshHistory {
  import opened Words
  import opened Primitives
  import opened PacketCodec
  import opened SlidingWindow
  import opened MeshNode

  /** One indivisible operation on the guarded state: an open with the result it
      returned, or the fold of a packet the node sealed. */
  datatype Op =
    | OpenOp(packet: Packet, userAad: Bytes, now: u64, result: Result<Bytes>)
    | FoldOp(packet: Packet)

  function Apply(cfg: Config, rx: Rx, op: Op): Rx {
    match op
    case OpenOp(packet, userAad, now, _) => AtomicOpen(cfg, rx, packet, userAad, now).0
    case FoldOp(packet) => Folded(cfg, rx, packet)
  }

  /** The guarded state after `ops`, starting from `rx0`. */
  function After(cfg: Config, rx0: Rx, ops: seq<Op>): Rx {
    if ops == [] then rx0 else Apply(cfg, After(cfg, rx0, ops[..|ops| - 1]), ops[|ops| - 1])
  }

  /** Every open returned what it returns when run alone at its place in the history. */
  ghost predicate Legal(cfg: Config, rx0: Rx, ops: seq<Op>) {
    ops != [] ==>
      var init, last := ops[..|ops| - 1], ops[|ops| - 1];
      && Legal(cfg, rx0, init)
      && (last.OpenOp? ==> last.result == AtomicOpen(cfg, After(cfg, rx0, init), last.packet, last.userAad, last.now).1)
  }

  predicate Accepts(op: Op) {
    op.OpenOp? && op.result.Ok?
  }

  lemma LegalAppend(cfg: Config, rx0: Rx, ops: seq<Op>, op: Op)
    requires Legal(cfg, rx0, ops)
    requires op.OpenOp? ==> op.result == AtomicOpen(cfg, After(cfg, rx0, ops), op.packet, op.userAad, op.now).1
    ensures Legal(cfg, rx0, ops + [op]) && After(cfg, rx0, ops + [op]) == Apply(cfg, After(cfg, rx0, ops), op)
  {
    assert (ops + [op])[..|ops|] == ops;
  }

  // --------------------------------------------------------------------------
  // Replay protection
  // --------------------------------------------------------------------------

  /** The sequences of one peer that the history accepted. */
  function AcceptedOf(ops: seq<Op>, key: PeerKey): set<nat> {
    if ops == [] then {}
    else
      var last := ops[|ops| - 1];
      AcceptedOf(ops[..|ops| - 1], key)
        + (if Accepts(last) && KeyOf(last.packet) == key then {last.packet.sequence} else {})
  }

  /** Each stored window tracks the accepted sequences of its peer; only peers with one are stored. */
  ghost predicate PeersTrack(rx: Rx, ops: seq<Op>) {
    forall key: PeerKey :: PeerTracks(rx, key, AcceptedOf(ops, key))
  }

  ghost predicate PeerTracks(rx: Rx, key: PeerKey, accepted: set<nat>) {
    if key in rx.peers then accepted != {} && Tracks(rx.peers[key].window, accepted, MAX_WINDOW)
    else accepted == {}
  }

  lemma CheckIsSetVerdict(rx: Rx, p: Packet, accepted: set<nat>)
    requires PeerTracks(rx, KeyOf(p), accepted)
    ensures CheckPeers(rx, p) == SetVerdict(accepted, p.sequence, MAX_WINDOW)
  {
    if KeyOf(p) in rx.peers {
      CheckRefinesSet(rx.peers[KeyOf(p)].window, accepted, p.sequence, MAX_WINDOW);
    }
  }

  lemma AcceptTracks(cfg: Config, rx: Rx, p: Packet, key: PeerKey, accepted: set<nat>)
    requires PeerTracks(rx, key, accepted) && CheckPeers(rx, p).Ok?
    ensures Accept(cfg, rx, p).1.Ok?
    ensures PeerTracks(Accept(cfg, rx, p).0, key, if key == KeyOf(p) then accepted + {p.sequence} else accepted)
  {
    AcceptAgreesWithCheck(cfg, rx, p);
    if key == KeyOf(p) {
      var peer := if key in rx.peers then rx.peers[key] else FRESH_PEER;
      RecordTracks(peer.window, accepted, p.sequence, MAX_WINDOW);
    }
    hide Digest, Record, Check, Tracks;
  }

  lemma OpenTracks(cfg: Config, rx: Rx, p: Packet, userAad: Bytes, now: u64, key: PeerKey, accepted: set<nat>)
    requires PeerTracks(rx, key, accepted)
    ensures var (rx', result) := AtomicOpen(cfg, rx, p, userAad, now);
            PeerTracks(rx', key, if result.Ok? && key == KeyOf(p) then accepted + {p.sequence} else accepted)
  {
    hide Accept, Authenticate, PreCheck, CheckPeers, PeerTracks;
    if AtomicOpen(cfg, rx, p, userAad, now).1.Ok? {
      AcceptTracks(cfg, rx, p, key, accepted);
    }
  }

  /** `known` is what the starting state already remembers: the history it was restored with, or nothing. */
  lemma {:induction false} LegalTracks(cfg: Config, rx0: Rx, known: seq<Op>, ops: seq<Op>)
    requires PeersTrack(rx0, known) && Legal(cfg, rx0, ops)
    ensures PeersTrack(After(cfg, rx0, ops), known + ops)
    decreases |ops|
  {
    if ops == [] {
      assert known + ops == known;
      return;
    }
    var init, last := ops[..|ops| - 1], ops[|ops| - 1];
    var before := known + init;
    assert (known + ops)[..|known + ops| - 1] == before && (known + ops)[|known + ops| - 1] == last;
    LegalTracks(cfg, rx0, known, init);
    hide AtomicOpen, PeerTracks, Folded;
    var rx := After(cfg, rx0, init);
    forall key: PeerKey ensures PeerTracks(After(cfg, rx0, ops), key, AcceptedOf(known + ops, key)) {
      assert PeerTracks(rx, key, AcceptedOf(before, key));
      match last {
        case OpenOp(packet, userAad, now, result) =>
          OpenTracks(cfg, rx, packet, userAad, now, key, AcceptedOf(before, key));
          if !(Accepts(last) && KeyOf(packet) == key) {
            assert AcceptedOf(before, key) + {} == AcceptedOf(before, key);
          }
        case FoldOp(packet) =>
          FoldTracks(cfg, rx, packet, key, AcceptedOf(before, key));
          assert AcceptedOf(before, key) + {} == AcceptedOf(before, key);
      }
    }
  }

  /** A genuine packet, opened after any history: refused outside the drift, otherwise given the verdict of
      the set of all sequences ever accepted from its sender, and its plaintext when accepted. */
  lemma GenuineVerdict(cfg: Config, rx0: Rx, known: seq<Op>, ops: seq<Op>, o: Origin, now: u64)
    requires cfg.aead.Sound() && PeersTrack(rx0, known) && Legal(cfg, rx0, ops) && Genuine(cfg, o)
    ensures var verdict := SetVerdict(AcceptedOf(known + ops, (o.nodeId, o.epoch)), o.sequence, MAX_WINDOW);
            AtomicOpen(cfg, After(cfg, rx0, ops), o.packet, o.userAad, now).1 ==
            if now > o.timestampMs + cfg.maxDrift || o.timestampMs > now + cfg.maxDrift
            then Err(TiempoExpiradoOInvalido)
            else if verdict.Err? then Err(verdict.error)
            else Ok(o.plaintext)
  {
    SealedAuthenticates(cfg, o);
    LegalTracks(cfg, rx0, known, ops);
    hide Authenticate, Genuine, Accept, After, AcceptedOf;
    var key := (o.nodeId, o.epoch);
    assert PeerTracks(After(cfg, rx0, ops), key, AcceptedOf(known + ops, key));
    CheckIsSetVerdict(After(cfg, rx0, ops), o.packet, AcceptedOf(known + ops, key));
    hide CheckPeers, SetVerdict;
  }

  lemma FoldTracks(cfg: Config, rx: Rx, p: Packet, key: PeerKey, accepted: set<nat>)
    requires PeerTracks(rx, key, accepted)
    ensures PeerTracks(Folded(cfg, rx, p), key, accepted)
  {}

  lemma {:induction false} AcceptedMember(ops: seq<Op>, i: nat)
    requires i < |ops| && Accepts(ops[i])
    ensures ops[i].packet.sequence in AcceptedOf(ops, KeyOf(ops[i].packet))
    decreases |ops|
  {
    if i < |ops| - 1 {
      AcceptedMember(ops[..|ops| - 1], i);
    }
  }

  /** The node, epoch and sequence of an operation's packet. */
  function IdentityOf(op: Op): (PeerKey, u64) {
    (KeyOf(op.packet), op.packet.sequence)
  }

  /** No (node, epoch, sequence) is accepted twice. */
  ghost predicate AcceptedOnce(ops: seq<Op>) {
    forall i, j :: 0 <= i < j < |ops| && Accepts(ops[i]) && Accepts(ops[j]) ==> IdentityOf(ops[i]) != IdentityOf(ops[j])
  }

  /** An accepted packet is new to everything the state remembers. */
  lemma AcceptedIsNew(cfg: Config, rx: Rx, known: seq<Op>, op: Op, i: nat)
    requires PeersTrack(rx, known) && op.OpenOp? && Accepts(op)
    requires op.result == AtomicOpen(cfg, rx, op.packet, op.userAad, op.now).1
    requires i < |known| && Accepts(known[i])
    ensures IdentityOf(known[i]) != IdentityOf(op)
  {
    var key := KeyOf(op.packet);
    assert PeerTracks(rx, key, AcceptedOf(known, key));
    CheckIsSetVerdict(rx, op.packet, AcceptedOf(known, key));
    AcceptedMember(known, i);
    hide Accept, Authenticate, PreCheck, CheckPeers, PeerTracks, AcceptedOf;
  }

  /** No legal history, nor what it started from, accepts one (node, epoch, sequence) twice. */
  lemma {:induction false} NoDoubleAccept(cfg: Config, rx0: Rx, known: seq<Op>, ops: seq<Op>)
    requires PeersTrack(rx0, known) && AcceptedOnce(known) && Legal(cfg, rx0, ops)
    ensures AcceptedOnce(known + ops)
    decreases |ops|
  {
    hide AtomicOpen, After, PeersTrack;
    if ops == [] {
      assert known + ops == known;
    } else {
      var init, last := ops[..|ops| - 1], ops[|ops| - 1];
      var before := known + init;
      assert known + ops == before + [last];
      NoDoubleAccept(cfg, rx0, known, init);
      if Accepts(last) {
        LegalTracks(cfg, rx0, known, init);
        forall i | 0 <= i < |before| && Accepts(before[i]) ensures IdentityOf(before[i]) != IdentityOf(last) {
          AcceptedIsNew(cfg, After(cfg, rx0, init), before, last, i);
        }
      }
    }
  }

  // --------------------------------------------------------------------------
  // The integrity hash
  // --------------------------------------------------------------------------

  /** XOR of the digests of `ps`. */
  function FoldAll(hash: Hash, ps: seq<Packet>): Bytes32 {
    if ps == [] then ZERO32 else Xor(FoldAll(hash, ps[..|ps| - 1]), hash(DigestInput(ps[|ps| - 1])))
  }

  /** The packets a history counted: those accepted and those sealed. */
  function Counted(ops: seq<Op>): seq<Packet> {
    if ops == [] then []
    else
      var last := ops[|ops| - 1];
      Counted(ops[..|ops| - 1]) + (if last.FoldOp? || Accepts(last) then [last.packet] else [])
  }

  lemma FoldAllAppend(hash: Hash, ps: seq<Packet>, p: Packet)
    ensures FoldAll(hash, ps + [p]) == Xor(FoldAll(hash, ps), hash(DigestInput(p)))
  {
    assert (ps + [p])[..|ps|] == ps;
  }

  /** The hash over one packet is that packet's digest. */
  lemma FoldOne(hash: Hash, p: Packet)
    ensures FoldAll(hash, [p]) == hash(DigestInput(p))
  {
    hide DigestInput;
    assert [p][..0] == [];
    XorZeros(hash(DigestInput(p)));
    assert FoldAll(hash, []) == Zeros(32);
  }

  lemma AtomicOpenIntegrity(cfg: Config, rx: Rx, p: Packet, userAad: Bytes, now: u64)
    ensures var (rx', result) := AtomicOpen(cfg, rx, p, userAad, now);
            rx'.integrity == if result.Ok? then Xor(rx.integrity, cfg.hash(DigestInput(p))) else rx.integrity
  {
    AcceptAgreesWithCheck(cfg, rx, p);
    hide Authenticate, PreCheck, Check, Record, DigestInput, Xor;
  }

  /** The hash is the XOR of the digests of everything counted, in whatever order. */
  lemma {:induction false} IntegrityIsFold(cfg: Config, rx0: Rx, known: seq<Op>, ops: seq<Op>)
    requires rx0.integrity == FoldAll(cfg.hash, Counted(known)) && Legal(cfg, rx0, ops)
    ensures After(cfg, rx0, ops).integrity == FoldAll(cfg.hash, Counted(known + ops))
    decreases |ops|
  {
    if ops == [] {
      assert known + ops == known;
    } else {
      var init, last := ops[..|ops| - 1], ops[|ops| - 1];
      assert (known + ops)[..|known + ops| - 1] == known + init && (known + ops)[|known + ops| - 1] == last;
      IntegrityIsFold(cfg, rx0, known, init);
      FoldAllAppend(cfg.hash, Counted(known + init), last.packet);
      if last.OpenOp? {
        AtomicOpenIntegrity(cfg, After(cfg, rx0, init), last.packet, last.userAad, last.now);
      }
      hide AtomicOpen, DigestInput, Xor;
      if !(last.FoldOp? || Accepts(last)) {
        assert Counted(known + ops) == Counted(known + init);
      }
    }
  }

  /** Moving one packet to the end does not change the fold. */
  lemma {:induction false} FoldAllRemove(hash: Hash, ps: seq<Packet>, k: nat)
    requires k < |ps|
    ensures FoldAll(hash, ps) == Xor(FoldAll(hash, ps[..k] + ps[k + 1..]), hash(DigestInput(ps[k])))
    decreases |ps|
  {
    hide Xor, DigestInput;
    var init, last := ps[..|ps| - 1], ps[|ps| - 1];
    if k == |ps| - 1 {
      assert ps[..k] + ps[k + 1..] == init;
    } else {
      FoldAllRemove(hash, init, k);
      var rest := init[..k] + init[k + 1..];
      assert ps[..k] == init[..k] && ps[k + 1..] == init[k + 1..] + [last];
      assert init[..k] + (init[k + 1..] + [last]) == rest + [last];
      FoldAllAppend(hash, rest, last);
      var r, x, y := FoldAll(hash, rest), hash(DigestInput(ps[k])), hash(DigestInput(last));
      XorAssociates(r, x, y);
      XorAssociates(r, y, x);
      XorCommutes(x, y);
    }
  }

  /** The fold depends only on which packets were counted, and how often. */
  lemma {:induction false} FoldAllPermutes(hash: Hash, ps: seq<Packet>, qs: seq<Packet>)
    requires multiset(ps) == multiset(qs)
    ensures FoldAll(hash, ps) == FoldAll(hash, qs)
    decreases |ps|
  {
    hide Xor, DigestInput;
    if ps == [] {
      assert |multiset(ps)| == |ps| && |multiset(qs)| == |qs|;
    } else {
      var init, last := ps[..|ps| - 1], ps[|ps| - 1];
      assert ps == init + [last];
      assert last in multiset(qs);
      var k :| 0 <= k < |qs| && qs[k] == last;
      var rest := qs[..k] + qs[k + 1..];
      assert qs == qs[..k] + [qs[k]] + qs[k + 1..];
      assert multiset(rest) == multiset(qs) - multiset{last};
      FoldAllPermutes(hash, init, rest);
      FoldAllRemove(hash, qs, k);
    }
  }

  // --------------------------------------------------------------------------
  // What a state remembers
  // --------------------------------------------------------------------------

  /** The guarded state holds exactly the history `known`: its windows, and the hash over what it counted. */
  ghost predicate Remembers(hash: Hash, rx: Rx, known: seq<Op>) {
    PeersTrack(rx, known) && AcceptedOnce(known) && rx.integrity == FoldAll(hash, Counted(known))
  }

  lemma RemembersNothing(hash: Hash)
    ensures Remembers(hash, EMPTY_RX, [])
  {}

  lemma RemembersMore(cfg: Config, rx0: Rx, known: seq<Op>, ops: seq<Op>)
    requires Remembers(cfg.hash, rx0, known) && Legal(cfg, rx0, ops)
    ensures Remembers(cfg.hash, After(cfg, rx0, ops), known + ops)
  {
    hide PeersTrack, AcceptedOnce, Legal, After, FoldAll, Counted;
    LegalTracks(cfg, rx0, known, ops);
    NoDoubleAccept(cfg, rx0, known, ops);
    IntegrityIsFold(cfg, rx0, known, ops);
  }

  /** A seal run alone leaves a state that remembers one more packet exactly when it succeeds: the hash counts it, the
      windows do not. */
  lemma SealRemembered(cfg: Config, n: Node, known: seq<Op>, plaintext: Bytes, userAad: Bytes, now: u64)
    requires Remembers(cfg.hash, n.rx, known)
    ensures var (n', r) := SealRealtime(cfg, n, plaintext, userAad, now);
            && n'.rx.peers == n.rx.peers
            && Remembers(cfg.hash, n'.rx, known + if r.Ok? then [FoldOp(r.value)] else [])
            && n'.rx.integrity == FoldAll(cfg.hash, Counted(known) + if r.Ok? then [r.value] else [])
  {
    SealOutcome(cfg, n, plaintext, userAad, now);
    var (n', r) := SealRealtime(cfg, n, plaintext, userAad, now);
    if r.Ok? {
      FoldRemembered(cfg, n.rx, known, r.value);
      assert n'.rx == Folded(cfg, n.rx, r.value);
    } else {
      assert known + [] == known && Counted(known) + [] == Counted(known);
    }
    hide SealRealtime, PeersTrack, AcceptedOnce, FoldAll, Counted;
  }

  lemma FoldRemembered(cfg: Config, rx: Rx, known: seq<Op>, p: Packet)
    requires Remembers(cfg.hash, rx, known)
    ensures Remembers(cfg.hash, Folded(cfg, rx, p), known + [FoldOp(p)])
    ensures Folded(cfg, rx, p).integrity == FoldAll(cfg.hash, Counted(known) + [p])
  {
    var ops := [FoldOp(p)];
    assert ops[..0] == [];
    assert Legal(cfg, rx, []) && Legal(cfg, rx, ops) && After(cfg, rx, []) == rx
           && After(cfg, rx, ops) == Folded(cfg, rx, p);
    assert (known + ops)[..|known|] == known && (known + ops)[|known|] == FoldOp(p);
    assert Counted(known + ops) == Counted(known) + [p];
    RemembersMore(cfg, rx, known, ops);
    hide Counted, Remembers, PeersTrack, AcceptedOnce;
  }
}
