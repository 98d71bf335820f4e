/** Whole runs of two ordered channels: an adversarial network in between, callers free to
 *  supply any associated data, and snapshots that replace their exporter at the saved state.
 */
module OrderedRuns {
  import opened Words
  import opened Endpoints
  import opened Primitives
  import opened PacketCodec
  import opened OrderedChannel
  import opened Snapshot

  /** One packet the peer sealed; `packet.epoch` is the epoch it was sealed at. */
  datatype Message = Message(packet: Packet, plaintext: Bytes, userAad: Bytes)

  /** A snapshot that still describes its exporter. */
  datatype Saved = Saved(blob: Bytes, wrap: Bytes32)

  /** How one packet was accepted: the epoch it authenticated under, and what the caller supplied. */
  datatype Opened = Opened(epoch: u64, userAad: Bytes)

  datatype Peer = Peer(state: State, sent: seq<Message>, got: seq<Bytes>, opens: seq<Opened>, saved: Option<Saved>)

  datatype World = World(a: Peer, b: Peer, log: set<Sealing>)

  datatype Step =
    | SealStep(side: Side, nonce: Nonce, plaintext: Bytes, userAad: Bytes)
    | OpenStep(side: Side, packet: Packet, userAad: Bytes)
    | ExportStep(side: Side, nonce: Nonce, wrap: Bytes32)
    | RestoreStep(side: Side)
    | ResumeStep(side: Side)

  function Get(w: World, side: Side): Peer {
    if side == A then w.a else w.b
  }

  function Put(w: World, side: Side, p: Peer): World {
    if side == A then w.(a := p) else w.(b := p)
  }

  function Entry(kdf: Kdf, key: Bytes32, m: Message): Sealing {
    var aad := AadV2(m.packet.flags, m.packet.sequence, m.userAad, m.packet.epoch);
    Sealing(KeyAt(kdf, key, m.packet.sequence), m.packet.nonce, if aad.Ok? then aad.value else [],
            m.plaintext, m.packet.ciphertext)
  }

  /** The state machine. Sealing and accepting move a peer on, so its snapshot is dropped:
      a later restore of it would start a second lineage. */
  function Next(suite: Suite, keyA: Bytes32, keyB: Bytes32, w: World, step: Step): World {
    var p := Get(w, step.side);
    match step
    case SealStep(side, nonce, plaintext, userAad) =>
      var (s, r) := Seal(suite, p.state, nonce, plaintext, userAad);
      if r.Err? then w
      else
        var m := Message(r.value, plaintext, userAad);
        Put(w, side, p.(state := s, sent := p.sent + [m], saved := None))
          .(log := w.log + {Entry(suite.kdf, if side == A then keyA else keyB, m)})
    case OpenStep(side, packet, userAad) =>
      var (s, r) := Open(suite, p.state, packet, userAad);
      if r.Err? then Put(w, side, p.(state := s))
      else Put(w, side, p.(state := s, got := p.got + [r.value], opens := p.opens + [Opened(s.epoch, userAad)],
                           saved := None))
    case ExportStep(side, nonce, wrap) =>
      var (s, r) := ExportState(suite.aead, p.state, wrap, nonce);
      Put(w, side, p.(state := s, saved := if r.Ok? then Some(Saved(r.value, wrap)) else None))
    case RestoreStep(side) =>
      if p.saved.None? then w
      else
        var r := ImportState(suite.aead, p.saved.value.blob, p.saved.value.wrap, p.state.context);
        if r.Err? then w else Put(w, side, p.(state := r.value))
    case ResumeStep(side) => Put(w, side, p.(state := p.state.(needsAck := false)))
  }

  /** The associated data one call of `Open` may try. */
  ghost predicate Tried(s: State, p: Packet, userAad: Bytes, aad: Bytes) {
    || AadV2(p.flags, p.sequence, userAad, s.epoch) == Ok(aad)
    || AadV2(p.flags, p.sequence, userAad, NextEpoch(s.epoch)) == Ok(aad)
    || AadV1(p.sequence) == aad
  }

  ghost predicate Allowed(suite: Suite, w: World, step: Step) {
    step.OpenStep? ==>
      var s := Get(w, step.side).state;
      forall aad {:trigger Tried(s, step.packet, step.userAad, aad)} :: Tried(s, step.packet, step.userAad, aad) ==>
        Unforgeable(suite.aead, w.log, s.rxKey, step.packet.nonce, aad, step.packet.ciphertext)
  }

  ghost predicate Run(suite: Suite, keyA: Bytes32, keyB: Bytes32, w: World, steps: seq<Step>, w': World)
    decreases |steps|
  {
    if steps == [] then w == w'
    else Allowed(suite, w, steps[0]) && Run(suite, keyA, keyB, Next(suite, keyA, keyB, w, steps[0]), steps[1..], w')
  }

  // --------------------------------------------------------------------------
  // One direction
  // --------------------------------------------------------------------------

  ghost predicate SenderInv(suite: Suite, key: Bytes32, p: Peer) {
    && p.state.txSeq == |p.sent|
    && p.state.txKey == KeyAt(suite.kdf, key, |p.sent|)
    && forall i :: 0 <= i < |p.sent| ==> GoodMessage(p.sent[i], i)
  }

  predicate GoodMessage(m: Message, i: nat) {
    && m.packet.sequence == i
    && m.packet.version == WIRE_VERSION_V2
    && m.packet.flags == FlagsFor(m.userAad)
    && |m.userAad| < U32_LIMIT
  }

  ghost predicate LoggedBy(suite: Suite, key: Bytes32, e: Sealing, p: Peer) {
    exists i :: 0 <= i < |p.sent| && e == Entry(suite.kdf, key, p.sent[i])
  }

  ghost predicate AllLogged(suite: Suite, key: Bytes32, p: Peer, log: set<Sealing>) {
    forall i :: 0 <= i < |p.sent| ==> Entry(suite.kdf, key, p.sent[i]) in log
  }

  /** What the receiver accepted is a prefix of what the sender sealed, and its key kept pace. */
  ghost predicate ReceiverInv(suite: Suite, key: Bytes32, s: Peer, r: Peer) {
    && r.state.rxSeq == |r.got| == |r.opens| <= |s.sent|
    && r.state.rxKey == KeyAt(suite.kdf, key, |r.got|)
    && forall i :: 0 <= i < |r.got| ==> r.got[i] == s.sent[i].plaintext
  }

  ghost predicate SavedInv(suite: Suite, p: Peer) {
    p.saved.Some? ==>
      ImportState(suite.aead, p.saved.value.blob, p.saved.value.wrap, p.state.context) == Ok(p.state.(needsAck := true))
  }

  /** The two directions never use the same key for the same sequence. */
  ghost predicate Separated(kdf: Kdf, keyA: Bytes32, keyB: Bytes32) {
    forall n: nat :: KeyAt(kdf, keyA, n) != KeyAt(kdf, keyB, n)
  }

  ghost predicate LogInv(suite: Suite, keyA: Bytes32, keyB: Bytes32, w: World) {
    && GenuineLog(suite.aead, w.log)
    && AllLogged(suite, keyA, w.a, w.log) && AllLogged(suite, keyB, w.b, w.log)
    && (forall e :: e in w.log ==> LoggedBy(suite, keyA, e, w.a) || LoggedBy(suite, keyB, e, w.b))
  }

  ghost predicate Inv(suite: Suite, keyA: Bytes32, keyB: Bytes32, w: World) {
    && SenderInv(suite, keyA, w.a) && SenderInv(suite, keyB, w.b)
    && ReceiverInv(suite, keyA, w.a, w.b) && ReceiverInv(suite, keyB, w.b, w.a)
    && LogInv(suite, keyA, keyB, w)
    && SavedInv(suite, w.a) && SavedInv(suite, w.b)
  }

  function KeyOf(side: Side, keyA: Bytes32, keyB: Bytes32): Bytes32 {
    if side == A then keyA else keyB
  }

  // --------------------------------------------------------------------------
  // Accepting
  // --------------------------------------------------------------------------

  /** A successful authentication decrypted under one of the tried associated data. */
  lemma AuthenticateTried(aead: Aead, s: State, p: Packet, userAad: Bytes) returns (aad: Bytes)
    requires Authenticate(aead, s, p, userAad).Ok?
    ensures Tried(s, p, userAad, aad)
    ensures aead.dec(s.rxKey, p.nonce, aad, p.ciphertext) == Some(Authenticate(aead, s, p, userAad).value.1)
    ensures p.version == WIRE_VERSION_V2 ==>
              AadV2(p.flags, p.sequence, userAad, Authenticate(aead, s, p, userAad).value.0) == Ok(aad)
    ensures p.version != WIRE_VERSION_V2 ==> p.version == WIRE_VERSION_V1 && aad == AadV1(p.sequence)
  {
    hide AadV2, AadV1;
    aad := if p.version == WIRE_VERSION_V2
           then AadV2(p.flags, p.sequence, userAad, Authenticate(aead, s, p, userAad).value.0).value
           else AadV1(p.sequence);
  }

  /** The key and the AAD of a logged entry pin it to one sender and one sequence. */
  lemma EntryPinned(suite: Suite, keyA: Bytes32, keyB: Bytes32, w: World, side: Side, e: Sealing, flags: byte,
                    userAad: Bytes, epoch: u64)
    requires Separated(suite.kdf, keyA, keyB) && Inv(suite, keyA, keyB, w) && e in w.log
    requires e.key == Get(w, side).state.rxKey
    requires AadV2(flags, Get(w, side).state.rxSeq, userAad, epoch) == Ok(e.aad)
    ensures var n := Get(w, side).state.rxSeq;
            && n < |Get(w, Other(side)).sent|
            && e == Entry(suite.kdf, KeyOf(Other(side), keyA, keyB), Get(w, Other(side)).sent[n])
            && AadV2(flags, n, userAad, epoch) ==
               AadV2(Get(w, Other(side)).sent[n].packet.flags, n, Get(w, Other(side)).sent[n].userAad,
                     Get(w, Other(side)).sent[n].packet.epoch)
  {
    hide AadV2, KeyAt, AllLogged, SavedInv, GenuineLog, FlagsFor;
    var r, s := Get(w, side), Get(w, Other(side));
    var n := r.state.rxSeq;
    var own := LoggedBy(suite, KeyOf(side, keyA, keyB), e, r);
    assert own || LoggedBy(suite, KeyOf(Other(side), keyA, keyB), e, s);
    var p := if own then r else s;
    var key := KeyOf(if own then side else Other(side), keyA, keyB);
    var i :| 0 <= i < |p.sent| && e == Entry(suite.kdf, key, p.sent[i]);
    assert GoodMessage(p.sent[i], i);
    AadV2Header(p.sent[i].packet.flags, i, p.sent[i].userAad, p.sent[i].packet.epoch, flags, n, userAad, epoch);
    assert KeyAt(suite.kdf, keyA, n) != KeyAt(suite.kdf, keyB, n);
  }

  /** An accepted packet is, byte for byte, the next one the other side sealed. */
  lemma AcceptedIsNext(suite: Suite, keyA: Bytes32, keyB: Bytes32, w: World, side: Side, packet: Packet, userAad: Bytes)
    requires suite.aead.Sound() && Separated(suite.kdf, keyA, keyB) && Inv(suite, keyA, keyB, w)
    requires Allowed(suite, w, OpenStep(side, packet, userAad))
    requires Open(suite, Get(w, side).state, packet, userAad).1.Ok?
    ensures Authenticate(suite.aead, Get(w, side).state, packet, userAad).Ok?
    ensures var n, sent := Get(w, side).state.rxSeq, Get(w, Other(side)).sent;
            var (epoch, plaintext) := Authenticate(suite.aead, Get(w, side).state, packet, userAad).value;
            && n < |sent| && packet.version == WIRE_VERSION_V2
            && packet.sequence == n
            && packet.nonce == sent[n].packet.nonce && packet.ciphertext == sent[n].packet.ciphertext
            && plaintext == sent[n].plaintext && |userAad| < U32_LIMIT
            && AadV2(packet.flags, n, userAad, epoch)
               == AadV2(sent[n].packet.flags, n, sent[n].userAad, sent[n].packet.epoch)
  {
    hide AadV2, AadV1, KeyAt, SenderInv, ReceiverInv, SavedInv, AllLogged, Received;
    var s := Get(w, side).state;
    var aad := AuthenticateTried(suite.aead, s, packet, userAad);
    var (epoch, plaintext) := Authenticate(suite.aead, s, packet, userAad).value;
    assert Unforgeable(suite.aead, w.log, s.rxKey, packet.nonce, aad, packet.ciphertext);
    OpenedWasSealed(suite.aead, w.log, s.rxKey, packet.nonce, aad, packet.ciphertext, plaintext);
    var e := Sealing(s.rxKey, packet.nonce, aad, plaintext, packet.ciphertext);
    if packet.version == WIRE_VERSION_V1 {
      EntryIsV2(suite, keyA, keyB, w, e, packet.sequence);
    } else {
      EntryPinned(suite, keyA, keyB, w, side, e, packet.flags, userAad, epoch);
    }
  }

  /** Nobody seals under a v1 AAD. */
  lemma EntryIsV2(suite: Suite, keyA: Bytes32, keyB: Bytes32, w: World, e: Sealing, sequence: u64)
    requires Inv(suite, keyA, keyB, w) && e in w.log
    ensures e.aad != AadV1(sequence)
  {
    hide AadV2, AadV1, KeyAt, ReceiverInv, SavedInv, AllLogged, GenuineLog, FlagsFor;
    var own := LoggedBy(suite, keyA, e, w.a);
    var p, key := if own then w.a else w.b, if own then keyA else keyB;
    var i :| 0 <= i < |p.sent| && e == Entry(suite.kdf, key, p.sent[i]);
    var m := p.sent[i];
    assert GoodMessage(m, i);
    AadVersionsDisjoint(sequence, m.packet.flags, m.packet.sequence, m.userAad, m.packet.epoch, 0, 0, 0, 0, 0, ZERO32,
                        []);
  }

  // --------------------------------------------------------------------------
  // Every step keeps the invariant
  // --------------------------------------------------------------------------

  lemma SealKeeps(suite: Suite, keyA: Bytes32, keyB: Bytes32, w: World, side: Side, nonce: Nonce, plaintext: Bytes,
                  userAad: Bytes)
    requires Inv(suite, keyA, keyB, w)
    ensures Inv(suite, keyA, keyB, Next(suite, keyA, keyB, w, SealStep(side, nonce, plaintext, userAad)))
  {
    var p, other := Get(w, side), Get(w, Other(side));
    var key := KeyOf(side, keyA, keyB);
    var (s, r) := Seal(suite, p.state, nonce, plaintext, userAad);
    if r.Ok? {
      var m := Message(r.value, plaintext, userAad);
      var p' := p.(state := s, sent := p.sent + [m], saved := None);
      var log' := w.log + {Entry(suite.kdf, key, m)};
      SealedSender(suite, key, p, nonce, plaintext, userAad);
      SealedLog(suite, key, p, p', m, other, KeyOf(Other(side), keyA, keyB), w.log);
      SealedReceivers(suite, keyA, keyB, w, side, nonce, plaintext, userAad);
      SealedGenuine(suite, key, p, nonce, plaintext, userAad, w.log);
    }
    hide Seal, AadV2, KeyAt, SenderInv, ReceiverInv, SavedInv, AllLogged, LoggedBy, Entry, GenuineLog, Sent;
  }

  lemma SealedSender(suite: Suite, key: Bytes32, p: Peer, nonce: Nonce, plaintext: Bytes, userAad: Bytes)
    requires SenderInv(suite, key, p) && Seal(suite, p.state, nonce, plaintext, userAad).1.Ok?
    ensures var (s, r) := Seal(suite, p.state, nonce, plaintext, userAad);
            SenderInv(suite, key, p.(state := s, sent := p.sent + [Message(r.value, plaintext, userAad)],
                                     saved := None))
  {
    hide AadV2, Extend, Ratchet, FlagsFor;
  }

  lemma SealedGenuine(suite: Suite, key: Bytes32, p: Peer, nonce: Nonce, plaintext: Bytes, userAad: Bytes,
                      log: set<Sealing>)
    requires SenderInv(suite, key, p) && Seal(suite, p.state, nonce, plaintext, userAad).1.Ok?
    requires GenuineLog(suite.aead, log)
    ensures var m := Message(Seal(suite, p.state, nonce, plaintext, userAad).1.value, plaintext, userAad);
            GenuineLog(suite.aead, log + {Entry(suite.kdf, key, m)})
  {
    hide AadV2, Extend, Ratchet, FlagsFor;
  }

  lemma SealedReceivers(suite: Suite, keyA: Bytes32, keyB: Bytes32, w: World, side: Side, nonce: Nonce,
                        plaintext: Bytes, userAad: Bytes)
    requires Inv(suite, keyA, keyB, w) && Seal(suite, Get(w, side).state, nonce, plaintext, userAad).1.Ok?
    ensures var (s, r) := Seal(suite, Get(w, side).state, nonce, plaintext, userAad);
            var p' := Get(w, side).(state := s, sent := Get(w, side).sent + [Message(r.value, plaintext, userAad)],
                                    saved := None);
            && ReceiverInv(suite, KeyOf(side, keyA, keyB), p', Get(w, Other(side)))
            && ReceiverInv(suite, KeyOf(Other(side), keyA, keyB), Get(w, Other(side)), p')
  {
    hide AadV2, Extend, Ratchet, FlagsFor, KeyAt, SavedInv, LogInv;
  }

  lemma SealedLog(suite: Suite, key: Bytes32, p: Peer, p': Peer, m: Message, other: Peer, otherKey: Bytes32,
                  log: set<Sealing>)
    requires p'.sent == p.sent + [m]
    requires AllLogged(suite, key, p, log) && AllLogged(suite, otherKey, other, log)
    requires forall e :: e in log ==> LoggedBy(suite, key, e, p) || LoggedBy(suite, otherKey, e, other)
    ensures AllLogged(suite, key, p', log + {Entry(suite.kdf, key, m)})
    ensures AllLogged(suite, otherKey, other, log + {Entry(suite.kdf, key, m)})
    ensures forall e :: e in log + {Entry(suite.kdf, key, m)} ==>
            LoggedBy(suite, key, e, p') || LoggedBy(suite, otherKey, e, other)
  {
    hide Entry;
    assert p'.sent[|p.sent|] == m;
    forall e | e in log + {Entry(suite.kdf, key, m)}
      ensures LoggedBy(suite, key, e, p') || LoggedBy(suite, otherKey, e, other) {
      if e in log && LoggedBy(suite, key, e, p) {
        var i :| 0 <= i < |p.sent| && e == Entry(suite.kdf, key, p.sent[i]);
        assert p'.sent[i] == p.sent[i];
      }
    }
  }

  /** The receiver once `p` was accepted. */
  function Receive(suite: Suite, r: Peer, epoch: u64, p: Packet, plaintext: Bytes, userAad: Bytes): Peer
    requires r.state.rxSeq < U64_MAX
  {
    r.(state := Received(suite, r.state, epoch, p), got := r.got + [plaintext],
       opens := r.opens + [Opened(epoch, userAad)],
       saved := None)
  }

  lemma ReceivedKeeps(suite: Suite, keyIn: Bytes32, keyOut: Bytes32, s: Peer, r: Peer,
                      epoch: u64, p: Packet, plaintext: Bytes, userAad: Bytes)
    requires ReceiverInv(suite, keyIn, s, r) && SenderInv(suite, keyOut, r) && ReceiverInv(suite, keyOut, r, s)
    requires r.state.rxSeq < |s.sent| && r.state.rxSeq < U64_MAX && plaintext == s.sent[r.state.rxSeq].plaintext
    ensures var r' := Receive(suite, r, epoch, p, plaintext, userAad);
            ReceiverInv(suite, keyIn, s, r') && SenderInv(suite, keyOut, r') && ReceiverInv(suite, keyOut, r', s)
  {
    hide Extend, Ratchet, GoodMessage;
  }

  /** What an open does to a world: nothing, or one more packet received. */
  lemma OpenNext(suite: Suite, keyA: Bytes32, keyB: Bytes32, w: World, side: Side, packet: Packet, userAad: Bytes)
    ensures var (p, w') := (Get(w, side), Next(suite, keyA, keyB, w, OpenStep(side, packet, userAad)));
            if Open(suite, p.state, packet, userAad).1.Err? then w' == w
            else
              && p.state.rxSeq < U64_MAX && Authenticate(suite.aead, p.state, packet, userAad).Ok?
              && var (epoch, plaintext) := Authenticate(suite.aead, p.state, packet, userAad).value;
                 w' == Put(w, side, Receive(suite, p, epoch, packet, plaintext, userAad))
  {
    hide Authenticate, Extend, Ratchet, TagOf, Seal, ExportState, ImportState, Entry;
  }

  lemma OpenKeeps(suite: Suite, keyA: Bytes32, keyB: Bytes32, w: World, side: Side, packet: Packet, userAad: Bytes)
    requires suite.aead.Sound() && Separated(suite.kdf, keyA, keyB) && Inv(suite, keyA, keyB, w)
    requires Allowed(suite, w, OpenStep(side, packet, userAad))
    ensures Inv(suite, keyA, keyB, Next(suite, keyA, keyB, w, OpenStep(side, packet, userAad)))
  {
    hide AadV2, AadV1, Authenticate, Received, Entry, KeyAt, LogInv, SenderInv, SavedInv, Next;
    OpenNext(suite, keyA, keyB, w, side, packet, userAad);
    var p := Get(w, side);
    if Open(suite, p.state, packet, userAad).1.Ok? {
      AcceptedIsNext(suite, keyA, keyB, w, side, packet, userAad);
      hide Open, Allowed, Separated;
      var (epoch, plaintext) := Authenticate(suite.aead, p.state, packet, userAad).value;
      ReceivedKeeps(suite, KeyOf(Other(side), keyA, keyB), KeyOf(side, keyA, keyB), Get(w, Other(side)), p,
                    epoch, packet, plaintext, userAad);
      var p' := Receive(suite, p, epoch, packet, plaintext, userAad);
      NoSnapshot(suite, p');
      hide ReceiverInv;
      SameSentSameLog(suite, keyA, keyB, w, Put(w, side, p'));
    }
  }

  lemma NoSnapshot(suite: Suite, p: Peer)
    requires p.saved.None?
    ensures SavedInv(suite, p)
  {}

  /** The log depends only on what was sent. */
  lemma SameSentSameLog(suite: Suite, keyA: Bytes32, keyB: Bytes32, w: World, w': World)
    requires LogInv(suite, keyA, keyB, w)
    requires w'.a.sent == w.a.sent && w'.b.sent == w.b.sent && w'.log == w.log
    ensures LogInv(suite, keyA, keyB, w')
  {
    hide Entry;
    forall e | e in w'.log ensures LoggedBy(suite, keyA, e, w'.a) || LoggedBy(suite, keyB, e, w'.b) {
      assert LoggedBy(suite, keyA, e, w.a) || LoggedBy(suite, keyB, e, w.b);
    }
  }

  lemma SnapshotKeeps(suite: Suite, keyA: Bytes32, keyB: Bytes32, w: World, step: Step)
    requires suite.aead.Sound() && Inv(suite, keyA, keyB, w)
    requires step.ExportStep? || step.RestoreStep? || step.ResumeStep?
    ensures Inv(suite, keyA, keyB, Next(suite, keyA, keyB, w, step))
  {
    hide Entry, LogInv, SenderInv, ReceiverInv, KeyAt;
    var w' := Next(suite, keyA, keyB, w, step);
    var p, other := Get(w, step.side), Get(w, Other(step.side));
    SnapshotTouches(suite, keyA, keyB, w, step);
    SnapshotSaved(suite, keyA, keyB, w, step);
    UntouchedInv(suite, KeyOf(step.side, keyA, keyB), KeyOf(Other(step.side), keyA, keyB), p, Get(w', step.side),
                 other);
    SameSentSameLog(suite, keyA, keyB, w, w');
    hide Next, SavedInv;
  }

  /** A snapshot step changes the epoch and the acknowledgement flag of one peer, and nothing else. */
  lemma SnapshotTouches(suite: Suite, keyA: Bytes32, keyB: Bytes32, w: World, step: Step)
    requires SavedInv(suite, Get(w, step.side))
    requires step.ExportStep? || step.RestoreStep? || step.ResumeStep?
    ensures var w' := Next(suite, keyA, keyB, w, step);
            var p, p' := Get(w, step.side), Get(w', step.side);
            && p'.sent == p.sent && p'.got == p.got && p'.opens == p.opens
            && p'.state == p.state.(epoch := p'.state.epoch, needsAck := p'.state.needsAck)
            && Get(w', Other(step.side)) == Get(w, Other(step.side)) && w'.log == w.log
  {
    hide ImportState, EncodeState, SnapshotAad;
  }

  lemma SnapshotSaved(suite: Suite, keyA: Bytes32, keyB: Bytes32, w: World, step: Step)
    requires suite.aead.Sound() && SavedInv(suite, Get(w, step.side))
    requires step.ExportStep? || step.RestoreStep? || step.ResumeStep?
    ensures SavedInv(suite, Get(Next(suite, keyA, keyB, w, step), step.side))
  {
    hide ImportState, EncodeState, SnapshotAad;
    var p := Get(w, step.side);
    if step.ExportStep? && ExportState(suite.aead, p.state, step.wrap, step.nonce).1.Ok? {
      ImportOfExport(suite.aead, p.state, step.wrap, step.nonce);
    }
  }

  lemma UntouchedInv(suite: Suite, keyOut: Bytes32, keyIn: Bytes32, p: Peer, p': Peer, other: Peer)
    requires SenderInv(suite, keyOut, p) && ReceiverInv(suite, keyOut, p, other) && ReceiverInv(suite, keyIn, other, p)
    requires p'.sent == p.sent && p'.got == p.got && p'.opens == p.opens
    requires p'.state == p.state.(epoch := p'.state.epoch, needsAck := p'.state.needsAck)
    ensures SenderInv(suite, keyOut, p') && ReceiverInv(suite, keyOut, p', other)
            && ReceiverInv(suite, keyIn, other, p')
  {}

  lemma {:induction false} RunKeeps(suite: Suite, keyA: Bytes32, keyB: Bytes32, w: World, steps: seq<Step>, w': World)
    requires suite.aead.Sound() && Separated(suite.kdf, keyA, keyB) && Inv(suite, keyA, keyB, w)
    requires Run(suite, keyA, keyB, w, steps, w')
    ensures Inv(suite, keyA, keyB, w')
    decreases |steps|
  {
    hide Inv, Next, Allowed, Separated;
    if steps != [] {
      match steps[0] {
        case SealStep(side, nonce, plaintext, userAad) =>
          SealKeeps(suite, keyA, keyB, w, side, nonce, plaintext, userAad);
        case OpenStep(side, packet, userAad) => OpenKeeps(suite, keyA, keyB, w, side, packet, userAad);
        case _ => SnapshotKeeps(suite, keyA, keyB, w, steps[0]);
      }
      RunKeeps(suite, keyA, keyB, Next(suite, keyA, keyB, w, steps[0]), steps[1..], w');
    }
  }

  // --------------------------------------------------------------------------
  // Prefix delivery
  // --------------------------------------------------------------------------

  function Start(suite: Suite, seed: Bytes32, context: Bytes): World {
    World(Peer(Initial(suite.kdf, seed, Initiator, context), [], [], [], None),
          Peer(Initial(suite.kdf, seed, Responder, context), [], [], [], None), {})
  }

  function SeedKey(suite: Suite, seed: Bytes32, context: Bytes, side: Side): Bytes32 {
    Derive(suite.kdf, seed, context, if side == A then "tx-key:a" else "tx-key:b")
  }

  function SeedHash(suite: Suite, seed: Bytes32, context: Bytes, side: Side): Bytes32 {
    Derive(suite.kdf, seed, context, if side == A then "transcript:a" else "transcript:b")
  }

  /** A run from two fresh channels of one seed, whose direction keys stay apart. */
  ghost predicate Session(suite: Suite, seed: Bytes32, context: Bytes, steps: seq<Step>, w: World) {
    var keyA, keyB := SeedKey(suite, seed, context, A), SeedKey(suite, seed, context, B);
    suite.aead.Sound() && Separated(suite.kdf, keyA, keyB)
      && Run(suite, keyA, keyB, Start(suite, seed, context), steps, w)
  }

  lemma SessionInv(suite: Suite, seed: Bytes32, context: Bytes, steps: seq<Step>, w: World)
    requires Session(suite, seed, context, steps, w)
    ensures Inv(suite, SeedKey(suite, seed, context, A), SeedKey(suite, seed, context, B), w)
    ensures suite.aead.Sound()
            && Separated(suite.kdf, SeedKey(suite, seed, context, A), SeedKey(suite, seed, context, B))
  {
    hide Next, Allowed, Separated;
    RunKeeps(suite, SeedKey(suite, seed, context, A), SeedKey(suite, seed, context, B), Start(suite, seed, context),
             steps, w);
  }

  lemma SessionCounts(suite: Suite, seed: Bytes32, context: Bytes, steps: seq<Step>, w: World, side: Side)
    requires Session(suite, seed, context, steps, w)
    ensures var r, s := Get(w, side), Get(w, Other(side));
            r.state.rxSeq == |r.got| == |r.opens| <= |s.sent| == s.state.txSeq
  {
    SessionInv(suite, seed, context, steps, w);
    hide Session, LogInv, SavedInv, KeyAt, Separated, GoodMessage, SeedKey;
  }

  function Plaintexts(sent: seq<Message>): seq<Bytes> {
    seq(|sent|, i requires 0 <= i < |sent| => sent[i].plaintext)
  }

  /** In every session each side has accepted a prefix of what the other sealed, and its
      receiving key is the other's first sending key ratcheted once per accepted packet. */
  lemma PrefixDelivery(suite: Suite, seed: Bytes32, context: Bytes, steps: seq<Step>, w: World, side: Side)
    requires Session(suite, seed, context, steps, w)
    ensures var r, s := Get(w, side), Get(w, Other(side));
            && r.got <= Plaintexts(s.sent)
            && r.state.rxSeq == |r.got| && s.state.txSeq == |s.sent|
            && r.state.rxKey == KeyAt(suite.kdf, SeedKey(suite, seed, context, Other(side)), r.state.rxSeq)
            && s.state.txKey == KeyAt(suite.kdf, SeedKey(suite, seed, context, Other(side)), s.state.txSeq)
  {
    hide KeyAt, LogInv, SavedInv, GoodMessage, Separated, Run;
    SessionInv(suite, seed, context, steps, w);
  }

  // --------------------------------------------------------------------------
  // Transcripts
  // --------------------------------------------------------------------------

  function Links(sent: seq<Message>): (links: seq<Link>)
    ensures |links| == |sent|
  {
    seq(|sent|, i requires 0 <= i < |sent| => LinkOf(sent[i].packet.epoch, sent[i].packet))
  }

  /** The links of the packets accepted, under the epochs they authenticated with. */
  function OpenedLinks(opens: seq<Opened>, sent: seq<Message>): (links: seq<Link>)
    requires |opens| <= |sent|
    ensures |links| == |opens|
  {
    seq(|opens|, i requires 0 <= i < |opens| => LinkOf(opens[i].epoch, sent[i].packet))
  }

  /** Accepted as it was sealed: at its epoch and with its caller's data. */
  predicate Plain(o: Opened, m: Message) {
    SameBound(m.packet.flags, o.userAad, o.epoch, m.userAad, m.packet.epoch)
  }

  /** Accepted under another epoch, with a caller part that encodes alike. */
  predicate Mimicked(o: Opened, m: Message) {
    Confusable(m.packet.flags, o.userAad, o.epoch, m.userAad, m.packet.epoch)
  }

  ghost predicate NoMimicry(opens: seq<Opened>, sent: seq<Message>)
    requires |opens| <= |sent|
  {
    forall i :: 0 <= i < |opens| ==> !Mimicked(opens[i], sent[i])
  }

  ghost predicate Explained(opens: seq<Opened>, sent: seq<Message>) {
    |opens| <= |sent| && forall i :: 0 <= i < |opens| ==> Plain(opens[i], sent[i]) || Mimicked(opens[i], sent[i])
  }

  ghost predicate TranscriptInv(suite: Suite, start: Bytes32, s: Peer, r: Peer) {
    && s.state.txHash == Chain(suite.hash, start, Links(s.sent))
    && Explained(r.opens, s.sent)
    && r.state.rxHash == Chain(suite.hash, start, OpenedLinks(r.opens, s.sent))
  }

  /** The two lists of links agree exactly when no open was mimicked. */
  lemma LinksAgreeIff(opens: seq<Opened>, sent: seq<Message>)
    requires Explained(opens, sent)
    ensures OpenedLinks(opens, sent) == Links(sent[..|opens|]) <==> NoMimicry(opens, sent)
  {
    hide TagOf;
    var xs, ys := OpenedLinks(opens, sent), Links(sent[..|opens|]);
    forall i | 0 <= i < |opens| ensures xs[i] == ys[i] <==> !Mimicked(opens[i], sent[i]) {
      assert Plain(opens[i], sent[i]) || Mimicked(opens[i], sent[i]);
      assert xs[i].epoch == opens[i].epoch && ys[i].epoch == sent[i].packet.epoch;
    }
  }

  lemma LinksGrow(sent: seq<Message>, m: Message)
    ensures Links(sent + [m]) == Links(sent) + [LinkOf(m.packet.epoch, m.packet)]
  {}

  lemma ChainSnoc(hash: Hash, start: Bytes32, links: seq<Link>, link: Link)
    ensures Chain(hash, start, links + [link]) == Extend(hash, Chain(hash, start, links), link)
  {
    assert (links + [link])[..|links|] == links;
  }

  /** The sender once `m` is out. */
  function SentBy(suite: Suite, s: Peer, m: Message): Peer
    requires s.state.txSeq < U64_MAX
  {
    s.(state := Sent(suite, s.state, m.packet), sent := s.sent + [m], saved := None)
  }

  lemma SealTranscript(suite: Suite, start: Bytes32, s: Peer, r: Peer, m: Message)
    requires TranscriptInv(suite, start, s, r) && s.state.txSeq < U64_MAX && m.packet.epoch == s.state.epoch
    ensures TranscriptInv(suite, start, SentBy(suite, s, m), r)
  {
    hide Extend, Ratchet, TagOf, Plain, Mimicked, Chain;
    LinksGrow(s.sent, m);
    ChainSnoc(suite.hash, start, Links(s.sent), LinkOf(m.packet.epoch, m.packet));
    assert OpenedLinks(r.opens, s.sent + [m]) == OpenedLinks(r.opens, s.sent);
  }

  lemma ReceiveTranscript(suite: Suite, start: Bytes32, s: Peer, r: Peer, epoch: u64, packet: Packet,
                          plaintext: Bytes, userAad: Bytes)
    requires TranscriptInv(suite, start, s, r)
    requires |r.opens| < |s.sent| && r.state.rxSeq < U64_MAX
    requires LinkOf(epoch, packet) == LinkOf(epoch, s.sent[|r.opens|].packet)
    requires Plain(Opened(epoch, userAad), s.sent[|r.opens|]) || Mimicked(Opened(epoch, userAad), s.sent[|r.opens|])
    ensures TranscriptInv(suite, start, s, Receive(suite, r, epoch, packet, plaintext, userAad))
  {
    hide Extend, Ratchet, LinkOf, Plain, Mimicked, Chain;
    var opens := r.opens + [Opened(epoch, userAad)];
    ChainSnoc(suite.hash, start, OpenedLinks(r.opens, s.sent), LinkOf(epoch, packet));
    assert OpenedLinks(opens, s.sent) == OpenedLinks(r.opens, s.sent) + [LinkOf(epoch, packet)];
  }

  ghost predicate Transcripts(suite: Suite, startA: Bytes32, startB: Bytes32, w: World) {
    TranscriptInv(suite, startA, w.a, w.b) && TranscriptInv(suite, startB, w.b, w.a)
  }

  /** A change that leaves transcripts and histories alone. */
  lemma UntouchedTranscript(suite: Suite, start: Bytes32, s: Peer, r: Peer, s': Peer, r': Peer)
    requires TranscriptInv(suite, start, s, r)
    requires s'.sent == s.sent && s'.state.txHash == s.state.txHash
    requires r'.opens == r.opens && r'.state.rxHash == r.state.rxHash
    ensures TranscriptInv(suite, start, s', r')
  {}

  lemma SealNext(suite: Suite, keyA: Bytes32, keyB: Bytes32, w: World, side: Side, nonce: Nonce, plaintext: Bytes,
                 userAad: Bytes)
    ensures var (p, w') := (Get(w, side), Next(suite, keyA, keyB, w, SealStep(side, nonce, plaintext, userAad)));
            var r := Seal(suite, p.state, nonce, plaintext, userAad).1;
            if r.Err? then w' == w
            else
              && p.state.txSeq < U64_MAX && r.value.epoch == p.state.epoch
              && Get(w', side) == SentBy(suite, p, Message(r.value, plaintext, userAad))
              && Get(w', Other(side)) == Get(w, Other(side))
  {
    hide AadV2, Extend, Ratchet, TagOf, Open, ExportState, ImportState, Entry;
  }

  lemma SealStepTranscript(suite: Suite, keyA: Bytes32, keyB: Bytes32, startA: Bytes32, startB: Bytes32, w: World,
                           side: Side,
                           nonce: Nonce, plaintext: Bytes, userAad: Bytes)
    requires Transcripts(suite, startA, startB, w)
    ensures Transcripts(suite, startA, startB, Next(suite, keyA, keyB, w, SealStep(side, nonce, plaintext, userAad)))
  {
    hide TranscriptInv, Next, Seal, Extend, Ratchet, LinkOf;
    SealNext(suite, keyA, keyB, w, side, nonce, plaintext, userAad);
    var p, other := Get(w, side), Get(w, Other(side));
    var r := Seal(suite, p.state, nonce, plaintext, userAad).1;
    if r.Ok? {
      var m := Message(r.value, plaintext, userAad);
      SealTranscript(suite, KeyOf(side, startA, startB), p, other, m);
      UntouchedTranscript(suite, KeyOf(Other(side), startA, startB), other, p, other, SentBy(suite, p, m));
    }
  }

  lemma OpenStepTranscript(suite: Suite, keyA: Bytes32, keyB: Bytes32, startA: Bytes32, startB: Bytes32, w: World,
                           side: Side,
                           packet: Packet, userAad: Bytes)
    requires suite.aead.Sound() && Separated(suite.kdf, keyA, keyB) && Inv(suite, keyA, keyB, w)
    requires Allowed(suite, w, OpenStep(side, packet, userAad))
    requires Transcripts(suite, startA, startB, w)
    ensures Transcripts(suite, startA, startB, Next(suite, keyA, keyB, w, OpenStep(side, packet, userAad)))
  {
    hide AadV2, Extend, Ratchet, Separated, Authenticate, Inv, Allowed, TranscriptInv, Next, Open, TagOf, SameBound;
    hide Confusable;
    OpenNext(suite, keyA, keyB, w, side, packet, userAad);
    var p, other := Get(w, side), Get(w, Other(side));
    if Open(suite, p.state, packet, userAad).1.Ok? {
      AcceptedIsNext(suite, keyA, keyB, w, side, packet, userAad);
      var (epoch, plaintext) := Authenticate(suite.aead, p.state, packet, userAad).value;
      NextMessage(suite, keyA, keyB, w, side);
      var m := other.sent[p.state.rxSeq];
      AadV2Agree(packet.flags, packet.sequence, userAad, epoch, m.packet.flags, m.packet.sequence, m.userAad,
                 m.packet.epoch);
      ReceiveTranscript(suite, KeyOf(Other(side), startA, startB), other, p, epoch, packet, plaintext, userAad);
      UntouchedTranscript(suite, KeyOf(side, startA, startB), p, other,
                          Receive(suite, p, epoch, packet, plaintext, userAad), other);
    }
  }

  /** What the invariant says of the message a receiver waits for. */
  lemma NextMessage(suite: Suite, keyA: Bytes32, keyB: Bytes32, w: World, side: Side)
    requires Inv(suite, keyA, keyB, w) && Get(w, side).state.rxSeq < |Get(w, Other(side)).sent|
    ensures var n, m := Get(w, side).state.rxSeq, Get(w, Other(side)).sent[Get(w, side).state.rxSeq];
            && n < U64_MAX && n == |Get(w, side).opens|
            && m.packet.sequence == n && m.packet.version == WIRE_VERSION_V2 && |m.userAad| < U32_LIMIT
            && m.packet.flags == (if m.userAad == [] then 0 else 1)
  {
    hide LogInv, SavedInv, KeyAt;
    assert GoodMessage(Get(w, Other(side)).sent[Get(w, side).state.rxSeq], Get(w, side).state.rxSeq);
  }

  lemma SnapshotTranscript(suite: Suite, keyA: Bytes32, keyB: Bytes32, startA: Bytes32, startB: Bytes32, w: World,
                           step: Step)
    requires SavedInv(suite, w.a) && SavedInv(suite, w.b) && Transcripts(suite, startA, startB, w)
    requires step.ExportStep? || step.RestoreStep? || step.ResumeStep?
    ensures Transcripts(suite, startA, startB, Next(suite, keyA, keyB, w, step))
  {
    hide TranscriptInv;
    var w' := Next(suite, keyA, keyB, w, step);
    var p, other := Get(w, step.side), Get(w, Other(step.side));
    var p' := Get(w', step.side);
    SnapshotTouches(suite, keyA, keyB, w, step);
    hide Next, SavedInv;
    UntouchedTranscript(suite, KeyOf(step.side, startA, startB), p, other, p', other);
    UntouchedTranscript(suite, KeyOf(Other(step.side), startA, startB), other, p, other, p');
  }

  lemma StepTranscript(suite: Suite, keyA: Bytes32, keyB: Bytes32, startA: Bytes32, startB: Bytes32, w: World,
                       step: Step)
    requires suite.aead.Sound() && Separated(suite.kdf, keyA, keyB) && Inv(suite, keyA, keyB, w)
    requires Allowed(suite, w, step)
    requires Transcripts(suite, startA, startB, w)
    ensures Transcripts(suite, startA, startB, Next(suite, keyA, keyB, w, step))
  {
    match step {
      case SealStep(side, nonce, plaintext, userAad) =>
        hide Next, Transcripts, Allowed, Inv, Separated;
        SealStepTranscript(suite, keyA, keyB, startA, startB, w, side, nonce, plaintext, userAad);
      case OpenStep(side, packet, userAad) =>
        hide Next, Transcripts, Allowed, Inv, Separated;
        OpenStepTranscript(suite, keyA, keyB, startA, startB, w, side, packet, userAad);
      case _ =>
        assert SavedInv(suite, w.a) && SavedInv(suite, w.b);
        hide Next, Transcripts, Allowed, Inv, Separated, SavedInv;
        SnapshotTranscript(suite, keyA, keyB, startA, startB, w, step);
    }
  }

  lemma {:induction false} RunTranscript(suite: Suite, keyA: Bytes32, keyB: Bytes32, startA: Bytes32, startB: Bytes32,
                                         w: World, steps: seq<Step>, w': World)
    requires suite.aead.Sound() && Separated(suite.kdf, keyA, keyB) && Inv(suite, keyA, keyB, w)
    requires Run(suite, keyA, keyB, w, steps, w')
    requires Transcripts(suite, startA, startB, w)
    ensures Transcripts(suite, startA, startB, w')
    decreases |steps|
  {
    hide Inv, Next, Allowed, Separated, Transcripts;
    if steps != [] {
      var w1 := Next(suite, keyA, keyB, w, steps[0]);
      StepTranscript(suite, keyA, keyB, startA, startB, w, steps[0]);
      OneStep(suite, keyA, keyB, w, steps[0]);
      RunKeeps(suite, keyA, keyB, w, [steps[0]], w1);
      RunTranscript(suite, keyA, keyB, startA, startB, w1, steps[1..], w');
    }
  }

  lemma OneStep(suite: Suite, keyA: Bytes32, keyB: Bytes32, w: World, step: Step)
    requires Allowed(suite, w, step)
    ensures Run(suite, keyA, keyB, w, [step], Next(suite, keyA, keyB, w, step))
  {
    hide Next, Allowed;
    assert [step][1..] == [];
    assert Run(suite, keyA, keyB, Next(suite, keyA, keyB, w, step), [], Next(suite, keyA, keyB, w, step));
  }

  lemma TranscriptInvOf(suite: Suite, seed: Bytes32, context: Bytes, steps: seq<Step>, w: World, side: Side)
    requires Session(suite, seed, context, steps, w)
    ensures TranscriptInv(suite, SeedHash(suite, seed, context, Other(side)), Get(w, Other(side)), Get(w, side))
  {
    var keyA, keyB := SeedKey(suite, seed, context, A), SeedKey(suite, seed, context, B);
    RunKeeps(suite, keyA, keyB, Start(suite, seed, context), [], Start(suite, seed, context));
    RunTranscript(suite, keyA, keyB, SeedHash(suite, seed, context, A), SeedHash(suite, seed, context, B),
                  Start(suite, seed, context), steps, w);
  }

  /** In every session the sending transcript is the hash chain over all packets sealed, the receiving one that
      over the first `rxSeq` of them under the epochs they authenticated with, and these are the sealing
      epochs exactly when no accepted open was mimicked. */
  lemma TranscriptAgreement(suite: Suite, seed: Bytes32, context: Bytes, steps: seq<Step>, w: World, side: Side)
    requires Session(suite, seed, context, steps, w)
    ensures var r, s := Get(w, side), Get(w, Other(side));
            var start := SeedHash(suite, seed, context, Other(side));
            && |r.opens| == r.state.rxSeq <= |s.sent| == s.state.txSeq
            && s.state.txHash == Chain(suite.hash, start, Links(s.sent))
            && r.state.rxHash == Chain(suite.hash, start, OpenedLinks(r.opens, s.sent))
            && (OpenedLinks(r.opens, s.sent) == Links(s.sent[..r.state.rxSeq]) <==> NoMimicry(r.opens, s.sent))
            && (NoMimicry(r.opens, s.sent) && r.state.rxSeq == s.state.txSeq ==> r.state.rxHash == s.state.txHash)
  {
    SessionCounts(suite, seed, context, steps, w, side);
    TranscriptInvOf(suite, seed, context, steps, w, side);
    hide Session, Chain, Links, OpenedLinks, SeedHash, NoMimicry, Explained;
    var r, s := Get(w, side), Get(w, Other(side));
    LinksAgreeIff(r.opens, s.sent);
    assert r.state.rxSeq == |s.sent| ==> s.sent[..r.state.rxSeq] == s.sent;
  }

  /** Inputs on which the hash neither collides nor returns to the start of the chain. */
  ghost predicate ChainsApart(hash: Hash, start: Bytes32, xs: seq<Link>, ys: seq<Link>) {
    var used := ChainInputs(hash, start, xs) + ChainInputs(hash, start, ys);
    CollisionFree(hash, used) && forall i :: i in used ==> hash(i) != start
  }

  /** Unless the hash fails, the receiving transcript is that of the packets as they were sealed exactly when
      no accepted open was mimicked. */
  lemma TranscriptAgreementIff(suite: Suite, seed: Bytes32, context: Bytes, steps: seq<Step>, w: World, side: Side)
    requires Session(suite, seed, context, steps, w)
    requires var r, s := Get(w, side), Get(w, Other(side));
             && |r.opens| == r.state.rxSeq <= |s.sent|
             && ChainsApart(suite.hash, SeedHash(suite, seed, context, Other(side)),
                            OpenedLinks(r.opens, s.sent), Links(s.sent[..r.state.rxSeq]))
    ensures var r, s := Get(w, side), Get(w, Other(side));
            r.state.rxHash == Chain(suite.hash, SeedHash(suite, seed, context, Other(side)),
                                    Links(s.sent[..r.state.rxSeq]))
            <==> NoMimicry(r.opens, s.sent)
  {
    TranscriptAgreement(suite, seed, context, steps, w, side);
    hide Session, Chain, ChainInputs, Links, OpenedLinks, NoMimicry, SeedHash, CollisionFree;
    var r, s := Get(w, side), Get(w, Other(side));
    var start := SeedHash(suite, seed, context, Other(side));
    if r.state.rxHash == Chain(suite.hash, start, Links(s.sent[..r.state.rxSeq])) {
      EqualTranscripts(suite.hash, start, OpenedLinks(r.opens, s.sent), Links(s.sent[..r.state.rxSeq]));
    }
  }

  /** Equal transcripts prove complete delivery under the sealing epochs, unless the hash fails. */
  lemma EqualTranscriptsMeanDelivered(suite: Suite, seed: Bytes32, context: Bytes, steps: seq<Step>, w: World,
                                      side: Side)
    requires Session(suite, seed, context, steps, w)
    requires var r, s := Get(w, side), Get(w, Other(side));
             && |r.opens| <= |s.sent| && r.state.rxHash == s.state.txHash
             && ChainsApart(suite.hash, SeedHash(suite, seed, context, Other(side)), OpenedLinks(r.opens, s.sent),
                            Links(s.sent))
    ensures var r, s := Get(w, side), Get(w, Other(side));
            && r.state.rxSeq == s.state.txSeq && r.got == Plaintexts(s.sent)
            && |r.opens| == |s.sent| && NoMimicry(r.opens, s.sent)
  {
    hide KeyAt, ChainInputs, Chain, Links, OpenedLinks, NoMimicry, CollisionFree, SeedHash, SeedKey, Separated, Run;
    TranscriptAgreement(suite, seed, context, steps, w, side);
    PrefixDelivery(suite, seed, context, steps, w, side);
    hide Session;
    var r, s := Get(w, side), Get(w, Other(side));
    EqualTranscripts(suite.hash, SeedHash(suite, seed, context, Other(side)), OpenedLinks(r.opens, s.sent),
                     Links(s.sent));
    assert s.sent[..r.state.rxSeq] == s.sent;
  }

  // --------------------------------------------------------------------------
  // Epochs
  // --------------------------------------------------------------------------

  /** Opened under `epoch` with `userAad`, the message decrypts. */
  predicate Fits(m: Message, userAad: Bytes, epoch: u64) {
    Plain(Opened(epoch, userAad), m) || Mimicked(Opened(epoch, userAad), m)
  }

  /** What becomes of the next packet in order: it is opened under the receiver's epoch if it fits that one,
      else under the one after if it fits that, and is refused otherwise. */
  ghost predicate Verdict(r: Peer, m: Message, userAad: Bytes, state: State, result: Result<Bytes>) {
    if |userAad| >= U32_LIMIT then result == Err(AadDemasiadoLargo)
    else if Fits(m, userAad, r.state.epoch) then result == Ok(m.plaintext) && state.epoch == r.state.epoch
    else if r.state.epoch < U64_MAX && Fits(m, userAad, r.state.epoch + 1)
    then result == Ok(m.plaintext) && state.epoch == r.state.epoch + 1
    else result == Err(Autenticacion)
  }

  /** The next packet in order is accepted exactly when caller part and epoch fit at the receiver's epoch or the
      one after. Without a caller part it carries flags 0 and that means: sealed at one of the two epochs, whatever
      its opener supplies. With one it carries flags 1 and, away from the critical length, opens with that one only. */
  lemma EpochAcceptance(suite: Suite, seed: Bytes32, context: Bytes, steps: seq<Step>, w: World, side: Side,
                        userAad: Bytes)
    requires Session(suite, seed, context, steps, w)
    requires var r, s := Get(w, side), Get(w, Other(side));
             && r.state.rxSeq < |s.sent| && !r.state.needsAck
             && Allowed(suite, w, OpenStep(side, s.sent[r.state.rxSeq].packet, userAad))
    ensures var r, m := Get(w, side), Get(w, Other(side)).sent[Get(w, side).state.rxSeq];
            var (state, result) := Open(suite, r.state, m.packet, userAad);
            && m.packet.flags == (if m.userAad == [] then 0 else 1)
            && Verdict(r, m, userAad, state, result)
            && (|userAad| < U32_LIMIT && Unambiguous(m, userAad) ==>
                  (result.Ok? <==> && (m.packet.epoch == r.state.epoch || m.packet.epoch == r.state.epoch + 1)
                                   && (m.userAad == [] || userAad == m.userAad))
                  && (result.Ok? ==> result.value == m.plaintext && state.epoch == m.packet.epoch))
  {
    SessionInv(suite, seed, context, steps, w);
    hide Session, Separated, Allowed, Inv, Open, SeedKey;
    OpenOfNext(suite, SeedKey(suite, seed, context, A), SeedKey(suite, seed, context, B), w, side, userAad);
    var r, m := Get(w, side), Get(w, Other(side)).sent[Get(w, side).state.rxSeq];
    var (state, result) := Open(suite, r.state, m.packet, userAad);
    NextMessage(suite, SeedKey(suite, seed, context, A), SeedKey(suite, seed, context, B), w, side);
    if |userAad| < U32_LIMIT && Unambiguous(m, userAad) {
      PlainVerdict(r, m, userAad, state, result);
    }
    hide Verdict, Fits;
  }

  /** No caller part is involved, or none of the one critical length. */
  predicate Unambiguous(m: Message, userAad: Bytes) {
    m.userAad == [] || (|userAad| != EPOC && |m.userAad| != EPOC)
  }

  lemma PlainVerdict(r: Peer, m: Message, userAad: Bytes, state: State, result: Result<Bytes>)
    requires Verdict(r, m, userAad, state, result)
    requires |userAad| < U32_LIMIT && Unambiguous(m, userAad) && m.packet.flags == (if m.userAad == [] then 0 else 1)
    ensures result.Ok? <==> && (m.packet.epoch == r.state.epoch || m.packet.epoch == r.state.epoch + 1)
                            && (m.userAad == [] || userAad == m.userAad)
    ensures result.Ok? ==> result.value == m.plaintext && state.epoch == m.packet.epoch
  {
    hide AfterEpoc;
  }

  lemma OpenOfNext(suite: Suite, keyA: Bytes32, keyB: Bytes32, w: World, side: Side, userAad: Bytes)
    requires suite.aead.Sound() && Separated(suite.kdf, keyA, keyB) && Inv(suite, keyA, keyB, w)
    requires var r, s := Get(w, side), Get(w, Other(side));
             && r.state.rxSeq < |s.sent| && !r.state.needsAck
             && Allowed(suite, w, OpenStep(side, s.sent[r.state.rxSeq].packet, userAad))
    ensures var r, m := Get(w, side), Get(w, Other(side)).sent[Get(w, side).state.rxSeq];
            var (state, result) := Open(suite, r.state, m.packet, userAad);
            Verdict(r, m, userAad, state, result)
  {
    hide Inv, Separated, Allowed, AadV2, AadV1, Fits, Extend, Ratchet, TagOf;
    var r := Get(w, side);
    NextMessage(suite, keyA, keyB, w, side);
    if |userAad| < U32_LIMIT {
      CandidateDecrypts(suite, keyA, keyB, w, side, userAad, r.state.epoch);
      CandidateDecrypts(suite, keyA, keyB, w, side, userAad, NextEpoch(r.state.epoch));
    }
  }

  /** One epoch candidate decrypts the next packet exactly when it fits. */
  lemma CandidateDecrypts(suite: Suite, keyA: Bytes32, keyB: Bytes32, w: World, side: Side, userAad: Bytes, epoch: u64)
    requires suite.aead.Sound() && Separated(suite.kdf, keyA, keyB) && Inv(suite, keyA, keyB, w)
    requires Get(w, side).state.rxSeq < |Get(w, Other(side)).sent| && |userAad| < U32_LIMIT
    requires Allowed(suite, w, OpenStep(side, Get(w, Other(side)).sent[Get(w, side).state.rxSeq].packet, userAad))
    requires epoch == Get(w, side).state.epoch || epoch == NextEpoch(Get(w, side).state.epoch)
    ensures var r, m := Get(w, side), Get(w, Other(side)).sent[Get(w, side).state.rxSeq];
            suite.aead.dec(r.state.rxKey, m.packet.nonce,
                           AadV2(m.packet.flags, m.packet.sequence, userAad, epoch).value, m.packet.ciphertext)
            == if Fits(m, userAad, epoch) then Some(m.plaintext) else None
  {
    hide AadV2, KeyAt, SameBound, Confusable, Inv, Separated;
    NextMessage(suite, keyA, keyB, w, side);
    var r, m := Get(w, side), Get(w, Other(side)).sent[Get(w, side).state.rxSeq];
    var p := m.packet;
    var aad := AadV2(p.flags, p.sequence, userAad, epoch).value;
    AadV2Agree(p.flags, p.sequence, userAad, epoch, p.flags, p.sequence, m.userAad, p.epoch);
    if Fits(m, userAad, epoch) {
      NextDecrypts(suite, keyA, keyB, w, side);
    } else if suite.aead.dec(r.state.rxKey, p.nonce, aad, p.ciphertext).Some? {
      assert Tried(r.state, p, userAad, aad);
      var message :| Sealing(r.state.rxKey, p.nonce, aad, message, p.ciphertext) in w.log;
      EntryPinned(suite, keyA, keyB, w, side, Sealing(r.state.rxKey, p.nonce, aad, message, p.ciphertext), p.flags,
                  userAad, epoch);
    }
  }

  /** Under what it was sealed with, the next packet decrypts. */
  lemma NextDecrypts(suite: Suite, keyA: Bytes32, keyB: Bytes32, w: World, side: Side)
    requires suite.aead.Sound() && Inv(suite, keyA, keyB, w)
    requires Get(w, side).state.rxSeq < |Get(w, Other(side)).sent|
    ensures var r, m := Get(w, side), Get(w, Other(side)).sent[Get(w, side).state.rxSeq];
            && |m.userAad| < U32_LIMIT
            && suite.aead.dec(r.state.rxKey, m.packet.nonce,
                              AadV2(m.packet.flags, m.packet.sequence, m.userAad, m.packet.epoch).value,
                              m.packet.ciphertext)
               == Some(m.plaintext)
  {
    hide KeyAt, AadV2, SavedInv, LoggedBy, FlagsFor;
    var r, s := Get(w, side), Get(w, Other(side));
    var m := s.sent[r.state.rxSeq];
    var e := Entry(suite.kdf, KeyOf(Other(side), keyA, keyB), m);
    assert GoodMessage(m, r.state.rxSeq);
    assert e in w.log;
    assert suite.aead.enc(e.key, e.nonce, e.aad, e.message) == Some(e.ciphertext);
  }

  /** Any packet but the next one is refused, changes nothing, and gets this error. */
  lemma StrangerRefused(suite: Suite, seed: Bytes32, context: Bytes, steps: seq<Step>, w: World, side: Side, p: Packet,
                        userAad: Bytes)
    requires Session(suite, seed, context, steps, w) && Allowed(suite, w, OpenStep(side, p, userAad))
    requires var n, sent := Get(w, side).state.rxSeq, Get(w, Other(side)).sent;
             n < |sent| ==> !SameOnWire(p, sent[n].packet)
    ensures var s := Get(w, side).state;
            Open(suite, s, p, userAad) ==
            (s, Err(if s.needsAck then EstadoSinReanudar
                    else if p.sequence != s.rxSeq || s.rxSeq == U64_MAX then Autenticacion
                    else if p.version == WIRE_VERSION_V1 then Autenticacion
                    else if p.version != WIRE_VERSION_V2 then VersionNoSoportada(p.version)
                    else if |userAad| >= U32_LIMIT then AadDemasiadoLargo
                    else Autenticacion))
  {
    SessionInv(suite, seed, context, steps, w);
    var keyA, keyB := SeedKey(suite, seed, context, A), SeedKey(suite, seed, context, B);
    hide Session, Separated, Inv, Allowed, SeedKey, AadV1, AadV2, Extend, Ratchet, TagOf;
    var s, sent := Get(w, side).state, Get(w, Other(side)).sent;
    if Open(suite, s, p, userAad).1.Ok? {
      AcceptedOnWire(suite, keyA, keyB, w, side, p, userAad);
    }
  }

  lemma AcceptedOnWire(suite: Suite, keyA: Bytes32, keyB: Bytes32, w: World, side: Side, p: Packet, userAad: Bytes)
    requires suite.aead.Sound() && Separated(suite.kdf, keyA, keyB) && Inv(suite, keyA, keyB, w)
    requires Allowed(suite, w, OpenStep(side, p, userAad)) && Open(suite, Get(w, side).state, p, userAad).1.Ok?
    ensures var n, sent := Get(w, side).state.rxSeq, Get(w, Other(side)).sent;
            n < |sent| && SameOnWire(p, sent[n].packet)
  {
    hide AadV2, Inv, Separated, Allowed, Open, Authenticate;
    AcceptedIsNext(suite, keyA, keyB, w, side, p, userAad);
    NextMessage(suite, keyA, keyB, w, side);
    var m := Get(w, Other(side)).sent[Get(w, side).state.rxSeq];
    var epoch := Authenticate(suite.aead, Get(w, side).state, p, userAad).value.0;
    AadV2Header(p.flags, p.sequence, userAad, epoch, m.packet.flags, m.packet.sequence, m.userAad, m.packet.epoch);
  }

  // --------------------------------------------------------------------------
  // One key per packet
  // --------------------------------------------------------------------------

  /** Each packet of a direction is sealed under the key its position gives, and unless HKDF fails on the keys used,
      no two of them are sealed under one key. */
  lemma NoKeyReused(suite: Suite, seed: Bytes32, context: Bytes, steps: seq<Step>, w: World, side: Side, i: nat, j: nat)
    requires Session(suite, seed, context, steps, w) && i < j < |Get(w, side).sent|
    requires RatchetsApart(suite.kdf, SeedKey(suite, seed, context, side), |Get(w, side).sent|)
    ensures var key := SeedKey(suite, seed, context, side);
            && SealedWith(suite, Get(w, side).sent[i], KeyAt(suite.kdf, key, i))
            && SealedWith(suite, Get(w, side).sent[j], KeyAt(suite.kdf, key, j))
            && KeyAt(suite.kdf, key, i) != KeyAt(suite.kdf, key, j)
  {
    SessionInv(suite, seed, context, steps, w);
    hide Session, Separated, Inv, SeedKey, RatchetsApart, KeyAt, SealedWith;
    var keyA, keyB := SeedKey(suite, seed, context, A), SeedKey(suite, seed, context, B);
    SealedAtPosition(suite, keyA, keyB, w, side, i);
    SealedAtPosition(suite, keyA, keyB, w, side, j);
    KeysDistinct(suite.kdf, SeedKey(suite, seed, context, side), |Get(w, side).sent|, i, j);
  }

  /** The packet is the encryption of its message under `key` and the data it binds. */
  ghost predicate SealedWith(suite: Suite, m: Message, key: Bytes32) {
    var aad := AadV2(m.packet.flags, m.packet.sequence, m.userAad, m.packet.epoch);
    aad.Ok? && suite.aead.enc(key, m.packet.nonce, aad.value, m.plaintext) == Some(m.packet.ciphertext)
  }

  lemma SealedAtPosition(suite: Suite, keyA: Bytes32, keyB: Bytes32, w: World, side: Side, i: nat)
    requires Inv(suite, keyA, keyB, w) && i < |Get(w, side).sent|
    ensures Get(w, side).sent[i].packet.sequence == i
    ensures SealedWith(suite, Get(w, side).sent[i], KeyAt(suite.kdf, KeyOf(side, keyA, keyB), i))
  {
    hide KeyAt, AadV2, SavedInv, ReceiverInv, LoggedBy, FlagsFor;
    var m := Get(w, side).sent[i];
    assert GoodMessage(m, i);
    var e := Entry(suite.kdf, KeyOf(side, keyA, keyB), m);
    assert e in w.log;
    assert suite.aead.enc(e.key, e.nonce, e.aad, e.message) == Some(e.ciphertext);
  }

  // --------------------------------------------------------------------------
  // A run with mimicry
  // --------------------------------------------------------------------------

  /** A seals one packet at epoch 0 for a caller part of the critical length, and B's caller, who supplies
      `short` instead, opens it. */
  function MimickedSteps(nonce: Nonce, plaintext: Bytes, short: Bytes, packet: Packet): seq<Step>
    requires |short| < U32_LIMIT
  {
    [SealStep(A, nonce, plaintext, AfterEpoc(short, 1)), OpenStep(B, packet, short)]
  }

  /** In every such session B accepts the message with the wrong caller part, under an epoch A has never been at,
      and the transcripts part. */
  lemma MimickedRun(suite: Suite, seed: Bytes32, context: Bytes, nonce: Nonce, plaintext: Bytes, short: Bytes,
                    packet: Packet, w: World)
    requires |short| == EPOC - 13
    requires Seal(suite, Initial(suite.kdf, seed, Initiator, context), nonce, plaintext, AfterEpoc(short, 1)).1
             == Ok(packet)
    requires Session(suite, seed, context, MimickedSteps(nonce, plaintext, short, packet), w)
    ensures short != AfterEpoc(short, 1) && w.b.got == [plaintext]
    ensures w.a.state.epoch == 0 && w.b.state.epoch == 1
    ensures w.a.state.txSeq == w.b.state.rxSeq == 1 && w.b.opens == [Opened(1, short)]
    ensures var start := SeedHash(suite, seed, context, A);
            var asSealed := TranscriptInput(start, LinkOf(0, packet));
            var asOpened := TranscriptInput(start, LinkOf(1, packet));
            && w.a.state.txHash == suite.hash(asSealed) && w.b.state.rxHash == suite.hash(asOpened)
            && (CollisionFree(suite.hash, {asSealed, asOpened}) ==> w.b.state.rxHash != w.a.state.txHash)
  {
    var w1 := MimickedSeal(suite, seed, context, nonce, plaintext, short, packet, w);
    var keyA, keyB := SeedKey(suite, seed, context, A), SeedKey(suite, seed, context, B);
    hide Run, Separated, Session, Next, Seal, Ratchet, TagOf, Open, Allowed, TranscriptInput, Initial, SeedKey;
    OpenNext(suite, keyA, keyB, w1, B, packet, short);
    FitsOnlyOne(Message(packet, plaintext, AfterEpoc(short, 1)), short);
    hide AfterEpoc, Fits;
    MimickedOpen(suite, seed, context, nonce, plaintext, short, packet, w1);
    OpenedEpoch(suite, w1.b.state, packet, short);
    DifferentLinks(SeedHash(suite, seed, context, A), packet);
  }

  lemma MimickedOpen(suite: Suite, seed: Bytes32, context: Bytes, nonce: Nonce, plaintext: Bytes, short: Bytes,
                     packet: Packet, w1: World)
    requires |short| == EPOC - 13 && packet.flags == FlagsFor(AfterEpoc(short, 1)) && packet.epoch == 0
    requires Session(suite, seed, context, [SealStep(A, nonce, plaintext, AfterEpoc(short, 1))], w1)
    requires Allowed(suite, w1, OpenStep(B, packet, short))
    requires w1.a.sent == [Message(packet, plaintext, AfterEpoc(short, 1))]
    requires w1.b.state.rxSeq == 0 && w1.b.state.epoch == 0 && !w1.b.state.needsAck
    ensures var (state, result) := Open(suite, w1.b.state, packet, short);
            result == Ok(plaintext) && state.epoch == 1
  {
    hide Session, Open, Allowed;
    FitsOnlyOne(Message(packet, plaintext, AfterEpoc(short, 1)), short);
    hide AfterEpoc, Fits;
    EpochAcceptance(suite, seed, context, [SealStep(A, nonce, plaintext, AfterEpoc(short, 1))], w1, B, short);
  }

  lemma MimickedSeal(suite: Suite, seed: Bytes32, context: Bytes, nonce: Nonce, plaintext: Bytes, short: Bytes,
                     packet: Packet, w: World)
    returns (w1: World)
    requires |short| == EPOC - 13
    requires Seal(suite, Initial(suite.kdf, seed, Initiator, context), nonce, plaintext, AfterEpoc(short, 1)).1
             == Ok(packet)
    requires Session(suite, seed, context, MimickedSteps(nonce, plaintext, short, packet), w)
    ensures Session(suite, seed, context, [SealStep(A, nonce, plaintext, AfterEpoc(short, 1))], w1)
    ensures Allowed(suite, w1, OpenStep(B, packet, short))
    ensures w == Next(suite, SeedKey(suite, seed, context, A), SeedKey(suite, seed, context, B), w1,
                      OpenStep(B, packet, short))
    ensures w1.a.sent == [Message(packet, plaintext, AfterEpoc(short, 1))] && w1.a.state.txSeq == 1
    ensures w1.a.state.epoch == packet.epoch == 0 && packet.flags == FlagsFor(AfterEpoc(short, 1))
    ensures w1.a.state.txHash == suite.hash(TranscriptInput(SeedHash(suite, seed, context, A), LinkOf(0, packet)))
    ensures w1.b == Start(suite, seed, context).b
    ensures w1.b.state.rxHash == SeedHash(suite, seed, context, A) && w1.b.state.rxSeq == 0 && w1.b.state.epoch == 0
    ensures !w1.b.state.needsAck && w1.b.got == [] && w1.b.opens == []
  {
    hide Derive, Separated, Seal, Next, AfterEpoc, Allowed, Ratchet, TagOf, TranscriptInput;
    var keyA, keyB := SeedKey(suite, seed, context, A), SeedKey(suite, seed, context, B);
    var start, steps := Start(suite, seed, context), MimickedSteps(nonce, plaintext, short, packet);
    w1 := Next(suite, keyA, keyB, start, steps[0]);
    TwoSteps(suite, keyA, keyB, start, steps[0], steps[1], w);
    OneStep(suite, keyA, keyB, start, steps[0]);
    SealNext(suite, keyA, keyB, start, A, nonce, plaintext, AfterEpoc(short, 1));
    SealedFlags(suite, start.a.state, nonce, plaintext, AfterEpoc(short, 1));
    hide Run;
  }

  lemma TwoSteps(suite: Suite, keyA: Bytes32, keyB: Bytes32, w: World, first: Step, second: Step, w': World)
    requires Run(suite, keyA, keyB, w, [first, second], w')
    ensures var w1 := Next(suite, keyA, keyB, w, first);
            Allowed(suite, w, first) && Allowed(suite, w1, second) && w' == Next(suite, keyA, keyB, w1, second)
  {
    hide Next, Allowed;
    var w1 := Next(suite, keyA, keyB, w, first);
    assert [first, second][1..] == [second] && [second][1..] == [];
    assert Run(suite, keyA, keyB, w1, [second], w');
    assert Run(suite, keyA, keyB, Next(suite, keyA, keyB, w1, second), [], w');
  }

  /** Such sessions exist: with a sound cipher that opens this one packet only, and keys that never meet. */
  lemma MimickedRunExists(hash: Hash, plaintext: Bytes)
    returns (suite: Suite, seed: Bytes32, context: Bytes, nonce: Nonce, short: Bytes, packet: Packet, w: World)
    ensures suite.hash == hash && |short| == EPOC - 13
    ensures Seal(suite, Initial(suite.kdf, seed, Initiator, context), nonce, plaintext, AfterEpoc(short, 1)).1
            == Ok(packet)
    ensures Session(suite, seed, context, MimickedSteps(nonce, plaintext, short, packet), w)
  {
    var kdf := ApartKdf();
    seed, context, nonce, short := ZERO32, [], Zeros(12), Zeros(EPOC - 13);
    var long := AfterEpoc(short, 1);
    assert |long| == EPOC;
    hide AfterEpoc;
    var keyA, keyB := Derive(kdf, seed, context, "tx-key:a"), Derive(kdf, seed, context, "tx-key:b");
    KeysStay(kdf, keyA, keyB);
    hide Derive;
    var aad := AadV2(FLAG_AAD_PRESENT, 0, long, 0).value;
    suite := Suite(OnlyOne(keyA, nonce, aad, plaintext), kdf, hash);
    var start := Start(suite, seed, context);
    packet := Packet(WIRE_VERSION_V2, FLAG_AAD_PRESENT, 0, 0, 0, 0, nonce, plaintext + Zeros(TAG_LEN));
    SealsOnly(suite, start.a.state, nonce, plaintext, long);
    hide AadV1, AadV2, Next, Seal, ApartKdf;
    hide OnlyOne, Initial, Separated;
    var w1 := Next(suite, keyA, keyB, start, SealStep(A, nonce, plaintext, long));
    FirstLogged(suite, keyA, keyB, start, nonce, plaintext, long);
    OnlyOneIsSafe(keyA, nonce, aad, plaintext, w1.log);
    hide Unforgeable;
    assert Allowed(suite, w1, OpenStep(B, packet, short));
    w := TwoStepSession(suite, seed, context, SealStep(A, nonce, plaintext, long), OpenStep(B, packet, short));
  }

  lemma TwoStepSession(suite: Suite, seed: Bytes32, context: Bytes, first: Step, second: Step) returns (w: World)
    requires var keyA, keyB := SeedKey(suite, seed, context, A), SeedKey(suite, seed, context, B);
             && suite.aead.Sound() && Separated(suite.kdf, keyA, keyB)
             && Allowed(suite, Start(suite, seed, context), first)
             && Allowed(suite, Next(suite, keyA, keyB, Start(suite, seed, context), first), second)
    ensures Session(suite, seed, context, [first, second], w)
  {
    hide Next, Allowed, Separated, SeedKey, Start;
    var keyA, keyB := SeedKey(suite, seed, context, A), SeedKey(suite, seed, context, B);
    var w1 := Next(suite, keyA, keyB, Start(suite, seed, context), first);
    w := Next(suite, keyA, keyB, w1, second);
    OneStep(suite, keyA, keyB, w1, second);
    assert [first, second][1..] == [second];
  }

  lemma OnlyOneIsSafe(key: Bytes32, nonce: Nonce, aad: Bytes, message: Bytes, log: set<Sealing>)
    requires Sealing(key, nonce, aad, message, message + Zeros(TAG_LEN)) in log
    ensures OnlyOne(key, nonce, aad, message).Sound()
    ensures forall k, n, a, c :: Unforgeable(OnlyOne(key, nonce, aad, message), log, k, n, a, c)
  {}

  /** A cipher that knows one message. */
  function OnlyOne(key: Bytes32, nonce: Nonce, aad: Bytes, message: Bytes): Aead {
    Aead((k, n, a, m) => if k == key && n == nonce && a == aad && m == message then Some(m + Zeros(TAG_LEN)) else None,
         (k, n, a, c) =>
           if k == key && n == nonce && a == aad && c == message + Zeros(TAG_LEN) then Some(message) else None)
  }

  /** A derivation that tells the directions apart and never ratchets. */
  function ApartKdf(): Kdf {
    (salt: Bytes, ikm: Bytes, info: Bytes) =>
      if info == Ascii("ratchet-key:v1") && |ikm| == 32 then ikm
      else if info == Ascii("tx-key:b") then [1] + Zeros(31)
      else ZERO32
  }

  lemma KeysStay(kdf: Kdf, keyA: Bytes32, keyB: Bytes32)
    requires kdf == ApartKdf()
    requires keyA == Derive(kdf, ZERO32, [], "tx-key:a") && keyB == Derive(kdf, ZERO32, [], "tx-key:b")
    ensures Separated(kdf, keyA, keyB)
  {
    assert Ascii("tx-key:a")[7] != Ascii("tx-key:b")[7];
    assert |Ascii("ratchet-key:v1")| == 14 && |Ascii("tx-key:a")| == |Ascii("tx-key:b")| == 8;
    assert keyA[0] != keyB[0];
    forall n: nat ensures KeyAt(kdf, keyA, n) != KeyAt(kdf, keyB, n) {
      KeyStays(kdf, keyA, n);
      KeyStays(kdf, keyB, n);
    }
  }

  lemma {:induction false} KeyStays(kdf: Kdf, key: Bytes32, n: nat)
    requires kdf == ApartKdf()
    ensures KeyAt(kdf, key, n) == key
  {
    if n > 0 {
      KeyStays(kdf, key, n - 1);
    }
  }

  lemma SealsOnly(suite: Suite, s: State, nonce: Nonce, plaintext: Bytes, userAad: Bytes)
    requires s.txSeq == s.epoch == 0 && !s.needsAck && userAad != [] && |userAad| < U32_LIMIT
    requires suite.aead == OnlyOne(s.txKey, nonce, AadV2(FLAG_AAD_PRESENT, 0, userAad, 0).value, plaintext)
    ensures Seal(suite, s, nonce, plaintext, userAad).1 ==
            Ok(Packet(WIRE_VERSION_V2, FLAG_AAD_PRESENT, 0, 0, 0, 0, nonce, plaintext + Zeros(TAG_LEN)))
  {
    hide AadV2, Extend, Ratchet, TagOf;
  }

  lemma FirstLogged(suite: Suite, keyA: Bytes32, keyB: Bytes32, w: World, nonce: Nonce, plaintext: Bytes,
                    userAad: Bytes)
    requires Seal(suite, w.a.state, nonce, plaintext, userAad).1.Ok?
    ensures var p := Seal(suite, w.a.state, nonce, plaintext, userAad).1.value;
            var w' := Next(suite, keyA, keyB, w, SealStep(A, nonce, plaintext, userAad));
            w'.b == w.b && w'.log == w.log + {Entry(suite.kdf, keyA, Message(p, plaintext, userAad))}
  {
    hide Seal, Entry;
  }

  lemma SealedFlags(suite: Suite, s: State, nonce: Nonce, plaintext: Bytes, userAad: Bytes)
    requires Seal(suite, s, nonce, plaintext, userAad).1.Ok?
    ensures Seal(suite, s, nonce, plaintext, userAad).1.value.flags == (if userAad == [] then 0 else 1)
    ensures Seal(suite, s, nonce, plaintext, userAad).1.value.epoch == s.epoch
  {
    hide AadV2, Extend, Ratchet, TagOf;
  }

  lemma OpenedEpoch(suite: Suite, s: State, p: Packet, userAad: Bytes)
    requires Open(suite, s, p, userAad).1.Ok?
    ensures Authenticate(suite.aead, s, p, userAad)
            == Ok((Open(suite, s, p, userAad).0.epoch, Open(suite, s, p, userAad).1.value))
  {
    hide Authenticate, Extend, Ratchet, TagOf;
  }

  lemma FitsOnlyOne(m: Message, short: Bytes)
    requires |short| == EPOC - 13 && m.userAad == AfterEpoc(short, 1)
    requires m.packet.flags == FlagsFor(m.userAad) && m.packet.epoch == 0
    ensures |m.userAad| == EPOC && !Fits(m, short, 0) && Fits(m, short, NextEpoch(0))
  {
    assert |AfterEpoc(short, 1)| == EPOC;
    hide AfterEpoc;
  }

  lemma DifferentLinks(start: Bytes32, p: Packet)
    ensures TranscriptInput(start, LinkOf(0, p)) != TranscriptInput(start, LinkOf(1, p))
  {
    hide TagOf;
    if TranscriptInput(start, LinkOf(0, p)) == TranscriptInput(start, LinkOf(1, p)) {
      TranscriptInputInjective(start, LinkOf(0, p), start, LinkOf(1, p));
    }
  }

  /** Epochs never decrease, whatever snapshots are taken and restored. */
  lemma {:induction false} EpochsNeverDecrease(suite: Suite, keyA: Bytes32, keyB: Bytes32, w: World, steps: seq<Step>,
                                               w': World, side: Side)
    requires suite.aead.Sound() && Separated(suite.kdf, keyA, keyB) && Inv(suite, keyA, keyB, w)
    requires Run(suite, keyA, keyB, w, steps, w')
    ensures Get(w, side).state.epoch <= Get(w', side).state.epoch
    decreases |steps|
  {
    if steps != [] {
      var w1 := Next(suite, keyA, keyB, w, steps[0]);
      StepEpoch(suite, keyA, keyB, w, steps[0], side);
      hide Next, Inv, Allowed, Separated;
      OneStep(suite, keyA, keyB, w, steps[0]);
      RunKeeps(suite, keyA, keyB, w, [steps[0]], w1);
      EpochsNeverDecrease(suite, keyA, keyB, w1, steps[1..], w', side);
    }
  }

  lemma SealEpoch(suite: Suite, s: State, nonce: Nonce, plaintext: Bytes, userAad: Bytes)
    ensures Seal(suite, s, nonce, plaintext, userAad).0.epoch == s.epoch
  {
    hide AadV2, Extend, Ratchet;
  }

  lemma OpenEpoch(suite: Suite, s: State, p: Packet, userAad: Bytes)
    ensures s.epoch <= Open(suite, s, p, userAad).0.epoch
  {
    hide AadV1, AadV2, Extend, Ratchet;
  }

  lemma ExportEpoch(aead: Aead, s: State, wrap: Bytes32, nonce: Nonce)
    ensures s.epoch <= ExportState(aead, s, wrap, nonce).0.epoch
  {
    hide EncodeState, SnapshotAad;
  }

  lemma StepEpoch(suite: Suite, keyA: Bytes32, keyB: Bytes32, w: World, step: Step, side: Side)
    requires Inv(suite, keyA, keyB, w)
    ensures Get(w, side).state.epoch <= Get(Next(suite, keyA, keyB, w, step), side).state.epoch
  {
    var p := Get(w, step.side);
    assert SavedInv(suite, p);
    hide SenderInv, ReceiverInv, LogInv, Inv, Seal, Open, ExportState, ImportState, Entry;
    match step
    case SealStep(_, nonce, plaintext, userAad) => SealEpoch(suite, p.state, nonce, plaintext, userAad);
    case OpenStep(_, packet, userAad) => OpenEpoch(suite, p.state, packet, userAad);
    case ExportStep(_, nonce, wrap) => ExportEpoch(suite.aead, p.state, wrap, nonce);
    case RestoreStep(_) =>
    case ResumeStep(_) =>
  }
}
