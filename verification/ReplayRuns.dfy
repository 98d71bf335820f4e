/** Whole runs of two replay-window channels over a network that drops, reorders,
 *  duplicates and injects packets, and lets callers supply any associated data.
 */
module ReplayRuns {
  import opened Words
  import opened Endpoints
  import opened Primitives
  import opened Bitmaps
  import opened PacketCodec
  import opened SlidingWindow
  import opened ReplayChannel

  datatype Sent = Sent(packet: Packet, message: Bytes, userAad: Bytes)

  datatype Got = Got(sequence: u64, message: Bytes)

  /** A channel with the history of what it sealed and what it accepted. */
  datatype Peer = Peer(channel: Channel, sent: seq<Sent>, got: seq<Got>)

  datatype World = World(a: Peer, b: Peer, log: set<Sealing>)

  /** An opened packet is any packet at all: the network chooses it. */
  datatype Step =
    | SealStep(side: Side, plaintext: Bytes, userAad: Bytes)
    | OpenStep(side: Side, packet: Packet, userAad: Bytes)

  function Get(w: World, side: Side): Peer {
    if side == A then w.a else w.b
  }

  function Put(w: World, side: Side, p: Peer): World {
    if side == A then w.(a := p) else w.(b := p)
  }

  function AadOf(s: Sent): Bytes {
    var aad := AadV2(s.packet.flags, s.packet.sequence, s.userAad, 0);
    if aad.Ok? then aad.value else []
  }

  function Entry(key: Bytes32, s: Sent): Sealing {
    Sealing(key, s.packet.nonce, AadOf(s), s.message, s.packet.ciphertext)
  }

  function Next(aead: Aead, w: World, step: Step): (w': World)
    requires w.a.channel.size <= MAX_WINDOW && w.b.channel.size <= MAX_WINDOW
    ensures w'.a.channel.size == w.a.channel.size && w'.b.channel.size == w.b.channel.size
  {
    var p := Get(w, step.side);
    match step
    case SealStep(side, plaintext, userAad) =>
      var (c, r) := Seal(aead, p.channel, plaintext, userAad);
      if r.Err? then w
      else
        var s := Sent(r.value, plaintext, userAad);
        Put(w, side, p.(channel := c, sent := p.sent + [s])).(log := w.log + {Entry(c.txKey, s)})
    case OpenStep(side, packet, userAad) =>
      var (c, r) := Open(aead, p.channel, packet, userAad);
      if r.Err? then Put(w, side, p.(channel := c))
      else Put(w, side, p.(channel := c, got := p.got + [Got(packet.sequence, r.value)]))
  }

  /** The authenticity assumption, for the one decryption a step performs. */
  ghost predicate Allowed(aead: Aead, w: World, step: Step) {
    step.OpenStep? ==>
      var aad := AadV2(step.packet.flags, step.packet.sequence, step.userAad, 0);
      aad.Ok? ==> Unforgeable(aead, w.log, Get(w, step.side).channel.rxKey, step.packet.nonce, aad.value,
                              step.packet.ciphertext)
  }

  ghost predicate Run(aead: Aead, w: World, steps: seq<Step>, w': World)
    requires w.a.channel.size <= MAX_WINDOW && w.b.channel.size <= MAX_WINDOW
    decreases |steps|
  {
    if steps == [] then w == w'
    else Allowed(aead, w, steps[0]) && Run(aead, Next(aead, w, steps[0]), steps[1..], w')
  }

  function Start(kdf: Kdf, seed: Bytes32, context: Bytes, sizeA: u64, sizeB: u64): World {
    World(Peer(Initial(kdf, seed, Initiator, context, sizeA), [], []),
          Peer(Initial(kdf, seed, Responder, context, sizeB), [], []), {})
  }

  // --------------------------------------------------------------------------
  // The invariant
  // --------------------------------------------------------------------------

  function Accepted(got: seq<Got>): set<nat> {
    set i | 0 <= i < |got| :: got[i].sequence
  }

  ghost predicate SenderInv(p: Peer) {
    && p.channel.txSeq == |p.sent|
    && forall i :: 0 <= i < |p.sent| ==>
         && p.sent[i].packet.sequence == i
         && p.sent[i].packet.version == WIRE_VERSION_V2
         && p.sent[i].packet.nonce == NonceFor(p.channel.txMask, i)
         && p.sent[i].packet.flags == FlagsFor(p.sent[i].userAad)
         && |p.sent[i].userAad| < U32_LIMIT
  }

  ghost predicate LoggedBy(e: Sealing, p: Peer) {
    exists i :: 0 <= i < |p.sent| && e == Entry(p.channel.txKey, p.sent[i])
  }

  ghost predicate AllLogged(p: Peer, log: set<Sealing>) {
    forall i :: 0 <= i < |p.sent| ==> Entry(p.channel.txKey, p.sent[i]) in log
  }

  /** What `r` accepted is what `s` sealed, each sequence at most once, and the window knows it. */
  ghost predicate ReceiverInv(s: Peer, r: Peer) {
    && r.channel.rxKey == s.channel.txKey && r.channel.rxMask == s.channel.txMask
    && 1 <= r.channel.size <= MAX_WINDOW
    && Tracks(r.channel.rx, Accepted(r.got), r.channel.size)
    && (forall i :: 0 <= i < |r.got| ==>
          r.got[i].sequence < |s.sent| && r.got[i].message == s.sent[r.got[i].sequence].message)
    && (forall i, j :: 0 <= i < j < |r.got| ==> r.got[i].sequence != r.got[j].sequence)
  }

  ghost predicate Inv(aead: Aead, w: World) {
    && w.a.channel.txKey != w.b.channel.txKey
    && SenderInv(w.a) && SenderInv(w.b)
    && ReceiverInv(w.a, w.b) && ReceiverInv(w.b, w.a)
    && GenuineLog(aead, w.log)
    && AllLogged(w.a, w.log) && AllLogged(w.b, w.log)
    && (forall e :: e in w.log ==> LoggedBy(e, w.a) || LoggedBy(e, w.b))
  }

  /** An accepted packet is, in everything v2 carries, one the other side sealed, and yields its message. */
  lemma AcceptedWasSealed(aead: Aead, w: World, side: Side, packet: Packet, userAad: Bytes)
    requires aead.Sound() && Inv(aead, w) && Allowed(aead, w, OpenStep(side, packet, userAad))
    requires Open(aead, Get(w, side).channel, packet, userAad).1.Ok?
    ensures packet.sequence < |Get(w, Other(side)).sent|
    ensures var s := Get(w, Other(side)).sent[packet.sequence];
            && Open(aead, Get(w, side).channel, packet, userAad).1.value == s.message
            && SameOnWire(packet, s.packet) && |userAad| < U32_LIMIT && |s.userAad| < U32_LIMIT
            && AadV2(packet.flags, packet.sequence, userAad, 0) == AadV2(packet.flags, packet.sequence, s.userAad, 0)
  {
    hide AadV2, NonceFor, Check, Record, Tracks, FlagsFor;
    var r, s := Get(w, side), Get(w, Other(side));
    var aad := AadV2(packet.flags, packet.sequence, userAad, 0).value;
    var message := Open(aead, r.channel, packet, userAad).1.value;
    OpenedWasSealed(aead, w.log, r.channel.rxKey, packet.nonce, aad, packet.ciphertext, message);
    var e := Sealing(r.channel.rxKey, packet.nonce, aad, message, packet.ciphertext);
    assert LoggedBy(e, s);
    var i :| 0 <= i < |s.sent| && e == Entry(s.channel.txKey, s.sent[i]);
    AadV2Header(s.sent[i].packet.flags, i, s.sent[i].userAad, 0, packet.flags, packet.sequence, userAad, 0);
  }

  /** One more packet under the same key. */
  function AddSent(p: Peer, s: Sent): Peer
    requires p.channel.txSeq < U64_MAX
  {
    p.(channel := p.channel.(txSeq := p.channel.txSeq + 1), sent := p.sent + [s])
  }

  lemma AddSentKeeps(p: Peer, s: Sent, other: Peer, log: set<Sealing>)
    requires p.channel.txSeq < U64_MAX && SenderInv(p) && AllLogged(p, log)
    requires ReceiverInv(p, other) && ReceiverInv(other, p)
    requires s.packet.sequence == p.channel.txSeq && s.packet.version == WIRE_VERSION_V2
    requires s.packet.nonce == NonceFor(p.channel.txMask, p.channel.txSeq)
    requires s.packet.flags == FlagsFor(s.userAad) && |s.userAad| < U32_LIMIT
    ensures SenderInv(AddSent(p, s)) && AllLogged(AddSent(p, s), log + {Entry(p.channel.txKey, s)})
    ensures ReceiverInv(AddSent(p, s), other) && ReceiverInv(other, AddSent(p, s))
    ensures forall e :: LoggedBy(e, p) || e == Entry(p.channel.txKey, s) ==> LoggedBy(e, AddSent(p, s))
  {
    hide NonceFor, FlagsFor, Entry, Tracks;
    var p' := AddSent(p, s);
    forall e | LoggedBy(e, p) || e == Entry(p.channel.txKey, s) ensures LoggedBy(e, p') {
      if LoggedBy(e, p) {
        var i :| 0 <= i < |p.sent| && e == Entry(p.channel.txKey, p.sent[i]);
        assert p'.sent[i] == p.sent[i];
      } else {
        assert p'.sent[|p.sent|] == s;
      }
    }
  }

  lemma SealKeeps(aead: Aead, w: World, side: Side, plaintext: Bytes, userAad: Bytes)
    requires Inv(aead, w)
    ensures Inv(aead, Next(aead, w, SealStep(side, plaintext, userAad)))
  {
    hide AadV2, NonceFor, FlagsFor, Tracks, LoggedBy, ReceiverInv, SenderInv, AllLogged;
    var p := Get(w, side);
    var (c, r) := Seal(aead, p.channel, plaintext, userAad);
    if r.Ok? {
      var s := Sent(r.value, plaintext, userAad);
      AddSentKeeps(p, s, Get(w, Other(side)), w.log);
      AllLoggedMonotone(Get(w, Other(side)), w.log, w.log + {Entry(c.txKey, s)});
    }
  }

  lemma AllLoggedMonotone(p: Peer, log: set<Sealing>, log': set<Sealing>)
    requires AllLogged(p, log) && log <= log'
    ensures AllLogged(p, log')
  {}

  lemma AcceptedGrows(got: seq<Got>, g: Got)
    ensures Accepted(got + [g]) == Accepted(got) + {g.sequence}
  {
    var more := got + [g];
    assert more[|got|] == g;
    forall s | s in Accepted(got) ensures s in Accepted(more) {
      var i :| 0 <= i < |got| && got[i].sequence == s;
      assert more[i].sequence == s;
    }
  }

  /** Accepting a packet the window passes and the sender sealed keeps the receiver's half. */
  lemma AcceptKeeps(s: Peer, r: Peer, sequence: u64, message: Bytes)
    requires ReceiverInv(s, r) && Check(r.channel.rx, sequence, r.channel.size).Ok?
    requires sequence < |s.sent| && message == s.sent[sequence].message
    ensures r.channel.rx.highest.None? || r.channel.rx.highest.value < sequence + 128
    ensures ReceiverInv(s, r.(channel := r.channel.(rx := Record(r.channel.rx, sequence, r.channel.size)),
                              got := r.got + [Got(sequence, message)]))
  {
    var accepted := Accepted(r.got);
    CheckRefinesSet(r.channel.rx, accepted, sequence, r.channel.size);
    RecordTracks(r.channel.rx, accepted, sequence, r.channel.size);
    AcceptedGrows(r.got, Got(sequence, message));
    assert sequence !in accepted;
    forall i | 0 <= i < |r.got| ensures r.got[i].sequence != sequence {
      assert r.got[i].sequence in accepted;
    }
  }

  /** The sender's half, and what the other side has of it, depend only on what was sent. */
  lemma SameSent(p: Peer, p': Peer, other: Peer, log: set<Sealing>)
    requires SenderInv(p) && AllLogged(p, log) && ReceiverInv(p, other)
    requires p'.sent == p.sent && p'.channel.(rx := p.channel.rx) == p.channel
    ensures SenderInv(p') && AllLogged(p', log) && ReceiverInv(p', other)
    ensures forall e :: LoggedBy(e, p) ==> LoggedBy(e, p')
  {
    hide Tracks, Entry, NonceFor, FlagsFor;
  }

  /** What an open does to a world: nothing, or one more message and its sequence in the window. */
  lemma OpenNext(aead: Aead, w: World, side: Side, packet: Packet, userAad: Bytes)
    requires w.a.channel.size <= MAX_WINDOW && w.b.channel.size <= MAX_WINDOW
    ensures var p := Get(w, side);
            var result := Open(aead, p.channel, packet, userAad).1;
            if result.Err? then Next(aead, w, OpenStep(side, packet, userAad)) == w
            else
              && Check(p.channel.rx, packet.sequence, p.channel.size).Ok?
              && Next(aead, w, OpenStep(side, packet, userAad)) ==
                 Put(w, side, p.(channel := p.channel.(rx := Record(p.channel.rx, packet.sequence, p.channel.size)),
                                 got := p.got + [Got(packet.sequence, result.value)]))
  {
    hide AadV2, Check, Record;
  }

  lemma OpenKeeps(aead: Aead, w: World, side: Side, packet: Packet, userAad: Bytes)
    requires aead.Sound() && Inv(aead, w) && Allowed(aead, w, OpenStep(side, packet, userAad))
    ensures Inv(aead, Next(aead, w, OpenStep(side, packet, userAad)))
  {
    OpenNext(aead, w, side, packet, userAad);
    var r, s := Get(w, side), Get(w, Other(side));
    var result := Open(aead, r.channel, packet, userAad).1;
    if result.Ok? {
      AcceptedWasSealed(aead, w, side, packet, userAad);
      hide AadV2, NonceFor, FlagsFor, Check, Record, Tracks, SenderInv, GenuineLog, AllLogged, LoggedBy, ReceiverInv;
      hide Next, Open, Allowed;
      AcceptKeeps(s, r, packet.sequence, result.value);
      SameSent(r, Get(Next(aead, w, OpenStep(side, packet, userAad)), side), s, w.log);
    }
  }

  lemma {:induction false} RunKeeps(aead: Aead, w: World, steps: seq<Step>, w': World)
    requires aead.Sound() && Inv(aead, w) && Run(aead, w, steps, w')
    ensures Inv(aead, w')
    decreases |steps|
  {
    hide Next, SenderInv, AllLogged, GenuineLog, LoggedBy, Tracks, AadV2, Unforgeable;
    if steps != [] {
      match steps[0] {
        case SealStep(side, plaintext, userAad) => SealKeeps(aead, w, side, plaintext, userAad);
        case OpenStep(side, packet, userAad) => OpenKeeps(aead, w, side, packet, userAad);
      }
      RunKeeps(aead, Next(aead, w, steps[0]), steps[1..], w');
    }
  }

  // --------------------------------------------------------------------------
  // What every run guarantees
  // --------------------------------------------------------------------------

  /** A world some run of two fresh channels, with distinct direction keys, arrives at. */
  ghost predicate Reachable(aead: Aead, w: World) {
    exists kdf: Kdf, seed: Bytes32, context: Bytes, sizeA: u64, sizeB: u64, steps: seq<Step> ::
      && 1 <= sizeA <= MAX_WINDOW && 1 <= sizeB <= MAX_WINDOW
      && Derive(kdf, seed, context, "window-key:a") != Derive(kdf, seed, context, "window-key:b")
      && Run(aead, Start(kdf, seed, context, sizeA, sizeB), steps, w)
  }

  lemma StartInv(aead: Aead, kdf: Kdf, seed: Bytes32, context: Bytes, sizeA: u64, sizeB: u64)
    requires 1 <= sizeA <= MAX_WINDOW && 1 <= sizeB <= MAX_WINDOW
    requires Derive(kdf, seed, context, "window-key:a") != Derive(kdf, seed, context, "window-key:b")
    ensures Inv(aead, Start(kdf, seed, context, sizeA, sizeB))
  {
    hide Derive, DeriveMask, LoggedBy;
  }

  lemma ReachableInv(aead: Aead, w: World)
    requires aead.Sound() && Reachable(aead, w)
    ensures Inv(aead, w)
  {
    var kdf: Kdf, seed: Bytes32, context: Bytes, sizeA: u64, sizeB: u64, steps: seq<Step> :|
      && 1 <= sizeA <= MAX_WINDOW && 1 <= sizeB <= MAX_WINDOW
      && Derive(kdf, seed, context, "window-key:a") != Derive(kdf, seed, context, "window-key:b")
      && Run(aead, Start(kdf, seed, context, sizeA, sizeB), steps, w);
    var start := Start(kdf, seed, context, sizeA, sizeB);
    StartInv(aead, kdf, seed, context, sizeA, sizeB);
    hide Inv, Start, Run;
    RunKeeps(aead, start, steps, w);
  }

  /** Each accepted message is the one sealed under its sequence, and no sequence is accepted twice. */
  lemma DeliveredOnceAsSealed(aead: Aead, w: World, side: Side)
    requires aead.Sound() && Reachable(aead, w)
    ensures var got, sent := Get(w, side).got, Get(w, Other(side)).sent;
            && (forall i :: 0 <= i < |got| ==>
                got[i].sequence < |sent| && got[i].message == sent[got[i].sequence].message)
            && (forall i, j :: 0 <= i < j < |got| ==> got[i].sequence != got[j].sequence)
  {
    ReachableInv(aead, w);
  }

  /** What the invariant says of a sealed packet, seen from the other side. */
  lemma SealedPacket(aead: Aead, w: World, side: Side, i: nat)
    requires aead.Sound() && Inv(aead, w) && i < |Get(w, Other(side)).sent|
    ensures var r, s := Get(w, side).channel, Get(w, Other(side)).sent[i];
            && i < U64_LIMIT && s.packet.sequence == i && s.packet.version == WIRE_VERSION_V2
            && s.packet.flags == (if s.userAad == [] then 0 else 1) && |s.userAad| < U32_LIMIT
            && s.packet.nonce == NonceFor(r.rxMask, i)
            && aead.dec(r.rxKey, s.packet.nonce, AadV2(s.packet.flags, i, s.userAad, 0).value, s.packet.ciphertext)
               == Some(s.message)
  {
    hide AadV2, NonceFor, Check, Record, Tracks, GenuineLog, LoggedBy;
    var sender := Get(w, Other(side));
    var s := sender.sent[i];
    assert Entry(sender.channel.txKey, s) in w.log;
    assert aead.enc(sender.channel.txKey, s.packet.nonce, AadOf(s), s.message) == Some(s.packet.ciphertext) by {
      SealedWas(aead, w, Entry(sender.channel.txKey, s));
    }
  }

  lemma SealedWas(aead: Aead, w: World, e: Sealing)
    requires GenuineLog(aead, w.log) && e in w.log
    ensures aead.enc(e.key, e.nonce, e.aad, e.message) == Some(e.ciphertext)
  {}

  /** The window of a receiver gives the verdict of all it accepted. */
  lemma WindowVerdict(aead: Aead, w: World, side: Side, sequence: u64)
    requires Inv(aead, w)
    ensures var r := Get(w, side);
            && r.channel.size <= MAX_WINDOW
            && Check(r.channel.rx, sequence, r.channel.size) == SetVerdict(Accepted(r.got), sequence, r.channel.size)
  {
    var r := Get(w, side);
    CheckRefinesSet(r.channel.rx, Accepted(r.got), sequence, r.channel.size);
  }

  /** A genuine packet gets the verdict of the model that remembers every accepted sequence. */
  lemma GenuineVerdict(aead: Aead, w: World, side: Side, i: nat)
    requires aead.Sound() && Reachable(aead, w) && i < |Get(w, Other(side)).sent|
    ensures i < U64_LIMIT
    ensures var r, s := Get(w, side), Get(w, Other(side)).sent[i];
            r.channel.size <= MAX_WINDOW &&
            var verdict := SetVerdict(Accepted(r.got), i, r.channel.size);
            Open(aead, r.channel, s.packet, s.userAad).1 == if verdict.Ok? then Ok(s.message) else Err(verdict.error)
  {
    ReachableInv(aead, w);
    SealedPacket(aead, w, side, i);
    WindowVerdict(aead, w, side, i);
    hide Reachable, Inv, AadV2, NonceFor, SetVerdict, Check, Record;
  }

  /** A packet sealed without a caller part carries flags 0 and opens with any; one sealed with a caller part carries
      flags 1 and opens with that one only. */
  lemma CallerPart(aead: Aead, w: World, side: Side, i: nat, userAad: Bytes)
    requires aead.Sound() && Reachable(aead, w) && i < |Get(w, Other(side)).sent|
    requires Allowed(aead, w, OpenStep(side, Get(w, Other(side)).sent[i].packet, userAad))
    ensures i < U64_LIMIT
    ensures var r, s := Get(w, side), Get(w, Other(side)).sent[i];
            && s.packet.flags == (if s.userAad == [] then 0 else 1)
            && r.channel.size <= MAX_WINDOW
            && var verdict := SetVerdict(Accepted(r.got), i, r.channel.size);
               Open(aead, r.channel, s.packet, userAad).1 ==
               if verdict.Err? then Err(verdict.error)
               else if |userAad| >= U32_LIMIT then Err(AadDemasiadoLargo)
               else if s.userAad == [] || userAad == s.userAad then Ok(s.message)
               else Err(Autenticacion)
  {
    ReachableInv(aead, w);
    hide Reachable, Inv, Allowed, AadV2, NonceFor, SetVerdict, Check, Record, Mimics;
    hide Open, Accepted;
    SealedPacket(aead, w, side, i);
    WindowVerdict(aead, w, side, i);
    var r, s := Get(w, side), Get(w, Other(side)).sent[i];
    OpenOutcome(aead, r.channel, s.packet, userAad);
    if |userAad| >= U32_LIMIT {
    } else if s.userAad == [] || userAad == s.userAad {
      BoundPartOpens(aead, w, side, i, userAad);
    } else {
      OtherPartRefused(aead, w, side, i, userAad);
    }
  }

  lemma BoundPartOpens(aead: Aead, w: World, side: Side, i: nat, userAad: Bytes)
    requires aead.Sound() && Inv(aead, w) && i < |Get(w, Other(side)).sent| && |userAad| < U32_LIMIT
    requires var s := Get(w, Other(side)).sent[i]; s.userAad == [] || userAad == s.userAad
    ensures var r, s := Get(w, side).channel, Get(w, Other(side)).sent[i];
            aead.dec(r.rxKey, s.packet.nonce, AadV2(s.packet.flags, s.packet.sequence, userAad, 0).value,
                     s.packet.ciphertext) == Some(s.message)
  {
    hide Inv, AadV2, NonceFor;
    SealedPacket(aead, w, side, i);
    var s := Get(w, Other(side)).sent[i];
    SameAad(s.packet.flags, i, userAad, s.userAad);
  }

  /** An open of a v2 packet with the right nonce comes down to the window and the decryption. */
  lemma OpenOutcome(aead: Aead, c: Channel, p: Packet, userAad: Bytes)
    requires c.size <= MAX_WINDOW && p.version == WIRE_VERSION_V2 && p.nonce == NonceFor(c.rxMask, p.sequence)
    ensures var verdict := Check(c.rx, p.sequence, c.size);
            Open(aead, c, p, userAad).1 ==
            if verdict.Err? then Err(verdict.error)
            else if |userAad| >= U32_LIMIT then Err(AadDemasiadoLargo)
            else
              match aead.dec(c.rxKey, p.nonce, AadV2(p.flags, p.sequence, userAad, 0).value, p.ciphertext)
              case None => Err(Autenticacion)
              case Some(message) => Ok(message)
  {
    hide AadV2, NonceFor, Check, Record;
  }

  lemma SameAad(flags: byte, sequence: u64, userAad: Bytes, userAad': Bytes)
    requires |userAad| < U32_LIMIT && |userAad'| < U32_LIMIT
    ensures AadV2(flags, sequence, userAad, 0) == AadV2(flags, sequence, userAad', 0) <==>
            (HasAad(flags) ==> userAad == userAad')
  {
    AadV2Agree(flags, sequence, userAad, 0, flags, sequence, userAad', 0);
    hide AadV2;
  }

  lemma OtherPartRefused(aead: Aead, w: World, side: Side, i: nat, userAad: Bytes)
    requires aead.Sound() && Inv(aead, w) && i < |Get(w, Other(side)).sent|
    requires var s := Get(w, Other(side)).sent[i]; s.userAad != [] && userAad != s.userAad
    requires Allowed(aead, w, OpenStep(side, Get(w, Other(side)).sent[i].packet, userAad))
    requires Get(w, side).channel.size <= MAX_WINDOW
    ensures Open(aead, Get(w, side).channel, Get(w, Other(side)).sent[i].packet, userAad).1.Err?
  {
    hide Inv, Allowed, AadV2, NonceFor, Check, Record, Open;
    SealedPacket(aead, w, side, i);
    var s := Get(w, Other(side)).sent[i];
    if Open(aead, Get(w, side).channel, s.packet, userAad).1.Ok? {
      AcceptedWasSealed(aead, w, side, s.packet, userAad);
      SameAad(s.packet.flags, i, userAad, s.userAad);
    }
  }

  /** Any other packet is refused, changes nothing, and gets this error. */
  lemma StrangerRefused(aead: Aead, w: World, side: Side, p: Packet, userAad: Bytes)
    requires aead.Sound() && Reachable(aead, w) && Allowed(aead, w, OpenStep(side, p, userAad))
    requires forall i :: 0 <= i < |Get(w, Other(side)).sent| ==> !SameOnWire(p, Get(w, Other(side)).sent[i].packet)
    ensures var r := Get(w, side);
            && r.channel.size <= MAX_WINDOW
            && var verdict := SetVerdict(Accepted(r.got), p.sequence, r.channel.size);
               Open(aead, r.channel, p, userAad) ==
               (r.channel,
                Err(if p.version != WIRE_VERSION_V2 then VersionNoSoportada(p.version)
                    else if verdict.Err? then verdict.error
                    else if p.nonce != NonceFor(r.channel.rxMask, p.sequence) then Autenticacion
                    else if |userAad| >= U32_LIMIT then AadDemasiadoLargo
                    else Autenticacion))
  {
    ReachableInv(aead, w);
    WindowVerdict(aead, w, side, p.sequence);
    if Open(aead, Get(w, side).channel, p, userAad).1.Ok? {
      AcceptedWasSealed(aead, w, side, p, userAad);
    }
    hide Reachable, Inv, Allowed, AadV2, NonceFor, SetVerdict, Check, Record;
  }

  /** The reported loss is exact: neither the subtraction saturates nor the addition overflows. */
  ghost predicate ExactLoss(c: Channel, accepted: set<nat>) {
    if accepted == {} then Missing(c) == 0
    else
      && c.rx.highest.Some? && c.rx.highest.value + 1 < U64_LIMIT
      && var expected := if c.rx.highest.value + 1 < c.size then c.rx.highest.value + 1 else c.size;
      && CountOnes(c.rx.bitmap, 128) <= expected
      && Missing(c) == |Lost(accepted, c.rx.highest.value, expected)|
  }

  lemma ExactLossCount(aead: Aead, w: World, side: Side)
    requires aead.Sound() && Reachable(aead, w)
    ensures ExactLoss(Get(w, side).channel, Accepted(Get(w, side).got))
  {
    ReachableInv(aead, w);
    hide Reachable, GenuineLog, LoggedBy, AllLogged, ExactLoss, SenderInv, ReceiverInv;
    LossOfReceiver(Get(w, Other(side)), Get(w, side));
  }

  lemma LossOfReceiver(s: Peer, r: Peer)
    requires SenderInv(s) && ReceiverInv(s, r)
    ensures ExactLoss(r.channel, Accepted(r.got))
  {
    hide CountOnes, Lost, SenderInv;
    if Accepted(r.got) != {} {
      TopWasSealed(s, r);
      hide Accepted;
      LossCountOfWindow(r.channel, Accepted(r.got));
    }
  }

  /** The highest accepted sequence was sealed, so one more than it still is a u64. */
  lemma TopWasSealed(s: Peer, r: Peer)
    requires SenderInv(s) && ReceiverInv(s, r) && Accepted(r.got) != {}
    ensures r.channel.rx.highest.Some? && r.channel.rx.highest.value + 1 < U64_LIMIT
  {
    hide NonceFor, FlagsFor;
    var top := r.channel.rx.highest.value;
    assert top in Accepted(r.got);
    var i :| 0 <= i < |r.got| && r.got[i].sequence == top;
    assert top < |s.sent|;
  }

  lemma LossCountOfWindow(c: Channel, accepted: set<nat>)
    requires 1 <= c.size <= MAX_WINDOW && Tracks(c.rx, accepted, c.size) && accepted != {}
    requires c.rx.highest.value + 1 < U64_LIMIT
    ensures ExactLoss(c, accepted)
  {
    var top := c.rx.highest.value;
    var expected := if top + 1 < c.size then top + 1 else c.size;
    OnesAndLosses(c.rx, accepted, c.size, expected);
    NoOnesAbove(c.rx, accepted, c.size, expected, 128);
    hide CountOnes, Lost, Tracks;
    assert (top + 1) % U64_LIMIT == top + 1;
  }

  /** No two packets one channel seals share a nonce. */
  lemma NoncesDistinct(aead: Aead, w: World, side: Side, i: nat, j: nat)
    requires aead.Sound() && Reachable(aead, w)
    requires i < j < |Get(w, side).sent|
    ensures Get(w, side).sent[i].packet.nonce != Get(w, side).sent[j].packet.nonce
  {
    ReachableInv(aead, w);
    var p := Get(w, side);
    if p.sent[i].packet.nonce == p.sent[j].packet.nonce {
      NonceInjective(p.channel.txMask, i, j);
    }
  }
}
