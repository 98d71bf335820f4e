/** Any number of threads sealing and opening on one mesh node, interleaved at every
 *  atomic access and at every lock, with the other nodes of the mesh as environment.
 */
module MeshRuns {
  import opened Words
  import opened Primitives
  import opened PacketCodec
  import opened MeshNode
  import opened MeshHistory

  /** One `open_realtime` call; `begun` is the length of the history when it started. */
  datatype Call = Call(packet: Packet, userAad: Bytes, now: u64, begun: nat)

  /** Where a thread stands. */
  datatype Pc =
    | Idle
    | SealLoaded(plaintext: Bytes, userAad: Bytes, now: u64, epoch: u64)
    | SealTicketed(plaintext: Bytes, userAad: Bytes, now: u64, epoch: u64, sequence: u64)
    | SealEncrypted(packet: Packet)
    | OpenChecked(call: Call, point: Option<nat>)
    | OpenAuthed(call: Call, message: Bytes)

  /** A completed call: where in the history it took effect, and how long the history was when it returned. */
  datatype Return = Return(call: Call, result: Result<Bytes>, point: nat, ended: nat)

  datatype World = World(
    node: Node,
    threads: map<nat, Pc>,
    ops: seq<Op>,
    done: seq<Return>,
    sealed: seq<Packet>,
    pending: seq<(nat, Packet)>,
    origins: set<Origin>)

  datatype Step =
    | LoadEpoch(thread: nat, plaintext: Bytes, userAad: Bytes, now: u64)
    | DrawTicket(thread: nat)
    | Encrypt(thread: nat)
    | FoldSealed(thread: nat)
    | BeginOpen(thread: nat, packet: Packet, userAad: Bytes, now: u64)
    | Decrypt(thread: nat)
    | CommitOpen(thread: nat)
    | OtherNodeSeals(origin: Origin)

  function PcOf(w: World, t: nat): Pc {
    if t in w.threads then w.threads[t] else Idle
  }

  function Goto(w: World, t: nat, pc: Pc): World {
    w.(threads := w.threads[t := pc])
  }

  function PointOf(point: Option<nat>): nat {
    if point.Some? then point.value else 0
  }

  /** The pending entries without the first one of thread `t`. */
  function RemovePending(pending: seq<(nat, Packet)>, t: nat): seq<(nat, Packet)> {
    if pending == [] then []
    else if pending[0].0 == t then pending[1..]
    else [pending[0]] + RemovePending(pending[1..], t)
  }

  /** The first critical section with the two stateless checks before it. An open that cannot
      succeed takes effect here: its result is already determined. */
  function BeginOpenStep(cfg: Config, w: World, t: nat, p: Packet, userAad: Bytes, now: u64): World {
    var call := Call(p, userAad, now, |w.ops|);
    var pre, verdict, message := PreCheck(cfg, p, now), CheckPeers(w.node.rx, p), Authenticate(cfg, p, userAad);
    if pre.Err? then Refuse(w, call, pre.error)
    else if verdict.Err? then Refuse(w, call, verdict.error)
    else if message.Err? then
      Goto(w, t, OpenChecked(call, Some(|w.ops|))).(ops := w.ops + [OpenOp(p, userAad, now, Err(message.error))])
    else Goto(w, t, OpenChecked(call, None))
  }

  /** A call that fails at once: it takes effect and done. */
  function Refuse(w: World, call: Call, e: Error): World {
    w.(ops := w.ops + [OpenOp(call.packet, call.userAad, call.now, Err(e))],
       done := w.done + [Return(call, Err(e), |w.ops|, |w.ops| + 1)])
  }

  /** The unlocked part: it reads no shared state. */
  function DecryptStep(cfg: Config, w: World, t: nat, call: Call, point: Option<nat>): World {
    var message := Authenticate(cfg, call.packet, call.userAad);
    if message.Err? then
      Goto(w, t, Idle).(done := w.done + [Return(call, Err(message.error), PointOf(point), |w.ops|)])
    else Goto(w, t, OpenAuthed(call, message.value))
  }

  /** The second critical section. */
  function CommitStep(cfg: Config, w: World, t: nat, call: Call, message: Bytes): World {
    var (rx, verdict) := Accept(cfg, w.node.rx, call.packet);
    var result := Outcome(verdict, Ok(message));
    Goto(w, t, Idle).(node := w.node.(rx := rx),
                      ops := w.ops + [OpenOp(call.packet, call.userAad, call.now, result)],
                      done := w.done + [Return(call, result, |w.ops|, |w.ops| + 1)])
  }

  function TicketStep(w: World, t: nat, pc: Pc): World
    requires pc.SealLoaded?
  {
    var (node, sequence) := Ticket(w.node);
    if sequence == U64_MAX then Goto(w, t, Idle).(node := node)
    else Goto(w, t, SealTicketed(pc.plaintext, pc.userAad, pc.now, pc.epoch, sequence)).(node := node)
  }

  function EncryptStep(cfg: Config, w: World, t: nat, pc: Pc): World
    requires pc.SealTicketed?
  {
    var p := SealPacket(cfg, pc.epoch, pc.sequence, pc.now, pc.plaintext, pc.userAad);
    if p.Err? then Goto(w, t, Idle)
    else
      Goto(w, t, SealEncrypted(p.value))
        .(sealed := w.sealed + [p.value], pending := w.pending + [(t, p.value)],
          origins := w.origins + {Origin(cfg.nodeId, pc.epoch, pc.sequence, pc.now, pc.plaintext, pc.userAad, p.value)})
  }

  function FoldStep(cfg: Config, w: World, t: nat, p: Packet): World {
    Goto(w, t, Idle).(node := w.node.(rx := Folded(cfg, w.node.rx, p)), ops := w.ops + [FoldOp(p)],
                      pending := RemovePending(w.pending, t))
  }

  /** A thread whose program counter does not match takes no step. */
  function Next(cfg: Config, w: World, step: Step): World {
    match step
    case LoadEpoch(t, plaintext, userAad, now) =>
      if PcOf(w, t).Idle? then Goto(w, t, SealLoaded(plaintext, userAad, now, w.node.epoch)) else w
    case DrawTicket(t) => if PcOf(w, t).SealLoaded? then TicketStep(w, t, PcOf(w, t)) else w
    case Encrypt(t) => if PcOf(w, t).SealTicketed? then EncryptStep(cfg, w, t, PcOf(w, t)) else w
    case FoldSealed(t) => if PcOf(w, t).SealEncrypted? then FoldStep(cfg, w, t, PcOf(w, t).packet) else w
    case BeginOpen(t, packet, userAad, now) =>
      if PcOf(w, t).Idle? then BeginOpenStep(cfg, w, t, packet, userAad, now) else w
    case Decrypt(t) => if PcOf(w, t).OpenChecked? then DecryptStep(cfg, w, t, PcOf(w, t).call, PcOf(w, t).point) else w
    case CommitOpen(t) =>
      if PcOf(w, t).OpenAuthed? then CommitStep(cfg, w, t, PcOf(w, t).call, PcOf(w, t).message) else w
    case OtherNodeSeals(origin) => w.(origins := w.origins + {origin})
  }

  function Run(cfg: Config, w: World, steps: seq<Step>): World
    decreases |steps|
  {
    if steps == [] then w else Run(cfg, Next(cfg, w, steps[0]), steps[1..])
  }

  /** A process that starts from `n`, with nothing in flight. */
  function Resume(n: Node): World {
    World(n, map[], [], [], [], [], {})
  }

  function Boot(epoch: u64): World {
    Resume(Node(epoch, 0, EMPTY_RX))
  }

  // --------------------------------------------------------------------------
  // The shared state is the outcome of a legal sequential history
  // --------------------------------------------------------------------------

  ghost predicate HistoryInv(cfg: Config, rx0: Rx, w: World) {
    Legal(cfg, rx0, w.ops) && w.node.rx == After(cfg, rx0, w.ops)
  }

  /** What an in-flight open already knows. */
  ghost predicate FlightInv(cfg: Config, w: World, t: nat) {
    match PcOf(w, t)
    case OpenChecked(call, point) => PreCheck(cfg, call.packet, call.now).Ok?
    case OpenAuthed(call, message) =>
      PreCheck(cfg, call.packet, call.now).Ok? && Authenticate(cfg, call.packet, call.userAad) == Ok(message)
    case _ => true
  }

  ghost predicate FlightsInv(cfg: Config, w: World) {
    forall t: nat :: FlightInv(cfg, w, t)
  }

  /** A call refused by its first section is refused by the indivisible open, and so is one that cannot authenticate. */
  lemma RefusedAtomically(cfg: Config, rx: Rx, p: Packet, userAad: Bytes, now: u64)
    ensures var pre, verdict, message := PreCheck(cfg, p, now), CheckPeers(rx, p), Authenticate(cfg, p, userAad);
            (pre.Err? || verdict.Err? || message.Err?) ==>
              AtomicOpen(cfg, rx, p, userAad, now) ==
              (rx, Err(if pre.Err? then pre.error else if verdict.Err? then verdict.error else message.error))
  {}

  /** With the stateless part behind it, the second section alone is the indivisible open. */
  lemma CommitIsAtomic(cfg: Config, rx: Rx, p: Packet, userAad: Bytes, now: u64, message: Bytes)
    requires PreCheck(cfg, p, now).Ok? && Authenticate(cfg, p, userAad) == Ok(message)
    ensures AtomicOpen(cfg, rx, p, userAad, now) == (Accept(cfg, rx, p).0, Outcome(Accept(cfg, rx, p).1, Ok(message)))
  {
    AcceptAgreesWithCheck(cfg, rx, p);
    hide Accept, CheckPeers, Authenticate, PreCheck;
  }

  lemma StepHistory(cfg: Config, rx0: Rx, w: World, step: Step)
    requires HistoryInv(cfg, rx0, w) && FlightsInv(cfg, w)
    ensures HistoryInv(cfg, rx0, Next(cfg, w, step))
  {
    hide AtomicOpen, Accept, Authenticate, PreCheck, CheckPeers, Folded, SealPacket, Legal, After, RemovePending;
    hide Outcome;
    match step {
      case BeginOpen(t, p, userAad, now) =>
        var e := OpenOp(p, userAad, now, AtomicOpen(cfg, w.node.rx, p, userAad, now).1);
        RefusedAtomically(cfg, w.node.rx, p, userAad, now);
        LegalAppend(cfg, rx0, w.ops, e);
      case CommitOpen(t) =>
        assert FlightInv(cfg, w, t);
        if PcOf(w, t).OpenAuthed? {
          var call := PcOf(w, t).call;
          CommitIsAtomic(cfg, w.node.rx, call.packet, call.userAad, call.now, PcOf(w, t).message);
          LegalAppend(cfg, rx0, w.ops,
                      OpenOp(call.packet, call.userAad, call.now,
                             AtomicOpen(cfg, w.node.rx, call.packet, call.userAad, call.now).1));
        }
      case FoldSealed(t) =>
        if PcOf(w, t).SealEncrypted? {
          LegalAppend(cfg, rx0, w.ops, FoldOp(PcOf(w, t).packet));
        }
      case _ =>
    }
  }

  lemma StepFlights(cfg: Config, w: World, step: Step)
    requires FlightsInv(cfg, w)
    ensures FlightsInv(cfg, Next(cfg, w, step))
  {
    hide Accept, Authenticate, PreCheck, CheckPeers, Folded, SealPacket, RemovePending, Outcome;
    forall t: nat ensures FlightInv(cfg, Next(cfg, w, step), t) {
      assert FlightInv(cfg, w, t);
    }
  }

  // --------------------------------------------------------------------------
  // Every completed call took effect at one point between its start and its return
  // --------------------------------------------------------------------------

  ghost predicate Matches(ops: seq<Op>, call: Call, result: Result<Bytes>, point: nat) {
    call.begun <= point < |ops| && ops[point] == OpenOp(call.packet, call.userAad, call.now, result)
  }

  ghost predicate ReturnInv(ops: seq<Op>, r: Return) {
    Matches(ops, r.call, r.result, r.point) && r.point < r.ended <= |ops|
  }

  /** An open in flight has taken effect already exactly when it cannot authenticate. */
  ghost predicate PointInv(cfg: Config, w: World, t: nat) {
    match PcOf(w, t)
    case OpenChecked(call, point) =>
      && call.begun <= |w.ops|
      && (point.Some? <==> Authenticate(cfg, call.packet, call.userAad).Err?)
      && (point.Some? ==> Matches(w.ops, call, Err(Authenticate(cfg, call.packet, call.userAad).error), point.value))
    case OpenAuthed(call, _) => call.begun <= |w.ops|
    case _ => true
  }

  ghost predicate PointsInv(cfg: Config, w: World) {
    && (forall i :: 0 <= i < |w.done| ==> ReturnInv(w.ops, w.done[i]))
    && (forall t: nat :: PointInv(cfg, w, t))
  }

  /** A step leaves the history or adds one operation to it. */
  lemma StepOps(cfg: Config, w: World, step: Step)
    ensures var ops, ops' := w.ops, Next(cfg, w, step).ops;
            ops' == ops || (|ops'| == |ops| + 1 && ops' == ops + [ops'[|ops|]])
  {
    hide Accept, Authenticate, PreCheck, CheckPeers, Folded, SealPacket, RemovePending, Outcome;
  }

  lemma StepPoints(cfg: Config, w: World, step: Step)
    requires PointsInv(cfg, w)
    ensures PointsInv(cfg, Next(cfg, w, step))
  {
    hide Accept, Authenticate, PreCheck, CheckPeers, Folded, SealPacket, RemovePending, Outcome;
    var w' := Next(cfg, w, step);
    StepOps(cfg, w, step);
    forall t: nat ensures PointInv(cfg, w', t) {
      assert PointInv(cfg, w, t);
    }
    forall i | 0 <= i < |w'.done| ensures ReturnInv(w'.ops, w'.done[i]) {
      if i < |w.done| {
        assert w'.done[i] == w.done[i] && ReturnInv(w.ops, w.done[i]);
      } else {
        assert PointInv(cfg, w, step.thread);
      }
    }
  }

  /** No two calls take effect at the same place. */
  ghost predicate PointOwned(w: World, t: nat, point: nat) {
    PcOf(w, t).OpenChecked? && PcOf(w, t).point == Some(point)
  }

  ghost predicate DistinctInv(w: World) {
    && (forall i :: 0 <= i < |w.done| ==> w.done[i].point < |w.ops|)
    && (forall t: nat, p: nat :: PointOwned(w, t, p) ==> p < |w.ops|)
    && (forall i, j :: 0 <= i < j < |w.done| ==> w.done[i].point != w.done[j].point)
    && (forall i, t: nat, p: nat :: 0 <= i < |w.done| && PointOwned(w, t, p) ==> w.done[i].point != p)
    && (forall t: nat, u: nat, p: nat :: PointOwned(w, t, p) && PointOwned(w, u, p) ==> t == u)
  }

  lemma StepDistinct(cfg: Config, w: World, step: Step)
    requires DistinctInv(w) && PointsInv(cfg, w)
    ensures DistinctInv(Next(cfg, w, step))
  {
    hide Accept, Authenticate, PreCheck, CheckPeers, Folded, SealPacket, RemovePending, Outcome, Matches;
    var w' := Next(cfg, w, step);
    StepOps(cfg, w, step);
    if step.OtherNodeSeals? {
      assert forall t: nat, p: nat :: PointOwned(w', t, p) ==> PointOwned(w, t, p);
      return;
    }
    assert PointInv(cfg, w, step.thread);
    forall t: nat, p: nat | PointOwned(w', t, p)
      ensures PointOwned(w, t, p) || (p == |w.ops| < |w'.ops| && t == step.thread && |w'.done| == |w.done|) {
    }
    forall i | 0 <= i < |w'.done|
      ensures (i < |w.done| && w'.done[i] == w.done[i])
           || (i == |w.done| && w'.done[i].point == |w.ops| < |w'.ops|)
           || (i == |w.done| && PointOwned(w, step.thread, w'.done[i].point) && PcOf(w', step.thread).Idle?) {
    }
  }

  // --------------------------------------------------------------------------
  // Linearisability
  // --------------------------------------------------------------------------

  lemma {:induction false} RunLinear(cfg: Config, rx0: Rx, w: World, steps: seq<Step>)
    requires HistoryInv(cfg, rx0, w) && FlightsInv(cfg, w) && PointsInv(cfg, w) && DistinctInv(w)
    ensures var w' := Run(cfg, w, steps);
            HistoryInv(cfg, rx0, w') && FlightsInv(cfg, w') && PointsInv(cfg, w') && DistinctInv(w')
    decreases |steps|
  {
    hide HistoryInv, FlightsInv, PointsInv, DistinctInv, Next;
    if steps != [] {
      StepHistory(cfg, rx0, w, steps[0]);
      StepFlights(cfg, w, steps[0]);
      StepPoints(cfg, w, steps[0]);
      StepDistinct(cfg, w, steps[0]);
      RunLinear(cfg, rx0, Next(cfg, w, steps[0]), steps[1..]);
    }
  }

  /** Concurrent opens linearise, in a fresh process and in a restored one: there is one sequential history of
      indivisible operations that explains the guarded state and every returned result, each completed call has
      its own place in it, and a call that returned before another one began comes first. */
  lemma Linearisable(cfg: Config, n: Node, steps: seq<Step>)
    ensures var w := Run(cfg, Resume(n), steps);
            && Legal(cfg, n.rx, w.ops) && w.node.rx == After(cfg, n.rx, w.ops)
            && (forall i :: 0 <= i < |w.done| ==>
                  var r := w.done[i];
                  && r.call.begun <= r.point < r.ended <= |w.ops|
                  && w.ops[r.point] == OpenOp(r.call.packet, r.call.userAad, r.call.now, r.result))
            && (forall i, j :: 0 <= i < j < |w.done| ==> w.done[i].point != w.done[j].point)
            && (forall i, j :: 0 <= i < |w.done| && 0 <= j < |w.done| && w.done[i].ended <= w.done[j].call.begun ==>
                  w.done[i].point < w.done[j].point)
  {
    assert HistoryInv(cfg, n.rx, Resume(n));
    hide Run, Next, Legal, After;
    RunLinear(cfg, n.rx, Resume(n), steps);
    var w := Run(cfg, Resume(n), steps);
    forall i | 0 <= i < |w.done|
      ensures var r := w.done[i];
              && r.call.begun <= r.point < r.ended <= |w.ops|
              && w.ops[r.point] == OpenOp(r.call.packet, r.call.userAad, r.call.now, r.result)
    {
      assert ReturnInv(w.ops, w.done[i]);
    }
  }

  /** No interleaving lets two completed calls both accept one (node, epoch, sequence), whatever the process
      already remembered. */
  lemma NeverAcceptedTwice(cfg: Config, n: Node, known: seq<Op>, steps: seq<Step>, i: nat, j: nat)
    requires PeersTrack(n.rx, known) && AcceptedOnce(known)
    requires var w := Run(cfg, Resume(n), steps);
             && i < j < |w.done| && w.done[i].result.Ok? && w.done[j].result.Ok?
    ensures var w := Run(cfg, Resume(n), steps);
            var p, q := w.done[i].call.packet, w.done[j].call.packet;
            (p.nodeId, p.epoch, p.sequence) != (q.nodeId, q.epoch, q.sequence)
  {
    hide Run, Legal, After, PeersTrack;
    Linearisable(cfg, n, steps);
    var w := Run(cfg, Resume(n), steps);
    NoDoubleAccept(cfg, n.rx, known, w.ops);
    var all := known + w.ops;
    var a, b := |known| + w.done[i].point, |known| + w.done[j].point;
    assert all[a] == w.ops[w.done[i].point] && all[b] == w.ops[w.done[j].point];
    assert IdentityOf(all[a]) != IdentityOf(all[b]);
  }
}
