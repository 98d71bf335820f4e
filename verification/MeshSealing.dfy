/** What the interleavings of MeshRuns guarantee about sealed packets: unique identities,
 *  an order-independent integrity hash, and acceptance of genuine packets only.
 */
module MeshSealing {
  import opened Words
  import opened PacketCodec
  import opened MeshNode
  import opened MeshHistory
  import opened MeshRuns

  // --------------------------------------------------------------------------
  // Integrity at rest
  // --------------------------------------------------------------------------

  function FoldPackets(ops: seq<Op>): seq<Packet> {
    if ops == [] then []
    else FoldPackets(ops[..|ops| - 1]) + (if ops[|ops| - 1].FoldOp? then [ops[|ops| - 1].packet] else [])
  }

  function AcceptedPackets(ops: seq<Op>): seq<Packet> {
    if ops == [] then []
    else AcceptedPackets(ops[..|ops| - 1]) + (if Accepts(ops[|ops| - 1]) then [ops[|ops| - 1].packet] else [])
  }

  /** The packets that completed calls accepted, in the order of their returns. */
  function Delivered(done: seq<Return>): seq<Packet> {
    if done == [] then []
    else Delivered(done[..|done| - 1]) + (if done[|done| - 1].result.Ok? then [done[|done| - 1].call.packet] else [])
  }

  lemma {:induction false} CountedSplits(ops: seq<Op>)
    ensures multiset(Counted(ops)) == multiset(FoldPackets(ops)) + multiset(AcceptedPackets(ops))
    decreases |ops|
  {
    if ops != [] {
      CountedSplits(ops[..|ops| - 1]);
    }
  }

  function Packets(pending: seq<(nat, Packet)>): seq<Packet> {
    if pending == [] then [] else [pending[0].1] + Packets(pending[1..])
  }

  lemma {:induction false} PacketsAppend(pending: seq<(nat, Packet)>, x: (nat, Packet))
    ensures Packets(pending + [x]) == Packets(pending) + [x.1]
    decreases |pending|
  {
    if pending != [] {
      PacketsAppend(pending[1..], x);
      assert (pending + [x])[1..] == pending[1..] + [x];
    }
  }

  ghost predicate DistinctThreads(pending: seq<(nat, Packet)>) {
    forall i, j :: 0 <= i < j < |pending| ==> pending[i].0 != pending[j].0
  }

  /** Removing a thread's only entry takes away exactly its packet. */
  lemma {:induction false} RemoveTakesOne(pending: seq<(nat, Packet)>, k: nat)
    requires k < |pending| && DistinctThreads(pending)
    ensures RemovePending(pending, pending[k].0) == pending[..k] + pending[k + 1..]
    ensures multiset(Packets(pending))
            == multiset(Packets(RemovePending(pending, pending[k].0))) + multiset{pending[k].1}
    decreases |pending|
  {
    if k > 0 {
      RemoveTakesOne(pending[1..], k - 1);
      assert pending[0].0 != pending[k].0;
      var rest := RemovePending(pending[1..], pending[k].0);
      assert RemovePending(pending, pending[k].0) == [pending[0]] + rest;
      assert ([pending[0]] + rest)[1..] == rest;
    }
  }

  /** `pending` lists the threads between encryption and fold. */
  ghost predicate PendingInv(w: World) {
    && DistinctThreads(w.pending)
    && (forall k :: 0 <= k < |w.pending| ==> PcOf(w, w.pending[k].0) == SealEncrypted(w.pending[k].1))
    && (forall t: nat :: PcOf(w, t).SealEncrypted? ==> Listed(w.pending, t))
  }

  ghost predicate Listed(pending: seq<(nat, Packet)>, t: nat) {
    exists k :: 0 <= k < |pending| && pending[k].0 == t
  }

  ghost predicate BalanceInv(w: World) {
    && multiset(w.sealed) == multiset(FoldPackets(w.ops)) + multiset(Packets(w.pending))
    && AcceptedPackets(w.ops) == Delivered(w.done)
  }

  lemma PendingKept(w: World, w': World)
    requires PendingInv(w) && w'.pending == w.pending
    requires forall t: nat :: PcOf(w, t).SealEncrypted? || PcOf(w', t).SealEncrypted? ==> PcOf(w', t) == PcOf(w, t)
    ensures PendingInv(w')
  {}

  lemma PendingAdded(w: World, w': World, t: nat, p: Packet)
    requires PendingInv(w) && !PcOf(w, t).SealEncrypted?
    requires w'.pending == w.pending + [(t, p)] && w'.threads == w.threads[t := SealEncrypted(p)]
    ensures PendingInv(w')
  {
    forall u: nat | PcOf(w', u).SealEncrypted? ensures Listed(w'.pending, u) {
      if u == t {
        assert w'.pending[|w.pending|].0 == u;
      } else {
        assert PcOf(w, u) == PcOf(w', u);
        var k :| 0 <= k < |w.pending| && w.pending[k].0 == u;
        assert w'.pending[k].0 == u;
      }
    }
  }

  lemma PendingDropped(w: World, w': World, t: nat, k: nat)
    requires PendingInv(w) && k < |w.pending| && w.pending[k].0 == t
    requires w'.pending == w.pending[..k] + w.pending[k + 1..] && w'.threads == w.threads[t := Idle]
    ensures PendingInv(w')
  {
    forall u: nat | PcOf(w', u).SealEncrypted? ensures Listed(w'.pending, u) {
      assert PcOf(w, u) == PcOf(w', u);
      var i :| 0 <= i < |w.pending| && w.pending[i].0 == u;
      assert w'.pending[if i < k then i else i - 1].0 == u;
    }
  }

  lemma StepPending(cfg: Config, w: World, step: Step)
    requires PendingInv(w)
    ensures PendingInv(Next(cfg, w, step))
  {
    hide Accept, Authenticate, PreCheck, CheckPeers, Folded, SealPacket, Outcome, RemovePending;
    var w' := Next(cfg, w, step);
    if step.FoldSealed? && PcOf(w, step.thread).SealEncrypted? {
      assert Listed(w.pending, step.thread);
      var k :| 0 <= k < |w.pending| && w.pending[k].0 == step.thread;
      RemoveTakesOne(w.pending, k);
      hide PendingInv;
      PendingDropped(w, w', step.thread, k);
    } else if w'.pending != w.pending {
      hide PendingInv;
      PendingAdded(w, w', step.thread, w'.sealed[|w.sealed|]);
    } else {
      hide PendingInv;
      PendingKept(w, w');
    }
  }

  lemma OpAppends(ops: seq<Op>, op: Op)
    ensures FoldPackets(ops + [op]) == if op.FoldOp? then FoldPackets(ops) + [op.packet] else FoldPackets(ops)
    ensures AcceptedPackets(ops + [op]) ==
            if Accepts(op) then AcceptedPackets(ops) + [op.packet] else AcceptedPackets(ops)
  {
    assert (ops + [op])[..|ops|] == ops;
  }

  lemma ReturnAppends(done: seq<Return>, r: Return)
    ensures Delivered(done + [r]) == if r.result.Ok? then Delivered(done) + [r.call.packet] else Delivered(done)
  {
    assert (done + [r])[..|done|] == done;
  }

  lemma FoldBalance(w: World, w': World, t: nat)
    requires PendingInv(w) && BalanceInv(w) && PcOf(w, t).SealEncrypted?
    requires w'.ops == w.ops + [FoldOp(PcOf(w, t).packet)] && w'.pending == RemovePending(w.pending, t)
    requires w'.sealed == w.sealed && w'.done == w.done
    ensures BalanceInv(w')
  {
    hide FoldPackets, AcceptedPackets, Delivered, Packets, RemovePending;
    assert Listed(w.pending, t);
    var k :| 0 <= k < |w.pending| && w.pending[k].0 == t;
    RemoveTakesOne(w.pending, k);
    OpAppends(w.ops, FoldOp(PcOf(w, t).packet));
  }

  lemma EncryptBalance(w: World, w': World, x: (nat, Packet))
    requires BalanceInv(w)
    requires w'.sealed == w.sealed + [x.1] && w'.pending == w.pending + [x] && w'.ops == w.ops && w'.done == w.done
    ensures BalanceInv(w')
  {
    PacketsAppend(w.pending, x);
    hide FoldPackets, AcceptedPackets, Delivered, Packets;
  }

  /** An open that takes effect and returns in one step. */
  lemma OpenBalance(w: World, w': World, op: Op, r: Return)
    requires BalanceInv(w) && w'.sealed == w.sealed && w'.pending == w.pending
    requires w'.ops == w.ops + [op] && op.OpenOp?
    requires w'.done == w.done + [r] && r.result == op.result && r.call.packet == op.packet
    ensures BalanceInv(w')
  {
    OpAppends(w.ops, op);
    ReturnAppends(w.done, r);
    hide FoldPackets, AcceptedPackets, Delivered, Packets;
  }

  lemma StepBalance(cfg: Config, w: World, step: Step)
    requires PendingInv(w) && BalanceInv(w)
    ensures BalanceInv(Next(cfg, w, step))
  {
    hide Accept, Authenticate, PreCheck, CheckPeers, Folded, SealPacket, Outcome, FoldPackets, AcceptedPackets;
    hide Delivered, Packets, RemovePending;
    hide PendingInv;
    var w' := Next(cfg, w, step);
    match step {
      case FoldSealed(t) =>
        if PcOf(w, t).SealEncrypted? {
          FoldBalance(w, w', t);
        }
      case Encrypt(t) =>
        if w' != w && |w'.sealed| > |w.sealed| {
          EncryptBalance(w, w', (t, w'.sealed[|w.sealed|]));
        }
      case BeginOpen(t, p, userAad, now) =>
        if |w'.done| > |w.done| {
          OpenBalance(w, w', w'.ops[|w.ops|], w'.done[|w.done|]);
        } else if |w'.ops| > |w.ops| {
          OpAppends(w.ops, w'.ops[|w.ops|]);
        }
      case Decrypt(t) =>
        if |w'.done| > |w.done| {
          ReturnAppends(w.done, w'.done[|w.done|]);
        }
      case CommitOpen(t) =>
        if |w'.done| > |w.done| {
          OpenBalance(w, w', w'.ops[|w.ops|], w'.done[|w.done|]);
        }
      case _ =>
    }
  }

  lemma {:induction false} RunBalance(cfg: Config, w: World, steps: seq<Step>)
    requires PendingInv(w) && BalanceInv(w)
    ensures PendingInv(Run(cfg, w, steps)) && BalanceInv(Run(cfg, w, steps))
    decreases |steps|
  {
    hide PendingInv, BalanceInv, Next;
    if steps != [] {
      StepPending(cfg, w, steps[0]);
      StepBalance(cfg, w, steps[0]);
      RunBalance(cfg, Next(cfg, w, steps[0]), steps[1..]);
    }
  }

  /** No thread is between encrypting a packet and folding it. */
  ghost predicate AtRest(w: World) {
    forall t: nat :: !PcOf(w, t).SealEncrypted?
  }

  lemma NothingPending(w: World)
    requires PendingInv(w) && AtRest(w)
    ensures w.pending == []
  {
    FirstPending(w);
  }

  lemma FirstPending(w: World)
    requires PendingInv(w)
    ensures w.pending != [] ==> PcOf(w, w.pending[0].0).SealEncrypted?
  {}

  lemma {:induction false} CountedConcat(known: seq<Op>, ops: seq<Op>)
    ensures Counted(known + ops) == Counted(known) + Counted(ops)
    decreases |ops|
  {
    if ops == [] {
      assert known + ops == known;
    } else {
      var all := known + ops;
      assert all[..|all| - 1] == known + ops[..|ops| - 1] && all[|all| - 1] == ops[|ops| - 1];
      CountedConcat(known, ops[..|ops| - 1]);
    }
  }

  /** At rest the hash is the XOR of the digests of all packets remembered at the start, all sealed and all
      accepted since, whatever the interleaving. */
  lemma IntegrityAtRest(cfg: Config, n: Node, known: seq<Op>, steps: seq<Step>)
    requires n.rx.integrity == FoldAll(cfg.hash, Counted(known)) && AtRest(Run(cfg, Resume(n), steps))
    ensures var w := Run(cfg, Resume(n), steps);
            w.node.rx.integrity == FoldAll(cfg.hash, Counted(known) + (w.sealed + Delivered(w.done)))
  {
    RunBalance(cfg, Resume(n), steps);
    hide Run, Next;
    Linearisable(cfg, n, steps);
    var w := Run(cfg, Resume(n), steps);
    CountedAtRest(w);
    hide FoldAll, Counted, AtRest, PendingInv, BalanceInv, Delivered, Legal, After;
    IntegrityIsFold(cfg, n.rx, known, w.ops);
    CountedConcat(known, w.ops);
    FoldAllPermutes(cfg.hash, Counted(known) + Counted(w.ops), Counted(known) + (w.sealed + Delivered(w.done)));
  }

  lemma CountedAtRest(w: World)
    requires PendingInv(w) && BalanceInv(w) && AtRest(w)
    ensures multiset(Counted(w.ops)) == multiset(w.sealed + Delivered(w.done))
  {
    NothingPending(w);
    CountedSplits(w.ops);
    hide AtRest, PendingInv, Counted, FoldPackets, AcceptedPackets, Delivered;
  }

  /** Two fresh nodes at rest that each accepted exactly what the other sealed hold equal hashes. */
  lemma EqualIntegrity(cfg: Config, epoch: u64, steps: seq<Step>, cfg': Config, epoch': u64, steps': seq<Step>)
    requires cfg.hash == cfg'.hash
    requires var w, w' := Run(cfg, Boot(epoch), steps), Run(cfg', Boot(epoch'), steps');
             && AtRest(w) && AtRest(w')
             && multiset(Delivered(w.done)) == multiset(w'.sealed)
             && multiset(Delivered(w'.done)) == multiset(w.sealed)
    ensures Run(cfg, Boot(epoch), steps).node.rx.integrity == Run(cfg', Boot(epoch'), steps').node.rx.integrity
  {
    assert Counted([]) == [] && FoldAll(cfg.hash, []) == ZERO32;
    hide Run, AtRest, FoldAll, Counted;
    IntegrityAtRest(cfg, Node(epoch, 0, EMPTY_RX), [], steps);
    IntegrityAtRest(cfg', Node(epoch', 0, EMPTY_RX), [], steps');
    var w, w' := Run(cfg, Boot(epoch), steps), Run(cfg', Boot(epoch'), steps');
    FoldAllPermutes(cfg.hash, [] + (w.sealed + Delivered(w.done)), [] + (w'.sealed + Delivered(w'.done)));
  }

  // --------------------------------------------------------------------------
  // Unique identities
  // --------------------------------------------------------------------------

  /** No ticket is drawn once the counter holds its last value. */
  ghost predicate Unwrapped(cfg: Config, w: World, steps: seq<Step>)
    decreases |steps|
  {
    steps != [] ==>
      (steps[0].DrawTicket? ==> w.node.txSeq != U64_MAX) && Unwrapped(cfg, Next(cfg, w, steps[0]), steps[1..])
  }

  /** Thread `t` holds ticket `sequence`. */
  ghost predicate Holds(w: World, t: nat, sequence: nat) {
    PcOf(w, t).SealTicketed? && PcOf(w, t).sequence == sequence
  }

  /** A seal in flight uses `epoch`. */
  ghost predicate SealsAt(w: World, t: nat, epoch: u64) {
    PcOf(w, t).SealLoaded? || PcOf(w, t).SealTicketed? ==> PcOf(w, t).epoch == epoch
  }

  ghost predicate TicketInv(cfg: Config, epoch: u64, w: World) {
    && w.node.epoch == epoch
    && (forall i :: 0 <= i < |w.sealed| ==>
          w.sealed[i].nodeId == cfg.nodeId && w.sealed[i].epoch == epoch && w.sealed[i].sequence < w.node.txSeq)
    && (forall i, j :: 0 <= i < j < |w.sealed| ==> w.sealed[i].sequence != w.sealed[j].sequence)
    && (forall t: nat :: SealsAt(w, t, epoch))
    && (forall t: nat, s: nat :: Holds(w, t, s) ==> s < w.node.txSeq)
    && (forall t: nat, u: nat, s: nat :: Holds(w, t, s) && Holds(w, u, s) ==> t == u)
    && (forall i, t: nat, s: nat :: 0 <= i < |w.sealed| && Holds(w, t, s) ==> w.sealed[i].sequence != s)
  }

  lemma SealedTicket(cfg: Config, epoch: u64, w: World, step: Step)
    requires TicketInv(cfg, epoch, w) && step.Encrypt? && |Next(cfg, w, step).sealed| > |w.sealed|
    ensures TicketInv(cfg, epoch, Next(cfg, w, step))
  {
    hide Folded, AadV3, PacketKey, PacketNonce;
    var w' := Next(cfg, w, step);
    forall t: nat ensures SealsAt(w', t, epoch) {
      assert SealsAt(w, t, epoch);
    }
    assert w'.sealed == w.sealed + [w'.sealed[|w.sealed|]];
    assert SealsAt(w, step.thread, epoch);
    assert Holds(w, step.thread, w'.sealed[|w.sealed|].sequence);
    hide SealsAt;
    forall t: nat, s: nat | Holds(w', t, s) ensures Holds(w, t, s) && t != step.thread {}
  }

  lemma StepTicket(cfg: Config, epoch: u64, w: World, step: Step)
    requires TicketInv(cfg, epoch, w) && (step.DrawTicket? ==> w.node.txSeq != U64_MAX)
    ensures TicketInv(cfg, epoch, Next(cfg, w, step))
  {
    hide Accept, Authenticate, PreCheck, CheckPeers, Folded, RemovePending, Outcome, AadV3, PacketKey, PacketNonce;
    var w' := Next(cfg, w, step);
    if step.Encrypt? && |w'.sealed| > |w.sealed| {
      SealedTicket(cfg, epoch, w, step);
      hide Next, TicketInv;
    } else {
      forall t: nat ensures SealsAt(w', t, epoch) {
        assert SealsAt(w, t, epoch);
      }
      assert w'.sealed == w.sealed;
      assert step.DrawTicket? ==> (w.node.txSeq + 1) % U64_LIMIT == w.node.txSeq + 1;
      hide SealPacket, SealsAt;
      forall t: nat, s: nat | Holds(w', t, s)
        ensures Holds(w, t, s) || (step.DrawTicket? && t == step.thread && s == w.node.txSeq)
      {}
    }
  }

  lemma {:induction false} RunTicket(cfg: Config, epoch: u64, w: World, steps: seq<Step>)
    requires TicketInv(cfg, epoch, w) && Unwrapped(cfg, w, steps)
    ensures TicketInv(cfg, epoch, Run(cfg, w, steps))
    decreases |steps|
  {
    hide TicketInv, Next;
    if steps != [] {
      StepTicket(cfg, epoch, w, steps[0]);
      RunTicket(cfg, epoch, Next(cfg, w, steps[0]), steps[1..]);
    }
  }

  /** Until the counter wraps, no two packets one process seals share (epoch, sequence), however many threads seal. */
  lemma UniqueIdentities(cfg: Config, n: Node, steps: seq<Step>, i: nat, j: nat)
    requires Unwrapped(cfg, Resume(n), steps) && i < j < |Run(cfg, Resume(n), steps).sealed|
    ensures var sealed := Run(cfg, Resume(n), steps).sealed;
            (sealed[i].epoch, sealed[i].sequence) != (sealed[j].epoch, sealed[j].sequence)
  {
    RunTicket(cfg, n.epoch, Resume(n), steps);
  }

  /** Two threads that begin to seal, one after the other. */
  function TwoTickets(t: nat, u: nat, plaintext: Bytes, userAad: Bytes, now: u64): seq<Step> {
    [LoadEpoch(t, plaintext, userAad, now), DrawTicket(t), LoadEpoch(u, plaintext, userAad, now), DrawTicket(u)]
  }

  /** The last ticket is refused, but the counter restarts. */
  lemma WrapRestartsTickets(cfg: Config, w: World, t: nat, u: nat, plaintext: Bytes, userAad: Bytes, now: u64)
    requires w.node.txSeq == U64_MAX && PcOf(w, t).Idle? && PcOf(w, u).Idle? && t != u
    ensures var w' := Run(cfg, w, TwoTickets(t, u, plaintext, userAad, now));
            && PcOf(w', t).Idle? && w'.node.txSeq == 1 && w'.sealed == w.sealed
            && PcOf(w', u) == SealTicketed(plaintext, userAad, now, w.node.epoch, 0)
  {
    var steps := TwoTickets(t, u, plaintext, userAad, now);
    var w1 := Next(cfg, w, steps[0]);
    var w2 := Next(cfg, w1, steps[1]);
    var w3 := Next(cfg, w2, steps[2]);
    assert Run(cfg, w, steps) == Run(cfg, w1, steps[1..]) == Run(cfg, w2, steps[1..][1..])
           == Run(cfg, w3, steps[1..][1..][1..]);
    assert steps[1..][1..] == steps[2..] && steps[2..][1..] == steps[3..];
    assert Run(cfg, w3, steps[3..]) == Next(cfg, w3, steps[3]);
  }

  /** The side condition is needed: once the counter has wrapped, a second packet is sealed under the identity of the
      first one of the epoch. */
  lemma WrapRepeatsIdentity(cfg: Config, w: World, i: nat, t: nat, u: nat, plaintext: Bytes, userAad: Bytes, now: u64)
    requires w.node.txSeq == U64_MAX && PcOf(w, t).Idle? && PcOf(w, u).Idle? && t != u
    requires i < |w.sealed| && w.sealed[i].epoch == w.node.epoch && w.sealed[i].sequence == 0
    requires SealPacket(cfg, w.node.epoch, 0, now, plaintext, userAad).Ok?
    ensures var sealed := Run(cfg, w, TwoTickets(t, u, plaintext, userAad, now) + [Encrypt(u)]).sealed;
            && |sealed| == |w.sealed| + 1 && sealed[i] == w.sealed[i]
            && (sealed[i].epoch, sealed[i].sequence) == (sealed[|w.sealed|].epoch, sealed[|w.sealed|].sequence)
  {
    WrapRestartsTickets(cfg, w, t, u, plaintext, userAad, now);
    var steps := TwoTickets(t, u, plaintext, userAad, now);
    hide Next;
    RunAppend(cfg, w, steps, Encrypt(u));
    SealsUnder(cfg, w.node.epoch, 0, now, plaintext, userAad);
    hide Run, SealPacket;
    EncryptAdds(cfg, Run(cfg, w, steps), u);
  }

  lemma {:induction false} RunAppend(cfg: Config, w: World, steps: seq<Step>, last: Step)
    ensures Run(cfg, w, steps + [last]) == Next(cfg, Run(cfg, w, steps), last)
    decreases |steps|
  {
    hide Next;
    if steps == [] {
      assert [last][1..] == [];
    } else {
      RunAppend(cfg, Next(cfg, w, steps[0]), steps[1..], last);
      assert (steps + [last])[1..] == steps[1..] + [last];
    }
  }

  lemma EncryptAdds(cfg: Config, w: World, t: nat)
    requires PcOf(w, t).SealTicketed?
    requires var pc := PcOf(w, t); SealPacket(cfg, pc.epoch, pc.sequence, pc.now, pc.plaintext, pc.userAad).Ok?
    ensures var pc := PcOf(w, t);
            Next(cfg, w, Encrypt(t)).sealed
              == w.sealed + [SealPacket(cfg, pc.epoch, pc.sequence, pc.now, pc.plaintext, pc.userAad).value]
  {
    hide SealPacket;
  }

  lemma SealsUnder(cfg: Config, epoch: u64, sequence: u64, now: u64, plaintext: Bytes, userAad: Bytes)
    requires SealPacket(cfg, epoch, sequence, now, plaintext, userAad).Ok?
    ensures var p := SealPacket(cfg, epoch, sequence, now, plaintext, userAad).value;
            p.nodeId == cfg.nodeId && p.epoch == epoch && p.sequence == sequence
  {
    hide AadV3, PacketKey, PacketNonce;
  }

  // --------------------------------------------------------------------------
  // Sealing without interleaving
  // --------------------------------------------------------------------------

  /** One thread's whole seal. */
  function WholeSeal(t: nat, plaintext: Bytes, userAad: Bytes, now: u64): seq<Step> {
    [LoadEpoch(t, plaintext, userAad, now), DrawTicket(t), Encrypt(t), FoldSealed(t)]
  }

  /** A seal whose steps are not interleaved with others is the indivisible one: it leaves that node, and on success one
      more packet sealed and folded. */
  lemma SealAlone(cfg: Config, w: World, t: nat, plaintext: Bytes, userAad: Bytes, now: u64)
    requires PcOf(w, t).Idle? && PendingInv(w)
    ensures var w' := Run(cfg, w, WholeSeal(t, plaintext, userAad, now));
            var (n, r) := SealRealtime(cfg, w.node, plaintext, userAad, now);
            && w'.node == n && w'.done == w.done && w'.pending == w.pending
            && w'.sealed == w.sealed + (if r.Ok? then [r.value] else [])
            && w'.ops == w.ops + (if r.Ok? then [FoldOp(r.value)] else [])
            && forall u: nat :: PcOf(w', u) == PcOf(w, u)
  {
    hide SealPacket, Folded;
    var steps := WholeSeal(t, plaintext, userAad, now);
    var w1 := Next(cfg, w, steps[0]);
    var w2 := Next(cfg, w1, steps[1]);
    var w3 := Next(cfg, w2, steps[2]);
    FourSteps(cfg, w, steps[0], steps[1], steps[2], steps[3]);
    hide Run;
    if PcOf(w2, t).SealTicketed? && w3.pending != w.pending {
      NotListed(w.pending, t, w3.pending[|w.pending|].1) by {
        forall k | 0 <= k < |w.pending| ensures w.pending[k].0 != t {}
      }
      assert w3.pending == w.pending + [(t, w3.pending[|w.pending|].1)];
    }
    hide RemovePending, PendingInv;
    assert w.sealed + [] == w.sealed && w.ops + [] == w.ops;
  }

  lemma FourSteps(cfg: Config, w: World, a: Step, b: Step, c: Step, d: Step)
    ensures Run(cfg, w, [a, b, c, d]) == Next(cfg, Next(cfg, Next(cfg, Next(cfg, w, a), b), c), d)
  {
    hide Next;
    var w1 := Next(cfg, w, a);
    var w2 := Next(cfg, w1, b);
    var w3 := Next(cfg, w2, c);
    assert [a, b, c, d][1..] == [b, c, d];
    assert Run(cfg, w, [a, b, c, d]) == Run(cfg, w1, [b, c, d]);
    assert [b, c, d][1..] == [c, d];
    assert Run(cfg, w1, [b, c, d]) == Run(cfg, w2, [c, d]);
    assert [c, d][1..] == [d];
    assert Run(cfg, w2, [c, d]) == Run(cfg, w3, [d]);
    assert [d][1..] == [];
    assert Run(cfg, w3, [d]) == Run(cfg, Next(cfg, w3, d), []);
  }

  lemma {:induction false} NotListed(pending: seq<(nat, Packet)>, t: nat, p: Packet)
    requires forall k :: 0 <= k < |pending| ==> pending[k].0 != t
    ensures RemovePending(pending + [(t, p)], t) == pending
    decreases |pending|
  {
    var all := pending + [(t, p)];
    if pending == [] {
      assert all[1..] == [];
    } else {
      assert all[1..] == pending[1..] + [(t, p)];
      NotListed(pending[1..], t, p);
    }
  }

  // --------------------------------------------------------------------------
  // Keys and nonces
  // --------------------------------------------------------------------------

  /** A packet some call of this node's sealed. */
  ghost predicate Made(cfg: Config, p: Packet) {
    exists plaintext, userAad :: SealedAs(cfg, p, plaintext, userAad)
  }

  ghost predicate AllMade(cfg: Config, ps: seq<Packet>) {
    forall i :: 0 <= i < |ps| ==> Made(cfg, ps[i])
  }

  lemma StepMade(cfg: Config, w: World, step: Step)
    requires AllMade(cfg, w.sealed)
    ensures AllMade(cfg, Next(cfg, w, step).sealed)
  {
    hide Accept, Authenticate, PreCheck, CheckPeers, Folded, SealPacket, Outcome, RemovePending, SealedAs;
    var w' := Next(cfg, w, step);
    if w'.sealed != w.sealed {
      var pc := PcOf(w, step.thread);
      var p := SealPacket(cfg, pc.epoch, pc.sequence, pc.now, pc.plaintext, pc.userAad).value;
      SealsWhat(cfg, pc.epoch, pc.sequence, pc.now, pc.plaintext, pc.userAad);
      assert w'.sealed == w.sealed + [p] && Made(cfg, p);
    }
  }

  lemma {:induction false} RunMade(cfg: Config, w: World, steps: seq<Step>)
    requires AllMade(cfg, w.sealed)
    ensures AllMade(cfg, Run(cfg, w, steps).sealed)
    decreases |steps|
  {
    hide AllMade, Next;
    if steps != [] {
      StepMade(cfg, w, steps[0]);
      RunMade(cfg, Next(cfg, w, steps[0]), steps[1..]);
    }
  }

  /** HKDF does not collide on what was expanded for these packets. */
  ghost predicate ExpandsApart(cfg: Config, ps: seq<Packet>) {
    forall i, j :: 0 <= i < |ps| && 0 <= j < |ps| && cfg.expand(InfoOf(ps[i])) == cfg.expand(InfoOf(ps[j])) ==>
      InfoOf(ps[i]) == InfoOf(ps[j])
  }

  /** However many threads seal, until the counter wraps every packet is the encryption under the key and nonce derived
      for it, and no two packets have both in common. */
  lemma NoKeyAndNonceTwice(cfg: Config, n: Node, steps: seq<Step>, i: nat, j: nat)
    requires Unwrapped(cfg, Resume(n), steps) && i < j < |Run(cfg, Resume(n), steps).sealed|
    requires ExpandsApart(cfg, Run(cfg, Resume(n), steps).sealed)
    ensures var sealed := Run(cfg, Resume(n), steps).sealed;
            && Made(cfg, sealed[i]) && Made(cfg, sealed[j])
            && KeyAndNonce(cfg, sealed[i]) != KeyAndNonce(cfg, sealed[j])
  {
    RunMade(cfg, Resume(n), steps);
    UniqueIdentities(cfg, n, steps, i, j);
    hide Run, Made, InfoOf, KeyAndNonce, Unwrapped;
    var sealed := Run(cfg, Resume(n), steps).sealed;
    KeyAndNonceBind(cfg, sealed[i], sealed[j]);
  }

  // --------------------------------------------------------------------------
  // Genuine packets only
  // --------------------------------------------------------------------------

  /** The authenticity assumption along a run: opened packets come from the mesh, and so do the others' seals. */
  ghost predicate AllowedStep(cfg: Config, w: World, step: Step) {
    && (step.BeginOpen? ==> Authentic(cfg, w.origins, step.packet, step.userAad))
    && (step.OtherNodeSeals? ==> Genuine(cfg, step.origin))
  }

  ghost predicate Allowed(cfg: Config, w: World, steps: seq<Step>)
    decreases |steps|
  {
    steps != [] ==> AllowedStep(cfg, w, steps[0]) && Allowed(cfg, Next(cfg, w, steps[0]), steps[1..])
  }

  ghost predicate FromMesh(cfg: Config, origins: set<Origin>, p: Packet, message: Bytes) {
    exists o :: o in origins && Genuine(cfg, o) && o.packet == p && o.plaintext == message
  }

  ghost predicate OriginInv(cfg: Config, w: World) {
    && (forall i :: 0 <= i < |w.ops| && Accepts(w.ops[i]) ==>
        FromMesh(cfg, w.origins, w.ops[i].packet, w.ops[i].result.value))
    && (forall t: nat :: FlightGenuine(cfg, w, t))
  }

  /** What is known of a call in flight. */
  ghost predicate FlightGenuine(cfg: Config, w: World, t: nat) {
    match PcOf(w, t)
    case OpenChecked(call, _) =>
      call.packet.version == WIRE_VERSION_V3 && Authentic(cfg, w.origins, call.packet, call.userAad)
    case OpenAuthed(call, message) => FromMesh(cfg, w.origins, call.packet, message)
    case SealTicketed(_, _, _, _, sequence) => sequence < U64_MAX
    case _ => true
  }

  lemma MoreOrigins(cfg: Config, origins: set<Origin>, origins': set<Origin>)
    requires origins <= origins'
    ensures forall p, m :: FromMesh(cfg, origins, p, m) ==> FromMesh(cfg, origins', p, m)
    ensures forall p, u :: Authentic(cfg, origins, p, u) ==> Authentic(cfg, origins', p, u)
  {
    hide Genuine, OriginEntry, Authenticate, AadV3, PacketKey;
  }

  lemma DecryptedFromMesh(cfg: Config, origins: set<Origin>, p: Packet, userAad: Bytes)
    requires p.version == WIRE_VERSION_V3 && Authentic(cfg, origins, p, userAad) && Authenticate(cfg, p, userAad).Ok?
    ensures FromMesh(cfg, origins, p, Authenticate(cfg, p, userAad).value)
  {
    var o := OpenedOrigin(cfg, origins, p, userAad);
    hide Genuine, OriginEntry, Authenticate;
  }

  lemma StepOrigins(cfg: Config, w: World, step: Step)
    requires OriginInv(cfg, w) && AllowedStep(cfg, w, step)
    ensures OriginInv(cfg, Next(cfg, w, step))
  {
    hide Accept, Authenticate, CheckPeers, Folded, SealPacket, RemovePending, FromMesh, Authentic, Genuine;
    var w' := Next(cfg, w, step);
    MoreOrigins(cfg, w.origins, w'.origins);
    StepOps(cfg, w, step);
    if !step.OtherNodeSeals? {
      assert FlightGenuine(cfg, w, step.thread);
    }
    if step.Decrypt? && PcOf(w, step.thread).OpenChecked? {
      var call := PcOf(w, step.thread).call;
      if Authenticate(cfg, call.packet, call.userAad).Ok? {
        DecryptedFromMesh(cfg, w.origins, call.packet, call.userAad);
      }
    }
    forall i | 0 <= i < |w'.ops| && Accepts(w'.ops[i])
      ensures FromMesh(cfg, w'.origins, w'.ops[i].packet, w'.ops[i].result.value) {
      if i < |w.ops| {
        assert w'.ops[i] == w.ops[i];
      }
    }
    forall t: nat ensures FlightGenuine(cfg, w', t) {
      assert FlightGenuine(cfg, w, t);
    }
  }

  lemma {:induction false} RunOrigins(cfg: Config, w: World, steps: seq<Step>)
    requires OriginInv(cfg, w) && Allowed(cfg, w, steps)
    ensures OriginInv(cfg, Run(cfg, w, steps))
    decreases |steps|
  {
    hide OriginInv, AllowedStep, Next;
    if steps != [] {
      StepOrigins(cfg, w, steps[0]);
      RunOrigins(cfg, Next(cfg, w, steps[0]), steps[1..]);
    }
  }

  /** Every accepted packet is, field by field, one a node of the mesh sealed, and yields its plaintext. */
  lemma AcceptsGenuineOnly(cfg: Config, n: Node, steps: seq<Step>, i: nat)
    requires Allowed(cfg, Resume(n), steps)
    requires i < |Run(cfg, Resume(n), steps).done| && Run(cfg, Resume(n), steps).done[i].result.Ok?
    ensures var w := Run(cfg, Resume(n), steps);
            FromMesh(cfg, w.origins, w.done[i].call.packet, w.done[i].result.value)
  {
    RunOrigins(cfg, Resume(n), steps);
    hide Run, Legal, After, FromMesh, Authentic;
    Linearisable(cfg, n, steps);
    var w := Run(cfg, Resume(n), steps);
    assert Accepts(w.ops[w.done[i].point]);
  }

  // --------------------------------------------------------------------------
  // The checkpoint's sentinel is free
  // --------------------------------------------------------------------------

  /** Every stored window has a highest sequence, and it is never the last u64. */
  ghost predicate Exportable(rx: Rx) {
    forall key :: key in rx.peers ==> rx.peers[key].window.highest.Some? && rx.peers[key].window.highest.value < U64_MAX
  }

  /** No packet with the last sequence was accepted. */
  ghost predicate BelowMax(ops: seq<Op>) {
    forall i :: 0 <= i < |ops| && Accepts(ops[i]) ==> ops[i].packet.sequence < U64_MAX
  }

  lemma {:induction false} AcceptedBelowMax(ops: seq<Op>, key: PeerKey, s: nat)
    requires BelowMax(ops) && s in AcceptedOf(ops, key)
    ensures s < U64_MAX
    decreases |ops|
  {
    var init := ops[..|ops| - 1];
    if s in AcceptedOf(init, key) {
      AcceptedBelowMax(init, key, s);
    }
  }

  lemma GenuineBelowMax(cfg: Config, w: World)
    requires OriginInv(cfg, w)
    ensures BelowMax(w.ops)
  {
    hide AadV3, PacketKey, PacketNonce, FlightGenuine;
    forall i | 0 <= i < |w.ops| && Accepts(w.ops[i]) ensures w.ops[i].packet.sequence < U64_MAX {
      assert FromMesh(cfg, w.origins, w.ops[i].packet, w.ops[i].result.value);
    }
  }

  lemma TrackedExportable(rx: Rx, known: seq<Op>)
    requires PeersTrack(rx, known) && BelowMax(known)
    ensures Exportable(rx)
  {
    hide AcceptedOf, BelowMax;
    forall key | key in rx.peers
      ensures rx.peers[key].window.highest.Some? && rx.peers[key].window.highest.value < U64_MAX
    {
      assert PeerTracks(rx, key, AcceptedOf(known, key));
      AcceptedBelowMax(known, key, rx.peers[key].window.highest.value);
    }
  }
}
