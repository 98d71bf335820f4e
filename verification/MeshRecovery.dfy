/** What a node keeps across crashes and restores: replay protection, its hash, and identities never reused. */
module MeshRecovery {
  import opened Words
  import opened Primitives
  import opened PacketCodec
  import opened MeshNode
  import opened MeshHistory
  import opened MeshRuns
  import opened MeshSealing
  import opened MeshCheckpoint
  import opened MeshLives

  lemma ReachableInv(base: Config, wrap: Bytes32, events: seq<Event>, m: Machine)
    requires base.aead.Sound() && Lives(base, wrap, POWERED_OFF, events, m)
    ensures MachineInv(base, wrap, m)
  {
    LivesKeep(base, wrap, POWERED_OFF, events, m);
  }

  // --------------------------------------------------------------------------
  // One lineage
  // --------------------------------------------------------------------------

  /** In every life the running process accepted no (node, epoch, sequence) twice in its whole lineage, over all
      restores; its hash continues over all of it; and its state can always be exported. */
  lemma LineageRemembered(base: Config, wrap: Bytes32, events: seq<Event>, m: Machine)
    requires base.aead.Sound() && Lives(base, wrap, POWERED_OFF, events, m) && m.process.Some?
    ensures var pr := m.process.value;
            && AcceptedOnce(Lineage(pr))
            && PeersTrack(pr.world.node.rx, Lineage(pr))
            && pr.world.node.rx.integrity == FoldAll(base.hash, Counted(Lineage(pr)))
            && Exportable(pr.world.node.rx)
  {
    ReachableInv(base, wrap, events, m);
    hide Lives, ProcessInv, DiskInv, AcceptedOnce, PeersTrack, FoldAll, Exportable;
    RemembersLineage(base, m.process.value);
  }

  /** Later checkpoints and later lives extend the history of an earlier checkpoint. */
  ghost predicate Extends(known: seq<Op>, m: Machine) {
    && m.newest.Some? && known <= m.newest.value.known
    && (m.process.Some? ==> known <= m.process.value.known)
  }

  lemma EventExtends(base: Config, wrap: Bytes32, m: Machine, e: Event, known: seq<Op>)
    requires base.aead.Sound() && MachineInv(base, wrap, m) && Enabled(base, m, e) && Extends(known, m)
    ensures Extends(known, Occur(wrap, m, e))
  {
    hide Restore, Export, Next, AllowedStep, Restores, Resume, ProcessInv, DiskInv;
    match e {
      case Start(cfg, bootEpoch) =>
        StartedInv(base, wrap, cfg, Node(bootEpoch, 0, EMPTY_RX), m.newest);
        hide Started;
      case RestoreNewest =>
        assert Kin(base, m.process.value.cfg) by {
          KinOf(base, m.process.value);
        }
        StartedInv(base, wrap, m.process.value.cfg, m.process.value.world.node, m.newest);
        hide Started;
      case _ =>
    }
  }

  lemma KinOf(base: Config, pr: Process)
    requires ProcessInv(base, pr)
    ensures Kin(base, pr.cfg)
  {}

  lemma {:induction false} LivesExtend(base: Config, wrap: Bytes32, m: Machine, events: seq<Event>, m': Machine,
                                       known: seq<Op>)
    requires base.aead.Sound() && MachineInv(base, wrap, m) && Lives(base, wrap, m, events, m') && Extends(known, m)
    ensures MachineInv(base, wrap, m') && Extends(known, m')
    decreases |events|
  {
    hide MachineInv, Occur, Extends;
    if events != [] {
      EventKeeps(base, wrap, m, events[0]);
      EventExtends(base, wrap, m, events[0], known);
      LivesExtend(base, wrap, Occur(wrap, m, events[0]), events[1..], m', known);
    }
  }

  /** Nothing accepted before a checkpoint is accepted by any completed call of any later life, however many
      crashes, restores and checkpoints come between. */
  lemma NothingAcceptedAgain(base: Config, wrap: Bytes32, before: seq<Event>, m: Machine, after: seq<Event>,
                             m': Machine, i: nat, j: nat)
    requires base.aead.Sound()
    requires Lives(base, wrap, POWERED_OFF, before, m) && m.process.None? && m.newest.Some?
    requires Lives(base, wrap, m, after, m') && m'.process.Some?
    requires i < |m.newest.value.known| && Accepts(m.newest.value.known[i])
    requires j < |m'.process.value.world.done| && m'.process.value.world.done[j].result.Ok?
    ensures var p, q := m.newest.value.known[i].packet, m'.process.value.world.done[j].call.packet;
            (p.nodeId, p.epoch, p.sequence) != (q.nodeId, q.epoch, q.sequence)
  {
    ReachableInv(base, wrap, before, m);
    var known := m.newest.value.known;
    LivesExtend(base, wrap, m, after, m', known);
    hide Lives, DiskInv;
    var pr := m'.process.value;
    RemembersLineage(base, pr);
    DoneAt(base, pr, j);
    assert AcceptedOnce(Lineage(pr));
    hide MachineInv, ProcessInv, Remembers, Exportable, BelowMax, AcceptedOnce;
    NewToLineage(pr, known, i, pr.world.done[j].point);
  }

  lemma NewToLineage(pr: Process, known: seq<Op>, i: nat, point: nat)
    requires AcceptedOnce(Lineage(pr)) && known <= pr.known && i < |known| && point < |pr.world.ops|
    requires Accepts(known[i]) && Accepts(pr.world.ops[point])
    ensures IdentityOf(known[i]) != IdentityOf(pr.world.ops[point])
  {
    var all := Lineage(pr);
    assert all[i] == known[i] && all[|pr.known| + point] == pr.world.ops[point];
  }

  lemma DoneAt(base: Config, pr: Process, j: nat)
    requires ProcessInv(base, pr) && j < |pr.world.done|
    ensures var r := pr.world.done[j];
            && r.point < |pr.world.ops|
            && pr.world.ops[r.point] == OpenOp(r.call.packet, r.call.userAad, r.call.now, r.result)
  {
    hide HistoryInv, FlightsInv, OriginInv, Remembers, BelowMax;
    assert ReturnInv(pr.world.ops, pr.world.done[j]);
  }

  // --------------------------------------------------------------------------
  // The restored node answers as the exporter would
  // --------------------------------------------------------------------------

  datatype Attempt = Attempt(packet: Packet, userAad: Bytes, now: u64)

  /** The operations that a list of open attempts amounts to, from a given state. */
  function Attempts(cfg: Config, rx: Rx, attempts: seq<Attempt>): (ops: seq<Op>)
    ensures |ops| == |attempts|
    decreases |attempts|
  {
    if attempts == [] then []
    else
      var a := attempts[0];
      var (rx', result) := AtomicOpen(cfg, rx, a.packet, a.userAad, a.now);
      [OpenOp(a.packet, a.userAad, a.now, result)] + Attempts(cfg, rx', attempts[1..])
  }

  lemma {:induction false} SameWindowsSameAttempts(cfg: Config, rx: Rx, rx': Rx, attempts: seq<Attempt>)
    requires SameWindows(rx, rx')
    ensures Attempts(cfg, rx, attempts) == Attempts(cfg, rx', attempts)
    decreases |attempts|
  {
    hide SameWindows, AtomicOpen;
    if attempts != [] {
      var a := attempts[0];
      SameFuture(cfg, rx, rx', a.packet, a.userAad, a.now);
      SameWindowsSameAttempts(cfg, AtomicOpen(cfg, rx, a.packet, a.userAad, a.now).0,
                              AtomicOpen(cfg, rx', a.packet, a.userAad, a.now).0, attempts[1..]);
    }
  }

  /** The newest checkpoint of any life restores into every process of the node, which then holds the exporter's
      hash and answers every list of opens, under its own configuration, as the exporter's state would. */
  lemma RestoreKeepsReplayProtection(base: Config, wrap: Bytes32, events: seq<Event>, m: Machine,
                                     cfg: Config, n: Node, attempts: seq<Attempt>)
    requires base.aead.Sound() && Lives(base, wrap, POWERED_OFF, events, m) && m.newest.Some? && Kin(base, cfg)
    ensures var d := m.newest.value;
            var (n', r) := Restore(cfg, n, d.blob, wrap);
            && r.Ok? && n'.rx.integrity == d.saved.rx.integrity && n'.txSeq == d.saved.txSeq
            && Attempts(cfg, n'.rx, attempts) == Attempts(cfg, d.saved.rx, attempts)
  {
    ReachableInv(base, wrap, events, m);
    hide Lives, ProcessInv, Remembers, BelowMax, Restore;
    var d := m.newest.value;
    assert Restores(wrap, d, cfg, n);
    RememberedExportable(base.hash, d.saved.rx, d.known);
    RestoredSameWindows(d.saved.rx);
    hide RestoredPeers, SameWindows, SentinelClash;
    SameWindowsSameAttempts(cfg, d.saved.rx, d.saved.rx.(peers := RestoredPeers(d.saved.rx.peers)), attempts);
  }

  // --------------------------------------------------------------------------
  // Identities
  // --------------------------------------------------------------------------

  /** The discipline: a process takes a checkpoint before its first seal, no ticket is drawn from an exhausted
      counter, and only a checkpoint whose epoch can still grow is restored. */
  ghost predicate Disciplined(m: Machine, e: Event) {
    match e
    case Start(_, _) => m.newest.Some? ==> m.newest.value.saved.epoch < U64_MAX
    case RestoreNewest => m.newest.Some? ==> m.newest.value.saved.epoch < U64_MAX
    case Act(step) =>
      m.process.Some? ==>
        && (step.LoadEpoch? ==> m.process.value.exported)
        && (step.DrawTicket? ==> m.process.value.world.node.txSeq != U64_MAX)
    case _ => true
  }

  ghost predicate DisciplinedLives(base: Config, wrap: Bytes32, m: Machine, events: seq<Event>)
    decreases |events|
  {
    events != [] ==>
      Enabled(base, m, events[0]) && Disciplined(m, events[0])
        && DisciplinedLives(base, wrap, Occur(wrap, m, events[0]), events[1..])
  }

  /** All packets the node has ever sealed. */
  function Sealed(m: Machine): seq<Packet> {
    m.past + SealedNow(m)
  }

  ghost predicate Distinct(ps: seq<Packet>) {
    forall i, j :: 0 <= i < j < |ps| ==> (ps[i].epoch, ps[i].sequence) != (ps[j].epoch, ps[j].sequence)
  }

  ghost predicate EpochsBelow(ps: seq<Packet>, bound: nat) {
    forall i :: 0 <= i < |ps| ==> ps[i].epoch < bound
  }

  ghost predicate NoSeals(w: World) {
    w.sealed == [] && forall t: nat :: !PcOf(w, t).SealLoaded? && !PcOf(w, t).SealTicketed?
  }

  ghost predicate IdentityInv(m: Machine) {
    && Distinct(m.past)
    && (m.newest.None? ==> m.past == [])
    && (m.newest.Some? ==> EpochsBelow(m.past, m.newest.value.saved.epoch + 1))
    && (m.process.Some? ==> SealsInv(m.process.value, m.newest, m.past))
  }

  ghost predicate SealsInv(pr: Process, newest: Option<Disk>, past: seq<Packet>) {
    var epoch := pr.world.node.epoch;
    && TicketInv(pr.cfg, epoch, pr.world) && EpochsBelow(past, epoch)
    && (pr.exported ==> newest.Some? && newest.value.saved.epoch == epoch)
    && (!pr.exported ==> NoSeals(pr.world) && (newest.Some? ==> newest.value.saved.epoch < epoch))
  }

  lemma ActSeals(pr: Process, newest: Option<Disk>, past: seq<Packet>, step: Step)
    requires SealsInv(pr, newest, past)
    requires (step.LoadEpoch? ==> pr.exported) && (step.DrawTicket? ==> pr.world.node.txSeq != U64_MAX)
    ensures SealsInv(pr.(world := Next(pr.cfg, pr.world, step)), newest, past)
  {
    hide EpochsBelow;
    StepTicket(pr.cfg, pr.world.node.epoch, pr.world, step);
    StepKeepsEpoch(pr.cfg, pr.world, step);
    hide TicketInv;
    if !pr.exported {
      StepNoSeals(pr.cfg, pr.world, step);
    }
    hide Next, NoSeals;
  }

  lemma StepKeepsEpoch(cfg: Config, w: World, step: Step)
    ensures Next(cfg, w, step).node.epoch == w.node.epoch
  {
    hide Accept, Authenticate, PreCheck, CheckPeers, Folded, SealPacket, Outcome, RemovePending;
  }

  lemma StepNoSeals(cfg: Config, w: World, step: Step)
    requires NoSeals(w) && !step.LoadEpoch?
    ensures NoSeals(Next(cfg, w, step))
  {
    hide Accept, Authenticate, PreCheck, CheckPeers, Folded, SealPacket, Outcome, RemovePending;
    var w' := Next(cfg, w, step);
    if !step.OtherNodeSeals? {
      assert !PcOf(w, step.thread).SealLoaded? && !PcOf(w, step.thread).SealTicketed?;
    }
    forall t: nat ensures !PcOf(w', t).SealLoaded? && !PcOf(w', t).SealTicketed? {
      assert !PcOf(w, t).SealLoaded? && !PcOf(w, t).SealTicketed?;
    }
  }

  /** The packets of a process that ends join those of the earlier ones. */
  lemma ProcessEnds(pr: Process, newest: Option<Disk>, past: seq<Packet>)
    requires SealsInv(pr, newest, past) && Distinct(past)
    ensures Distinct(past + pr.world.sealed)
    ensures newest.Some? && EpochsBelow(past, newest.value.saved.epoch + 1) ==>
              EpochsBelow(past + pr.world.sealed, newest.value.saved.epoch + 1)
    ensures newest.None? ==> pr.world.sealed == []
    ensures EpochsBelow(past + pr.world.sealed, pr.world.node.epoch + 1)
  {
    var all := past + pr.world.sealed;
    forall i, j | 0 <= i < j < |all| ensures (all[i].epoch, all[i].sequence) != (all[j].epoch, all[j].sequence) {
      if i < |past| <= j {
        assert all[i] == past[i] && all[j] == pr.world.sealed[j - |past|];
      } else if i >= |past| {
        assert all[i] == pr.world.sealed[i - |past|] && all[j] == pr.world.sealed[j - |past|];
      }
    }
  }

  /** A process that starts, or starts again from the newest checkpoint, is past every epoch used. */
  lemma StartSeals(base: Config, wrap: Bytes32, cfg: Config, n: Node, newest: Option<Disk>, past: seq<Packet>)
    requires Kin(base, cfg)
    requires newest.Some? ==> DiskInv(base, wrap, newest.value) && newest.value.saved.epoch < U64_MAX
    requires newest.None? ==> n.rx == EMPTY_RX && past == []
    requires newest.Some? ==> EpochsBelow(past, newest.value.saved.epoch + 1)
    ensures SealsInv(Started(cfg, wrap, n, newest), newest, past)
  {
    StartedInv(base, wrap, cfg, n, newest);
    hide Restore, DiskInv, ProcessInv;
    var pr := Started(cfg, wrap, n, newest);
    hide RestoredPeers;
    assert TicketInv(pr.cfg, pr.world.node.epoch, pr.world);
  }

  lemma EventIdentities(base: Config, wrap: Bytes32, m: Machine, e: Event)
    requires MachineInv(base, wrap, m) && Enabled(base, m, e) && Disciplined(m, e) && IdentityInv(m)
    ensures IdentityInv(Occur(wrap, m, e))
  {
    hide Restore, Export, ProcessInv, DiskInv, Next, AllowedStep, Distinct, NoSeals, TicketInv, Resume, Lists;
    match e {
      case Start(cfg, bootEpoch) =>
        StartSeals(base, wrap, cfg, Node(bootEpoch, 0, EMPTY_RX), m.newest, m.past);
        hide Started, SealsInv, EpochsBelow;
      case Act(step) =>
        ActSeals(m.process.value, m.newest, m.past, step);
        hide SealsInv, EpochsBelow;
      case TakeCheckpoint(order, nonce) =>
      case RestoreNewest =>
        var pr := m.process.value;
        KinOf(base, pr);
        ProcessEnds(pr, m.newest, m.past);
        StartSeals(base, wrap, pr.cfg, pr.world.node, m.newest, m.past + pr.world.sealed);
        hide Started, SealsInv, EpochsBelow;
      case Crash =>
        if m.process.Some? {
          ProcessEnds(m.process.value, m.newest, m.past);
        } else {
          assert m.past + [] == m.past;
        }
        hide SealsInv, EpochsBelow;
    }
  }

  lemma {:induction false} LivesIdentities(base: Config, wrap: Bytes32, m: Machine, events: seq<Event>, m': Machine)
    requires base.aead.Sound() && MachineInv(base, wrap, m) && IdentityInv(m)
    requires Lives(base, wrap, m, events, m') && DisciplinedLives(base, wrap, m, events)
    ensures IdentityInv(m')
    decreases |events|
  {
    hide MachineInv, Occur, IdentityInv, Disciplined;
    if events != [] {
      EventKeeps(base, wrap, m, events[0]);
      EventIdentities(base, wrap, m, events[0]);
      LivesIdentities(base, wrap, Occur(wrap, m, events[0]), events[1..], m');
    }
  }

  /** Over any number of lives, each with any number of threads, no (epoch, sequence) is sealed twice. */
  lemma NoIdentityReused(base: Config, wrap: Bytes32, events: seq<Event>, m: Machine)
    requires base.aead.Sound() && Lives(base, wrap, POWERED_OFF, events, m)
             && DisciplinedLives(base, wrap, POWERED_OFF, events)
    ensures Distinct(Sealed(m))
  {
    LivesIdentities(base, wrap, POWERED_OFF, events, m);
    hide Lives, DisciplinedLives;
    if m.process.Some? {
      ProcessEnds(m.process.value, m.newest, m.past);
    } else {
      assert Sealed(m) == m.past;
    }
  }

  // --------------------------------------------------------------------------
  // Keys and nonces over all lives
  // --------------------------------------------------------------------------

  /** Every process derives its keys from the same seed. */
  ghost predicate SameDerivation(base: Config, events: seq<Event>) {
    forall i :: 0 <= i < |events| && events[i].Start? ==> events[i].cfg.expand == base.expand
  }

  ghost predicate MadeInv(base: Config, m: Machine) {
    && AllMade(base, m.past)
    && (m.process.Some? ==>
          && Kin(base, m.process.value.cfg) && m.process.value.cfg.expand == base.expand
          && AllMade(base, m.process.value.world.sealed))
  }

  lemma KinMade(base: Config, cfg: Config, ps: seq<Packet>)
    requires Kin(base, cfg) && cfg.expand == base.expand
    ensures AllMade(base, ps) <==> AllMade(cfg, ps)
  {
    hide AadV3, PacketInfo;
    forall p, plaintext, userAad
      ensures SealedAs(base, p, plaintext, userAad) <==> SealedAs(cfg, p, plaintext, userAad) {}
    hide SealedAs;
    forall p ensures Made(base, p) <==> Made(cfg, p) {}
  }

  lemma EventMade(base: Config, wrap: Bytes32, m: Machine, e: Event)
    requires Enabled(base, m, e) && MadeInv(base, m) && (e.Start? ==> e.cfg.expand == base.expand)
    ensures MadeInv(base, Occur(wrap, m, e))
  {
    hide Restore, Export, Next, AllowedStep, Made;
    match e {
      case Act(step) =>
        var pr := m.process.value;
        KinMade(base, pr.cfg, pr.world.sealed);
        StepMade(pr.cfg, pr.world, step);
        KinMade(base, pr.cfg, Next(pr.cfg, pr.world, step).sealed);
      case _ =>
    }
  }

  lemma {:induction false} LivesMade(base: Config, wrap: Bytes32, m: Machine, events: seq<Event>, m': Machine)
    requires Lives(base, wrap, m, events, m') && MadeInv(base, m) && SameDerivation(base, events)
    ensures MadeInv(base, m')
    decreases |events|
  {
    hide Occur, MadeInv;
    if events != [] {
      EventMade(base, wrap, m, events[0]);
      assert SameDerivation(base, events[1..]) by {
        forall i | 0 <= i < |events[1..]| && events[1..][i].Start? ensures events[1..][i].cfg.expand == base.expand {
          assert events[1..][i] == events[i + 1];
        }
      }
      LivesMade(base, wrap, Occur(wrap, m, events[0]), events[1..], m');
    }
  }

  /** Over any number of lives under the discipline, every packet is the encryption under the key and nonce derived for
      it, and no two packets have both in common, unless HKDF collides on what was expanded for them. */
  lemma NoKeyAndNonceTwice(base: Config, wrap: Bytes32, events: seq<Event>, m: Machine, i: nat, j: nat)
    requires base.aead.Sound() && Lives(base, wrap, POWERED_OFF, events, m)
             && DisciplinedLives(base, wrap, POWERED_OFF, events)
    requires SameDerivation(base, events) && i < j < |Sealed(m)| && ExpandsApart(base, Sealed(m))
    ensures Made(base, Sealed(m)[i]) && Made(base, Sealed(m)[j])
    ensures KeyAndNonce(base, Sealed(m)[i]) != KeyAndNonce(base, Sealed(m)[j])
  {
    NoIdentityReused(base, wrap, events, m);
    LivesMade(base, wrap, POWERED_OFF, events, m);
    hide Lives, DisciplinedLives, Made, InfoOf, KeyAndNonce, SameDerivation;
    KeyAndNonceBind(base, Sealed(m)[i], Sealed(m)[j]);
  }

  /** The discipline is needed: two processes that restore one checkpoint, with none taken in between, both come up
      past its epoch, and unless one of them was booted further still, they seal their next packets under one and the
      same (epoch, sequence). */
  lemma SameCheckpointTwice(cfg: Config, saved: Node, order: seq<PeerKey>, wrap: Bytes32, nonce: Nonce, boot: u64,
                            boot': u64,
                            first: (Bytes, Bytes, u64), second: (Bytes, Bytes, u64))
    requires cfg.aead.Sound() && Lists(order, saved.rx.peers) && Export(cfg, saved, order, wrap, nonce).Ok?
    requires saved.txSeq < U64_MAX && saved.epoch < U64_MAX && boot <= saved.epoch + 1 && boot' <= saved.epoch + 1
    ensures var b := Export(cfg, saved, order, wrap, nonce).value;
            var (n, r) := Restore(cfg, Node(boot, 0, EMPTY_RX), b, wrap);
            var (n', r') := Restore(cfg, Node(boot', 0, EMPTY_RX), b, wrap);
            var p := SealRealtime(cfg, n, first.0, first.1, first.2).1;
            var q := SealRealtime(cfg, n', second.0, second.1, second.2).1;
            && r.Ok? && r'.Ok? && n.epoch > saved.epoch && n'.epoch > saved.epoch
            && (p.Ok? ==> (p.value.epoch, p.value.sequence) == (saved.epoch + 1, saved.txSeq))
            && (q.Ok? ==> (q.value.epoch, q.value.sequence) == (saved.epoch + 1, saved.txSeq))
  {
    hide Restore, Export;
    var b := Export(cfg, saved, order, wrap, nonce).value;
    var n, n' := Restore(cfg, Node(boot, 0, EMPTY_RX), b, wrap).0, Restore(cfg, Node(boot', 0, EMPTY_RX), b, wrap).0;
    RestoreOfExport(cfg, saved, order, wrap, nonce, cfg, Node(boot, 0, EMPTY_RX));
    RestoreOfExport(cfg, saved, order, wrap, nonce, cfg, Node(boot', 0, EMPTY_RX));
    SealsItsTicket(cfg, n, first.0, first.1, first.2);
    SealsItsTicket(cfg, n', second.0, second.1, second.2);
    hide SealRealtime, RestoredPeers;
  }

  lemma SealsItsTicket(cfg: Config, n: Node, plaintext: Bytes, userAad: Bytes, now: u64)
    requires n.txSeq < U64_MAX
    ensures var (n', r) := SealRealtime(cfg, n, plaintext, userAad, now);
            && n'.epoch == n.epoch && n'.txSeq == n.txSeq + 1
            && (r.Ok? ==> r.value.epoch == n.epoch && r.value.sequence == n.txSeq)
  {
    hide AadV3, PacketKey, PacketNonce, Folded;
    assert (n.txSeq + 1) % U64_LIMIT == n.txSeq + 1;
  }

  /** The epoch a restore comes up at moves past the saved one exactly when that leaves room, and is then the least one
      that does and is not below the current epoch; otherwise it is the last one. */
  lemma ResumedEpochIsLeast(current: u64, saved: u64, other: u64)
    ensures ResumedEpoch(current, saved) > saved <==> saved < U64_MAX
    ensures ResumedEpoch(current, saved) >= current
    ensures other >= current && other > saved ==> ResumedEpoch(current, saved) <= other
    ensures saved == U64_MAX ==> ResumedEpoch(current, saved) == U64_MAX
  {}
}
