/** Lives of one node: starts, concurrent seals and opens, checkpoints at any moment, crashes and restores,
 *  any number of each.
 */
module MeshLives {
  import opened Words
  import opened Primitives
  import opened PacketCodec
  import opened MeshNode
  import opened MeshHistory
  import opened MeshRuns
  import opened MeshSealing
  import opened MeshCheckpoint

  /** A checkpoint on disk, with the state and the history it was taken of. */
  datatype Disk = Disk(blob: Bytes, saved: Node, known: seq<Op>)

  /** One process: the state it started from, the history that state remembered, and what its threads have done
      since. `exported` says whether it has taken a checkpoint yet. */
  datatype Process = Process(cfg: Config, start: Node, known: seq<Op>, world: World, exported: bool)

  /** `past` are the packets sealed by processes that are gone. */
  datatype Machine = Machine(process: Option<Process>, newest: Option<Disk>, past: seq<Packet>)

  datatype Event =
    | Start(cfg: Config, bootEpoch: u64)
    | Act(step: Step)
    | TakeCheckpoint(order: seq<PeerKey>, nonce: Nonce)
    | RestoreNewest
    | Crash

  const POWERED_OFF: Machine := Machine(None, None, [])

  /** Configurations of one node id, context and set of primitives; time drift and derived keys may differ. */
  ghost predicate Kin(base: Config, cfg: Config) {
    cfg.aead == base.aead && cfg.hash == base.hash && cfg.nodeId == base.nodeId && cfg.contextHash == base.contextHash
  }

  ghost predicate AllIdle(w: World) {
    forall t: nat :: PcOf(w, t).Idle?
  }

  /** A restore happens before or between calls, and what threads open is authentic. */
  ghost predicate Enabled(base: Config, m: Machine, e: Event) {
    match e
    case Start(cfg, _) => m.process.None? && Kin(base, cfg)
    case Act(step) => m.process.Some? && AllowedStep(m.process.value.cfg, m.process.value.world, step)
    case TakeCheckpoint(order, _) => m.process.Some? && Lists(order, m.process.value.world.node.rx.peers)
    case RestoreNewest => m.process.Some? && m.newest.Some? && AllIdle(m.process.value.world)
    case Crash => true
  }

  /** A process that starts on `n`, and restores the newest checkpoint if there is one. */
  function Started(cfg: Config, wrap: Bytes32, n: Node, newest: Option<Disk>): Process {
    if newest.None? then Process(cfg, n, [], Resume(n), false)
    else
      var (n', r) := Restore(cfg, n, newest.value.blob, wrap);
      if r.Err? then Process(cfg, n, [], Resume(n), false)
      else Process(cfg, n', newest.value.known, Resume(n'), false)
  }

  /** All the process remembers: what it was restored with, and what happened since. */
  function Lineage(pr: Process): seq<Op> {
    pr.known + pr.world.ops
  }

  function SealedNow(m: Machine): seq<Packet> {
    if m.process.Some? then m.process.value.world.sealed else []
  }

  function Occur(wrap: Bytes32, m: Machine, e: Event): Machine
    requires e.TakeCheckpoint? && m.process.Some? ==>
               forall i :: 0 <= i < |e.order| ==> e.order[i] in m.process.value.world.node.rx.peers
  {
    match e
    case Start(cfg, bootEpoch) =>
      if m.process.Some? then m
      else m.(process := Some(Started(cfg, wrap, Node(bootEpoch, 0, EMPTY_RX), m.newest)))
    case Act(step) =>
      if m.process.None? then m
      else m.(process := Some(m.process.value.(world := Next(m.process.value.cfg, m.process.value.world, step))))
    case TakeCheckpoint(order, nonce) =>
      if m.process.None? then m
      else
        var pr := m.process.value;
        var r := Export(pr.cfg, pr.world.node, order, wrap, nonce);
        if r.Err? then m
        else m.(newest := Some(Disk(r.value, pr.world.node, Lineage(pr))), process := Some(pr.(exported := true)))
    case RestoreNewest =>
      if m.process.None? || m.newest.None? then m
      else
        var pr := m.process.value;
        if Restore(pr.cfg, pr.world.node, m.newest.value.blob, wrap).1.Err? then m
        else m.(process := Some(Started(pr.cfg, wrap, pr.world.node, m.newest)), past := m.past + pr.world.sealed)
    case Crash => m.(process := None, past := m.past + SealedNow(m))
  }

  ghost predicate Lives(base: Config, wrap: Bytes32, m: Machine, events: seq<Event>, m': Machine)
    decreases |events|
  {
    if events == [] then m == m'
    else Enabled(base, m, events[0]) && Lives(base, wrap, Occur(wrap, m, events[0]), events[1..], m')
  }

  // --------------------------------------------------------------------------
  // The invariant
  // --------------------------------------------------------------------------

  ghost predicate Restores(wrap: Bytes32, d: Disk, cfg: Config, n: Node) {
    Restore(cfg, n, d.blob, wrap) ==
    (Node(ResumedEpoch(n.epoch, d.saved.epoch), d.saved.txSeq,
          Rx(RestoredPeers(d.saved.rx.peers), d.saved.rx.integrity)), Ok(()))
  }

  /** The blob restores into every process of the node, and its state remembers its history. */
  ghost predicate DiskInv(base: Config, wrap: Bytes32, d: Disk) {
    && (forall cfg: Config, n: Node :: Kin(base, cfg) ==> Restores(wrap, d, cfg, n))
    && Remembers(base.hash, d.saved.rx, d.known) && BelowMax(d.known)
  }

  /** The concurrent run of a process, as far as it got. */
  ghost predicate Running(cfg: Config, start: Node, w: World) {
    HistoryInv(cfg, start.rx, w) && FlightsInv(cfg, w) && PointsInv(cfg, w) && OriginInv(cfg, w)
  }

  ghost predicate ProcessInv(base: Config, pr: Process) {
    && Kin(base, pr.cfg)
    && Remembers(base.hash, pr.start.rx, pr.known) && BelowMax(pr.known)
    && Running(pr.cfg, pr.start, pr.world)
  }

  ghost predicate MachineInv(base: Config, wrap: Bytes32, m: Machine) {
    && (m.newest.Some? ==> DiskInv(base, wrap, m.newest.value))
    && (m.process.Some? ==> ProcessInv(base, m.process.value))
  }

  lemma ExportedRestores(base: Config, wrap: Bytes32, cfg: Config, n: Node, order: seq<PeerKey>, nonce: Nonce,
                         known: seq<Op>)
    requires base.aead.Sound() && Kin(base, cfg) && Lists(order, n.rx.peers) && Export(cfg, n, order, wrap, nonce).Ok?
    ensures forall cfg': Config, n': Node :: Kin(base, cfg') ==>
              Restores(wrap, Disk(Export(cfg, n, order, wrap, nonce).value, n, known), cfg', n')
  {
    hide Export, Restore;
    var d := Disk(Export(cfg, n, order, wrap, nonce).value, n, known);
    forall cfg': Config, n': Node | Kin(base, cfg') ensures Restores(wrap, d, cfg', n') {
      RestoreOfExport(cfg, n, order, wrap, nonce, cfg', n');
    }
  }

  /** A process remembers its whole lineage, and every checkpoint of it can be expressed. */
  lemma RemembersLineage(base: Config, pr: Process)
    requires ProcessInv(base, pr)
    ensures Remembers(base.hash, pr.world.node.rx, Lineage(pr)) && BelowMax(Lineage(pr)) && Exportable(pr.world.node.rx)
  {
    hide Legal, After, FlightsInv, PointsInv, OriginInv, BelowMax, Remembers;
    RemembersMore(pr.cfg, pr.start.rx, pr.known, pr.world.ops);
    GenuineBelowMax(pr.cfg, pr.world);
    BelowMaxConcat(pr.known, pr.world.ops);
    RememberedExportable(base.hash, pr.world.node.rx, Lineage(pr));
  }

  lemma BelowMaxConcat(known: seq<Op>, ops: seq<Op>)
    requires BelowMax(known) && BelowMax(ops)
    ensures BelowMax(known + ops)
  {}

  lemma RememberedExportable(hash: Hash, rx: Rx, known: seq<Op>)
    requires Remembers(hash, rx, known) && BelowMax(known)
    ensures Exportable(rx) && !SentinelClash(rx.peers)
  {
    hide PeersTrack, BelowMax;
    TrackedExportable(rx, known);
  }

  /** The windows are all that the memory of a state depends on, with its hash. */
  lemma SameWindowsRemember(hash: Hash, rx: Rx, rx': Rx, known: seq<Op>)
    requires SameWindows(rx, rx') && Remembers(hash, rx, known)
    ensures Remembers(hash, rx', known)
  {
    hide AcceptedOf, AcceptedOnce, FoldAll, Counted;
    forall key: PeerKey ensures PeerTracks(rx', key, AcceptedOf(known, key)) {
      assert PeerTracks(rx, key, AcceptedOf(known, key));
    }
  }

  lemma FreshRuns(cfg: Config, n: Node)
    ensures Running(cfg, n, Resume(n))
  {}

  /** A restored process remembers what the checkpoint did, and a fresh one nothing. */
  lemma StartedInv(base: Config, wrap: Bytes32, cfg: Config, n: Node, newest: Option<Disk>)
    requires Kin(base, cfg) && (newest.Some? ==> DiskInv(base, wrap, newest.value))
    requires newest.None? ==> n.rx == EMPTY_RX
    ensures ProcessInv(base, Started(cfg, wrap, n, newest))
    ensures var pr := Started(cfg, wrap, n, newest);
            && pr.cfg == cfg && pr.known == (if newest.Some? then newest.value.known else [])
            && pr.world == Resume(pr.start)
            && (newest.Some? ==>
                  && Restores(wrap, newest.value, cfg, n)
                  && pr.start == Restore(cfg, n, newest.value.blob, wrap).0)
  {
    hide Restore, Running, Remembers, BelowMax;
    if newest.Some? {
      var d := newest.value;
      assert Restores(wrap, d, cfg, n);
      RememberedExportable(base.hash, d.saved.rx, d.known);
      RestoredSameWindows(d.saved.rx);
      hide RestoredPeers, SameWindows, SentinelClash;
      SameWindowsRemember(base.hash, d.saved.rx, d.saved.rx.(peers := RestoredPeers(d.saved.rx.peers)), d.known);
      FreshRuns(cfg, Restore(cfg, n, d.blob, wrap).0);
    } else {
      RemembersNothing(base.hash);
      NothingBelowMax();
      FreshRuns(cfg, n);
    }
  }

  lemma NothingBelowMax()
    ensures BelowMax([])
  {}

  lemma ActKeeps(cfg: Config, start: Node, w: World, step: Step)
    requires Running(cfg, start, w) && AllowedStep(cfg, w, step)
    ensures Running(cfg, start, Next(cfg, w, step))
  {
    hide HistoryInv, FlightsInv, PointsInv, OriginInv, Next, AllowedStep;
    StepHistory(cfg, start.rx, w, step);
    StepFlights(cfg, w, step);
    StepPoints(cfg, w, step);
    StepOrigins(cfg, w, step);
  }

  lemma EventKeeps(base: Config, wrap: Bytes32, m: Machine, e: Event)
    requires base.aead.Sound() && MachineInv(base, wrap, m) && Enabled(base, m, e)
    ensures MachineInv(base, wrap, Occur(wrap, m, e))
  {
    hide Restore, Export, Running, Remembers, BelowMax, Next, AllowedStep, Restores, Kin, Resume;
    match e {
      case Start(cfg, bootEpoch) =>
        StartedInv(base, wrap, cfg, Node(bootEpoch, 0, EMPTY_RX), m.newest);
        hide Started, ProcessInv, DiskInv;
      case Act(step) =>
        hide DiskInv;
        ActKeeps(m.process.value.cfg, m.process.value.start, m.process.value.world, step);
      case TakeCheckpoint(order, nonce) =>
        var pr := m.process.value;
        if Export(pr.cfg, pr.world.node, order, wrap, nonce).Ok? {
          ExportedRestores(base, wrap, pr.cfg, pr.world.node, order, nonce, Lineage(pr));
          RemembersLineage(base, pr);
        }
      case RestoreNewest =>
        StartedInv(base, wrap, m.process.value.cfg, m.process.value.world.node, m.newest);
        hide Started, ProcessInv, DiskInv;
      case Crash =>
    }
  }

  lemma {:induction false} LivesKeep(base: Config, wrap: Bytes32, m: Machine, events: seq<Event>, m': Machine)
    requires base.aead.Sound() && MachineInv(base, wrap, m) && Lives(base, wrap, m, events, m')
    ensures MachineInv(base, wrap, m')
    decreases |events|
  {
    hide MachineInv, Occur;
    if events != [] {
      EventKeeps(base, wrap, m, events[0]);
      LivesKeep(base, wrap, Occur(wrap, m, events[0]), events[1..], m');
    }
  }
}
