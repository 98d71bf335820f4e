/** Whole runs of a journal on one file: appends, power cuts, crashes, and recoveries that truncate. */
module WalRuns {
  import opened Words
  import opened Primitives
  import opened PacketCodec
  import opened WalJournal

  /** The file, and the journal of the running process if there is one. */
  datatype World = World(file: Bytes, journal: Option<Journal>)

  datatype Step =
    | Append(packet: Packet)
    | PowerCut(packet: Packet, written: nat)
    | Crash
    | Recover
    | CutWhileRecovering(truncated: bool)

  const START: World := World([], Some(Journal(ZERO32, 0)))

  /** `recover_from_file`: the scan, the truncation to the valid length, the resumed journal. */
  function RecoverFile(hash: Hash, file: Bytes): (r: Result<(Bytes, Journal, Report)>)
    requires |file| < U64_LIMIT
  {
    var report := RecoverFrom(hash, ZERO32, file);
    if report.Err? then Err(report.error)
    else Ok((file[..report.value.validLen], Journal(report.value.head, |report.value.packets|), report.value))
  }

  function FrameLen(p: Packet): nat {
    OVERHEAD + |ToBytes(p)|
  }

  predicate Encodable(p: Packet) {
    |ToBytes(p)| < U32_LIMIT
  }

  /** A power cut leaves the first `written` bytes of the frame in flight. */
  ghost predicate Allowed(w: World, step: Step) {
    match step
    case Append(p) =>
      w.journal.Some? && (Encodable(p) ==> Decodable(p) && |w.file| + FrameLen(p) < U64_LIMIT)
    case PowerCut(p, written) =>
      w.journal.Some? && Encodable(p) && Decodable(p) && written <= FrameLen(p) && |w.file| + FrameLen(p) < U64_LIMIT
    case _ => true
  }

  function Next(hash: Hash, w: World, step: Step): World {
    match step
    case Append(p) =>
      if w.journal.None? then w
      else
        var (j, frame) := AppendFrame(hash, w.journal.value, p);
        if frame.Err? then w else World(w.file + frame.value, Some(j))
    case PowerCut(p, written) =>
      if w.journal.None? then w
      else
        var frame := AppendFrame(hash, w.journal.value, p).1;
        if frame.Err? || written > |frame.value| then w else World(w.file + frame.value[..written], None)
    case Crash => w.(journal := None)
    case Recover =>
      if |w.file| >= U64_LIMIT then w
      else
        var r := RecoverFile(hash, w.file);
        if r.Err? then w.(journal := None) else World(r.value.0, Some(r.value.1))
    case CutWhileRecovering(truncated) =>
      if |w.file| >= U64_LIMIT then w
      else
        var r := RecoverFile(hash, w.file);
        World(if r.Ok? && truncated then r.value.0 else w.file, None)
  }

  function Run(hash: Hash, steps: seq<Step>): World {
    if steps == [] then START else Next(hash, Run(hash, steps[..|steps| - 1]), steps[|steps| - 1])
  }

  ghost predicate AllowedRun(hash: Hash, steps: seq<Step>) {
    steps != [] ==>
      && AllowedRun(hash, steps[..|steps| - 1])
      && Allowed(Run(hash, steps[..|steps| - 1]), steps[|steps| - 1])
  }

  // --------------------------------------------------------------------------
  // What must survive, read off the steps alone
  // --------------------------------------------------------------------------

  /** An append that returned, or one whose last byte had been written when the power went. */
  function Persists(step: Step): (ps: seq<Packet>)
    ensures |ps| <= 1
  {
    match step
    case Append(p) => if Encodable(p) then [p] else []
    case PowerCut(p, written) => if written == FrameLen(p) then [p] else []
    case _ => []
  }

  function Durable(steps: seq<Step>): seq<Packet> {
    if steps == [] then [] else Durable(steps[..|steps| - 1]) + Persists(steps[|steps| - 1])
  }

  /** The packets whose append returned successfully, in order. */
  function Acknowledged(steps: seq<Step>): seq<Packet> {
    if steps == [] then []
    else
      var last := steps[|steps| - 1];
      Acknowledged(steps[..|steps| - 1]) + if last.Append? then Persists(last) else []
  }

  function PowerCuts(steps: seq<Step>): nat {
    if steps == [] then 0 else PowerCuts(steps[..|steps| - 1]) + if steps[|steps| - 1].PowerCut? then 1 else 0
  }

  /** `at` places `xs` inside `ys`, in order. */
  ghost predicate Embeds(xs: seq<Packet>, ys: seq<Packet>, at: seq<nat>) {
    && |at| == |xs|
    && (forall i :: 0 <= i < |at| ==> at[i] < |ys| && ys[at[i]] == xs[i])
    && (forall i, j :: 0 <= i < j < |at| ==> at[i] < at[j])
  }

  /** Every acknowledged packet persists, in order, with at most one more per power cut. */
  lemma {:induction false} AcknowledgedPersist(steps: seq<Step>) returns (at: seq<nat>)
    ensures Embeds(Acknowledged(steps), Durable(steps), at)
    ensures |Durable(steps)| <= |Acknowledged(steps)| + PowerCuts(steps)
  {
    if steps == [] {
      return [];
    }
    var last := steps[|steps| - 1];
    at := AcknowledgedPersist(steps[..|steps| - 1]);
    if last.Append? && Persists(last) != [] {
      at := at + [|Durable(steps[..|steps| - 1])|];
    }
  }

  // --------------------------------------------------------------------------
  // The invariant
  // --------------------------------------------------------------------------

  ghost predicate AllGood(ps: seq<Packet>) {
    forall i :: 0 <= i < |ps| ==> Encodable(ps[i]) && Decodable(ps[i])
  }

  lemma GoodParse(ps: seq<Packet>)
    requires AllGood(ps)
    ensures Fits(Encodings(ps)) && Parse(Encodings(ps))
    ensures forall i :: 0 <= i < |ps| ==> Packets(Encodings(ps))[i] == OnWire(ps[i])
  {
    hide ToBytes, FromBytes;
    forall i | 0 <= i < |ps| ensures FromBytes(Encodings(ps)[i]) == Ok(OnWire(ps[i])) {
      ParseOfEncoded(ps[i]);
    }
  }

  /** The packets as recovery reports them. */
  function Wired(ps: seq<Packet>): (qs: seq<Packet>)
    ensures |qs| == |ps|
  {
    seq(|ps|, i requires 0 <= i < |ps| => OnWire(ps[i]))
  }

  ghost predicate TornAt(hash: Hash, head: Bytes32, tail: Bytes, p: Packet) {
    && Encodable(p) && Decodable(p) && |tail| < FrameLen(p)
    && tail == Frame(hash, head, ToBytes(p))[..|tail|]
  }

  /** The file is the log of `ps` and a torn frame behind it. */
  ghost predicate Holds(hash: Hash, file: Bytes, ps: seq<Packet>, tail: Bytes) {
    && AllGood(ps) && Fits(Encodings(ps)) && |file| < U64_LIMIT
    && file == Log(hash, ZERO32, Encodings(ps)) + tail
    && (tail == [] || exists p :: TornAt(hash, Head(hash, ZERO32, Encodings(ps)), tail, p))
  }

  lemma {:induction false} LogSnoc(hash: Hash, prev: Bytes32, bodies: seq<Bytes>, body: Bytes)
    requires Fits(bodies) && |body| < U32_LIMIT
    ensures Fits(bodies + [body])
    ensures Log(hash, prev, bodies + [body]) == Log(hash, prev, bodies) + Frame(hash, Head(hash, prev, bodies), body)
    ensures Head(hash, prev, bodies + [body]) == FrameHash(hash, Head(hash, prev, bodies), body)
    ensures Size(bodies + [body]) == Size(bodies) + OVERHEAD + |body|
    decreases |bodies|
  {
    hide Frame, FrameHash;
    var all := bodies + [body];
    if bodies == [] {
      assert all[1..] == [];
      assert Log(hash, FrameHash(hash, prev, body), []) == [];
    } else {
      LogSnoc(hash, FrameHash(hash, prev, bodies[0]), bodies[1..], body);
      assert all[0] == bodies[0] && all[1..] == bodies[1..] + [body];
    }
  }

  lemma {:induction false} AtLeastOverhead(bodies: seq<Bytes>)
    ensures |bodies| * OVERHEAD <= Size(bodies)
  {
    if bodies != [] {
      AtLeastOverhead(bodies[1..]);
    }
  }

  lemma CutAfter(hash: Hash, ps: seq<Packet>, tail: Bytes, p: Packet)
    requires AllGood(ps) && Fits(Encodings(ps)) && TornAt(hash, Head(hash, ZERO32, Encodings(ps)), tail, p)
    ensures AllGood(ps + [p]) && Fits(Encodings(ps + [p])) && Size(Encodings(ps)) + |tail| < Size(Encodings(ps + [p]))
    ensures Log(hash, ZERO32, Encodings(ps)) + tail
            == Log(hash, ZERO32, Encodings(ps + [p]))[..Size(Encodings(ps)) + |tail|]
  {
    hide Frame, FrameHash, ToBytes, Log, Head;
    assert Encodings(ps + [p]) == Encodings(ps) + [ToBytes(p)];
    LogSnoc(hash, ZERO32, Encodings(ps), ToBytes(p));
    var log, frame := Log(hash, ZERO32, Encodings(ps)), Frame(hash, Head(hash, ZERO32, Encodings(ps)), ToBytes(p));
    assert (log + frame)[..|log| + |tail|] == log + frame[..|tail|];
  }

  /** A boundary with the next one beyond the cut is the greatest not past it. */
  lemma WholeAt(bodies: seq<Bytes>, n: nat, cut: nat)
    requires n <= |bodies| && Size(bodies[..n]) <= cut && (n < |bodies| ==> cut < Size(bodies[..n + 1]))
    ensures Whole(bodies, cut) == n
  {
    WholeIsGreatest(bodies, cut);
    hide Whole;
    var k := Whole(bodies, cut);
    if k > n {
      SizeGrows(bodies, n + 1, k);
    }
  }

  lemma {:induction false} SizeGrows(bodies: seq<Bytes>, i: nat, j: nat)
    requires i <= j <= |bodies|
    ensures Size(bodies[..i]) <= Size(bodies[..j])
  {
    if i > 0 {
      SizeGrows(bodies[1..], i - 1, j - 1);
      assert bodies[..i][1..] == bodies[1..][..i - 1] && bodies[..j][1..] == bodies[1..][..j - 1];
    }
  }

  lemma RecoverHolds(hash: Hash, file: Bytes, ps: seq<Packet>, tail: Bytes)
    requires Holds(hash, file, ps, tail)
    ensures var log := Log(hash, ZERO32, Encodings(ps));
            var head := Head(hash, ZERO32, Encodings(ps));
            && |log| <= |file| && |ps| < U64_LIMIT
            && RecoverFile(hash, file) == Ok((log, Journal(head, |ps|), Report(Wired(ps), head, |log|, tail != [])))
  {
    hide Log, Head, RecoverFrom, FrameHash, Frame, TornAt, FromBytes, ToBytes;
    var bodies := Encodings(ps);
    AtLeastOverhead(bodies);
    var all := ps;
    if tail != [] {
      var p :| TornAt(hash, Head(hash, ZERO32, bodies), tail, p);
      CutAfter(hash, ps, tail, p);
      all := ps + [p];
    }
    GoodParse(all);
    GoodParse(ps);
    var more := Encodings(all);
    assert more[..|ps|] == bodies;
    assert more[..|more|] == more;
    assert file == Log(hash, ZERO32, more)[..|file|];
    WholeAt(more, |ps|, |file|);
    CutRecovers(hash, ZERO32, more, |file|);
    assert Packets(bodies) == Wired(ps);
    assert file[..Size(bodies)] == Log(hash, ZERO32, bodies);
  }

  // --------------------------------------------------------------------------
  // Every step keeps the invariant
  // --------------------------------------------------------------------------

  ghost predicate Inv(hash: Hash, w: World, ps: seq<Packet>) {
    && (exists tail :: Holds(hash, w.file, ps, tail))
    && (w.journal.Some? ==>
          && Holds(hash, w.file, ps, []) && |ps| < U64_LIMIT
          && w.journal.value == Journal(Head(hash, ZERO32, Encodings(ps)), |ps|))
  }

  lemma StartInv(hash: Hash)
    ensures Inv(hash, START, [])
  {
    assert Encodings([]) == [];
    assert Holds(hash, [], [], []);
  }

  lemma AppendInv(hash: Hash, w: World, ps: seq<Packet>, p: Packet)
    requires Inv(hash, w, ps) && Allowed(w, Append(p))
    ensures Inv(hash, Next(hash, w, Append(p)), ps + Persists(Append(p)))
  {
    hide Log, Head, FrameHash, Frame, ToBytes;
    if Encodable(p) {
      AppendHolds(hash, w.file, ps, p);
      hide Holds;
    } else {
      assert ps + [] == ps;
    }
  }

  lemma AppendHolds(hash: Hash, file: Bytes, ps: seq<Packet>, p: Packet)
    requires Holds(hash, file, ps, []) && Encodable(p) && Decodable(p) && |file| + FrameLen(p) < U64_LIMIT
    ensures var head := Head(hash, ZERO32, Encodings(ps));
            && |ps| < U64_MAX
            && Holds(hash, file + Frame(hash, head, ToBytes(p)), ps + [p], [])
            && Head(hash, ZERO32, Encodings(ps + [p])) == FrameHash(hash, head, ToBytes(p))
  {
    hide Log, Head, FrameHash, Frame, ToBytes;
    assert Encodings(ps + [p]) == Encodings(ps) + [ToBytes(p)];
    LogSnoc(hash, ZERO32, Encodings(ps), ToBytes(p));
    AtLeastOverhead(Encodings(ps));
  }

  lemma PowerCutInv(hash: Hash, w: World, ps: seq<Packet>, p: Packet, written: nat)
    requires Inv(hash, w, ps) && Allowed(w, PowerCut(p, written))
    ensures Inv(hash, Next(hash, w, PowerCut(p, written)), ps + Persists(PowerCut(p, written)))
  {
    hide Log, Head, FrameHash, Frame, ToBytes;
    var frame := Frame(hash, Head(hash, ZERO32, Encodings(ps)), ToBytes(p));
    if written == FrameLen(p) {
      AppendHolds(hash, w.file, ps, p);
      assert frame[..written] == frame;
      hide Holds;
    } else {
      assert ps + [] == ps;
      assert TornAt(hash, Head(hash, ZERO32, Encodings(ps)), frame[..written], p);
      hide TornAt;
      assert Holds(hash, w.file + frame[..written], ps, frame[..written]);
    }
  }

  lemma RecoverInv(hash: Hash, w: World, ps: seq<Packet>, step: Step)
    requires Inv(hash, w, ps) && (step.Crash? || step.Recover? || step.CutWhileRecovering?)
    ensures Inv(hash, Next(hash, w, step), ps + Persists(step))
  {
    hide Log, Head, RecoverFrom, RecoverFile;
    assert ps + [] == ps;
    var tail :| Holds(hash, w.file, ps, tail);
    RecoverHolds(hash, w.file, ps, tail);
    assert Holds(hash, Log(hash, ZERO32, Encodings(ps)), ps, []);
  }

  lemma {:induction false} RunKeepsInv(hash: Hash, steps: seq<Step>)
    requires AllowedRun(hash, steps)
    ensures Inv(hash, Run(hash, steps), Durable(steps))
  {
    hide Inv, Next, Persists, Allowed;
    if steps == [] {
      StartInv(hash);
    } else {
      var w, ps, step := Run(hash, steps[..|steps| - 1]), Durable(steps[..|steps| - 1]), steps[|steps| - 1];
      RunKeepsInv(hash, steps[..|steps| - 1]);
      match step
      case Append(p) => AppendInv(hash, w, ps, p);
      case PowerCut(p, written) => PowerCutInv(hash, w, ps, p, written);
      case _ => RecoverInv(hash, w, ps, step);
    }
  }

  // --------------------------------------------------------------------------
  // Durability
  // --------------------------------------------------------------------------

  /** After any run, recovery returns exactly the durable packets, truncates to their log, and resumes
      with the head and count of that log; a live journal already agrees with it. */
  lemma Durability(hash: Hash, steps: seq<Step>)
    requires AllowedRun(hash, steps)
    ensures var w := Run(hash, steps);
            var ps := Durable(steps);
            && Fits(Encodings(ps)) && |w.file| < U64_LIMIT && RecoverFile(hash, w.file).Ok?
            && var (file, journal, report) := RecoverFile(hash, w.file).value;
               && report.packets == Wired(ps)
               && file == Log(hash, ZERO32, Encodings(ps)) && file <= w.file
               && (report.truncatedTail <==> file != w.file)
               && journal.head == Head(hash, ZERO32, Encodings(ps)) && journal.count == |ps|
               && (w.journal.Some? ==> w.journal.value == journal && w.file == file)
  {
    RunKeepsInv(hash, steps);
    hide AllowedRun, Run, Durable, Log, Head, RecoverFile, Frame, FrameHash, TornAt;
    var w, ps := Run(hash, steps), Durable(steps);
    var tail :| Holds(hash, w.file, ps, tail);
    RecoverHolds(hash, w.file, ps, tail);
    if w.journal.Some? {
      RecoverHolds(hash, w.file, ps, []);
    }
  }

  /** Recovering the recovered file changes nothing more. */
  lemma RecoveryIsIdempotent(hash: Hash, steps: seq<Step>)
    requires AllowedRun(hash, steps)
    ensures var file := Run(hash, steps).file;
            && |file| < U64_LIMIT && RecoverFile(hash, file).Ok?
            && var (file', journal, report) := RecoverFile(hash, file).value;
               |file'| < U64_LIMIT && RecoverFile(hash, file') == Ok((file', journal, report.(truncatedTail := false)))
  {
    RunKeepsInv(hash, steps);
    hide AllowedRun, Run, Durable, Log, Head, RecoverFile, Frame, FrameHash, TornAt;
    var w, ps := Run(hash, steps), Durable(steps);
    var tail :| Holds(hash, w.file, ps, tail);
    RecoverHolds(hash, w.file, ps, tail);
    var log := Log(hash, ZERO32, Encodings(ps));
    assert Holds(hash, log, ps, []);
    RecoverHolds(hash, log, ps, []);
  }

  // --------------------------------------------------------------------------
  // The hypotheses are needed
  // --------------------------------------------------------------------------

  /** One appended packet that cannot be parsed back makes the whole log unrecoverable. */
  lemma MalformedAppendIffUnrecoverable(hash: Hash, ps: seq<Packet>)
    requires Fits(Encodings(ps))
    ensures RecoverFrom(hash, ZERO32, Log(hash, ZERO32, Encodings(ps))).Ok? <==>
            forall i :: 0 <= i < |ps| ==> Decodable(ps[i])
  {
    hide ToBytes, FromBytes, Decodable, RecoverFrom, Log;
    WholeLogRecoversIff(hash, ZERO32, Encodings(ps));
    forall i | 0 <= i < |ps| ensures FromBytes(Encodings(ps)[i]).Ok? <==> Decodable(ps[i]) {
      ParseOfEncoded(ps[i]);
    }
  }

  /** A process that keeps its journal after a write that failed and left nothing behind: its next
      frame makes the file unrecoverable, unless the hash maps that frame's input to the head it started from. */
  lemma GoingOnAfterFailedWrite(hash: Hash, steps: seq<Step>, failed: Packet, p: Packet)
    requires AllowedRun(hash, steps) && Run(hash, steps).journal.Some?
    requires Encodable(failed) && Encodable(p) && Decodable(p)
    ensures var w := Run(hash, steps);
            var (j, _) := AppendFrame(hash, w.journal.value, failed);
            var frame := AppendFrame(hash, j, p).1.value;
            if j.head == w.journal.value.head
            then RecoverFrom(hash, ZERO32, w.file + frame).Ok?
            else RecoverFrom(hash, ZERO32, w.file + frame) == Err(IntegridadContextoCorrupta)
  {
    LiveJournal(hash, steps);
    hide AllowedRun, Run, Durable, RecoverFrom, Log, Head, Frame, FrameHash, ToBytes, FromBytes, Decodable, AllGood;
    hide Fits, Encodings;
    var ps, head := Durable(steps), Run(hash, steps).journal.value.head;
    StaleFrame(hash, ps, FrameHash(hash, head, ToBytes(failed)), p);
  }

  lemma LiveJournal(hash: Hash, steps: seq<Step>)
    requires AllowedRun(hash, steps) && Run(hash, steps).journal.Some?
    ensures var ps := Durable(steps);
            && AllGood(ps) && Fits(Encodings(ps))
            && Run(hash, steps).file == Log(hash, ZERO32, Encodings(ps))
            && Run(hash, steps).journal.value.head == Head(hash, ZERO32, Encodings(ps))
  {
    RunKeepsInv(hash, steps);
    hide AllowedRun, Run, Durable, Log, Head;
  }

  /** A frame behind a genuine log that stores the chain value `stored`. */
  lemma StaleFrame(hash: Hash, ps: seq<Packet>, stored: Bytes32, p: Packet)
    requires AllGood(ps) && Fits(Encodings(ps)) && Encodable(p) && Decodable(p)
    ensures var r := RecoverFrom(hash, ZERO32, Log(hash, ZERO32, Encodings(ps)) + Frame(hash, stored, ToBytes(p)));
            if stored == Head(hash, ZERO32, Encodings(ps)) then r.Ok? else r == Err(IntegridadContextoCorrupta)
  {
    hide RecoverFrom, Log, Head, Frame, FrameHash, ToBytes, FromBytes, Decodable;
    GoodParse(ps);
    ParseOfEncoded(p);
    var head, frame := Head(hash, ZERO32, Encodings(ps)), Frame(hash, stored, ToBytes(p));
    RecoverAppended(hash, ZERO32, Encodings(ps), frame);
    assert frame + [] == frame;
    RecoverAtFrame(hash, head, stored, ToBytes(p), []);
    RecoverEmpty(hash, FrameHash(hash, head, ToBytes(p)));
  }

  /** A process that goes on after a write that stopped inside its frame, with the length already out: as long as
      everything written later is too short to complete that frame, recovery drops it all as a torn tail without
      an error, acknowledged or not. Once it is long enough, recovery fails, unless the mixture hashes to itself. */
  lemma GoingOnAfterTornWrite(hash: Hash, steps: seq<Step>, failed: Packet, written: nat, later: seq<Packet>)
    requires AllowedRun(hash, steps) && Run(hash, steps).journal.Some?
    requires Encodable(failed) && 8 <= written < FrameLen(failed) && Fits(Encodings(later))
    requires var w := Run(hash, steps);
             var rest := TornThenLater(hash, w.journal.value.head, failed, written, later);
             |rest| >= FrameLen(failed) ==> !Rehashed(hash, w.journal.value.head, rest[..FrameLen(failed)])
    ensures var (w, ps) := (Run(hash, steps), Durable(steps));
            var rest := TornThenLater(hash, w.journal.value.head, failed, written, later);
            RecoverFrom(hash, ZERO32, w.file + rest) ==
            if |rest| < FrameLen(failed) then Ok(Report(Wired(ps), w.journal.value.head, |w.file|, true))
            else Err(IntegridadContextoCorrupta)
  {
    LiveJournal(hash, steps);
    hide AllowedRun, Run, Durable, RecoverFrom, Log, Head, Frame, FrameHash, ToBytes, FromBytes, Decodable, Encodings;
    hide Rehashed;
    var ps, head := Durable(steps), Run(hash, steps).journal.value.head;
    var rest := TornThenLater(hash, head, failed, written, later);
    GoodParse(ps);
    assert Packets(Encodings(ps)) == Wired(ps);
    hide AllGood, TornThenLater, Packets, Wired;
    RecoverAppended(hash, ZERO32, Encodings(ps), rest);
    RecoverMixture(hash, head, failed, written, later);
    assert Wired(ps) + [] == Wired(ps);
  }

  /** The first bytes of a frame, then whole frames that chain from it. */
  function TornThenLater(hash: Hash, head: Bytes32, failed: Packet, written: nat, later: seq<Packet>): Bytes
    requires Encodable(failed) && written <= FrameLen(failed) && Fits(Encodings(later))
  {
    Frame(hash, head, ToBytes(failed))[..written] + Log(hash, FrameHash(hash, head, ToBytes(failed)), Encodings(later))
  }

  lemma RecoverMixture(hash: Hash, head: Bytes32, failed: Packet, written: nat, later: seq<Packet>)
    requires Encodable(failed) && 8 <= written < FrameLen(failed) && Fits(Encodings(later))
    requires var rest := TornThenLater(hash, head, failed, written, later);
             |rest| >= FrameLen(failed) ==> !Rehashed(hash, head, rest[..FrameLen(failed)])
    ensures var rest := TornThenLater(hash, head, failed, written, later);
            RecoverFrom(hash, head, rest) ==
            if |rest| < FrameLen(failed) then Ok(Report([], head, 0, true)) else Err(IntegridadContextoCorrupta)
  {
    var body := ToBytes(failed);
    FrameFields(hash, head, body, []);
    var f, rest := Frame(hash, head, body), TornThenLater(hash, head, failed, written, later);
    assert f + [] == f;
    assert rest[..4] == f[..4] && rest[4..8] == f[4..8];
    hide Frame, FrameHash, ToBytes, FromBytes, Log, Encodings, TornThenLater, Magic, Be32, ReadBe32, Rehashed;
    if |rest| < |f| {
      TornRecovers(hash, head, rest);
    } else {
      var x := rest[..|f|];
      assert x[..4] == rest[..4] && x[4..8] == rest[4..8];
      AlteredUnhashed(hash, head, x, rest);
    }
  }

  lemma TornRecovers(hash: Hash, head: Bytes32, rest: Bytes)
    requires rest != [] && Torn(rest)
    ensures RecoverFrom(hash, head, rest) == Ok(Report([], head, 0, true))
  {}
}
