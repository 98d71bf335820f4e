/** src/persistence.rs, third part: the append-only log chained by SHA-256. */
module WalJournal {
  import opened Words
  import opened Primitives
  import opened PacketCodec

  const OVERHEAD: nat := 72

  function Magic(): (m: Bytes)
    ensures |m| == 4
  {
    Ascii("CNWL")
  }

  function FrameInput(prev: Bytes32, body: Bytes): Bytes
    requires |body| < U32_LIMIT
  {
    Ascii("CryptoNugget:WAL:Frame:v1") + prev + Be64(|body|) + body
  }

  function FrameHash(hash: Hash, prev: Bytes32, body: Bytes): Bytes32
    requires |body| < U32_LIMIT
  {
    hash(FrameInput(prev, body))
  }

  function Frame(hash: Hash, prev: Bytes32, body: Bytes): (f: Bytes)
    requires |body| < U32_LIMIT
    ensures |f| == OVERHEAD + |body|
  {
    Magic() + Be32(|body|) + prev + body + FrameHash(hash, prev, body)
  }

  datatype Journal = Journal(head: Bytes32, count: u64)

  function SaturatingNext(n: u64): u64 {
    if n == U64_MAX then n else n + 1
  }

  /** The head advances as soon as the frame is encoded, before anything is written. */
  function AppendFrame(hash: Hash, j: Journal, p: Packet): (r: (Journal, Result<Bytes>)) {
    var body := ToBytes(p);
    if |body| >= U32_LIMIT then (j, Err(AadDemasiadoLargo))
    else (Journal(FrameHash(hash, j.head, body), SaturatingNext(j.count)), Ok(Frame(hash, j.head, body)))
  }

  // --------------------------------------------------------------------------
  // Logs
  // --------------------------------------------------------------------------

  ghost predicate Fits(bodies: seq<Bytes>) {
    forall i :: 0 <= i < |bodies| ==> |bodies[i]| < U32_LIMIT
  }

  /** Every body parses as a packet. */
  ghost predicate Parse(bodies: seq<Bytes>) {
    forall i :: 0 <= i < |bodies| ==> FromBytes(bodies[i]).Ok?
  }

  /** The bytes of a log that continues from chain value `prev`. */
  function Log(hash: Hash, prev: Bytes32, bodies: seq<Bytes>): (b: Bytes)
    requires Fits(bodies)
    ensures |b| == Size(bodies)
    decreases |bodies|
  {
    if bodies == [] then []
    else Frame(hash, prev, bodies[0]) + Log(hash, FrameHash(hash, prev, bodies[0]), bodies[1..])
  }

  function Head(hash: Hash, prev: Bytes32, bodies: seq<Bytes>): Bytes32
    requires Fits(bodies)
    decreases |bodies|
  {
    if bodies == [] then prev else Head(hash, FrameHash(hash, prev, bodies[0]), bodies[1..])
  }

  function Size(bodies: seq<Bytes>): nat {
    if bodies == [] then 0 else OVERHEAD + |bodies[0]| + Size(bodies[1..])
  }

  function Packets(bodies: seq<Bytes>): (ps: seq<Packet>)
    requires Parse(bodies)
    ensures |ps| == |bodies|
  {
    seq(|bodies|, i requires 0 <= i < |bodies| => FromBytes(bodies[i]).value)
  }

  function Encodings(ps: seq<Packet>): (bodies: seq<Bytes>)
    ensures |bodies| == |ps|
  {
    seq(|ps|, i requires 0 <= i < |ps| => ToBytes(ps[i]))
  }

  // --------------------------------------------------------------------------
  // Recovery
  // --------------------------------------------------------------------------

  datatype Report = Report(packets: seq<Packet>, head: Bytes32, validLen: nat, truncatedTail: bool)

  /** What the first frame of `b` says, once it is known to be complete. */
  function FirstFrame(hash: Hash, prev: Bytes32, b: Bytes): (r: Result<(Packet, Bytes32, nat)>)
    requires |b| >= OVERHEAD && |b| >= OVERHEAD + ReadBe32(b[4..8])
    ensures r.Ok? ==> r.value.2 == OVERHEAD + ReadBe32(b[4..8]) <= |b|
  {
    var len := ReadBe32(b[4..8]);
    var body := b[40..40 + len];
    if b[8..40] != prev then Err(IntegridadContextoCorrupta)
    else if b[40 + len..72 + len] != FrameHash(hash, prev, body) then Err(IntegridadContextoCorrupta)
    else
      var p := FromBytes(body);
      if p.Err? then Err(p.error) else Ok((p.value, FrameHash(hash, prev, body), OVERHEAD + len))
  }

  /** Too short for the frame it starts with. */
  predicate Torn(b: Bytes) {
    |b| < OVERHEAD || (b[..4] == Magic() && |b| < OVERHEAD + ReadBe32(b[4..8]))
  }

  function Prepend(packets: seq<Packet>, offset: nat, r: Result<Report>): Result<Report> {
    if r.Err? then r
    else Ok(Report(packets + r.value.packets, r.value.head, offset + r.value.validLen, r.value.truncatedTail))
  }

  function RecoverFrom(hash: Hash, prev: Bytes32, b: Bytes): (r: Result<Report>)
    ensures r.Ok? ==> OVERHEAD * |r.value.packets| <= r.value.validLen <= |b|
    decreases |b|
  {
    if b == [] then Ok(Report([], prev, 0, false))
    else if Torn(b) then Ok(Report([], prev, 0, true))
    else if b[..4] != Magic() then Err(PaqueteCorrupto)
    else
      var first := FirstFrame(hash, prev, b);
      if first.Err? then Err(first.error)
      else
        var (p, next, len) := first.value;
        Prepend([p], len, RecoverFrom(hash, next, b[len..]))
  }

  // --------------------------------------------------------------------------
  // Frames inside byte strings
  // --------------------------------------------------------------------------

  lemma FrameFields(hash: Hash, prev: Bytes32, body: Bytes, rest: Bytes)
    requires |body| < U32_LIMIT
    ensures var b := Frame(hash, prev, body) + rest;
            && b[..4] == Magic() && b[4..8] == Be32(|body|) && b[8..40] == prev && b[40..40 + |body|] == body
            && b[40 + |body|..72 + |body|] == FrameHash(hash, prev, body) && b[72 + |body|..] == rest
  {
    var f := Frame(hash, prev, body);
    assert f[..4] == Magic() && f[4..8] == Be32(|body|) && f[8..40] == prev;
    assert f[40..40 + |body|] == body && f[40 + |body|..] == FrameHash(hash, prev, body);
    hide Frame, FrameHash, Be32, Magic;
    var b := f + rest;
    assert b[..4] == f[..4] && b[4..8] == f[4..8] && b[8..40] == f[8..40];
    assert b[40..40 + |body|] == f[40..40 + |body|] && b[40 + |body|..72 + |body|] == f[40 + |body|..]
           && b[72 + |body|..] == rest;
  }

  /** Recovery at a whole frame: its chain value must be the expected one and its body must parse. */
  lemma RecoverAtFrame(hash: Hash, prev: Bytes32, stored: Bytes32, body: Bytes, rest: Bytes)
    requires |body| < U32_LIMIT
    ensures RecoverFrom(hash, prev, Frame(hash, stored, body) + rest) ==
            if stored != prev then Err(IntegridadContextoCorrupta)
            else if FromBytes(body).Err? then Err(FromBytes(body).error)
            else Prepend([FromBytes(body).value], OVERHEAD + |body|,
                         RecoverFrom(hash, FrameHash(hash, prev, body), rest))
  {
    FrameFields(hash, stored, body, rest);
    hide Frame, FrameHash, Be32, Magic, FromBytes, Prepend;
  }

  /** A proper prefix of a frame is a torn tail. */
  lemma RecoverTorn(hash: Hash, prev: Bytes32, stored: Bytes32, body: Bytes, cut: nat)
    requires |body| < U32_LIMIT && 0 < cut < OVERHEAD + |body|
    ensures RecoverFrom(hash, prev, Frame(hash, stored, body)[..cut]) == Ok(Report([], prev, 0, true))
  {
    FrameFields(hash, stored, body, []);
    var f := Frame(hash, stored, body);
    assert f + [] == f;
    if cut >= OVERHEAD {
      assert f[..cut][..4] == f[..4] && f[..cut][4..8] == f[4..8];
    }
    hide Frame, FrameHash, Be32, Magic;
  }

  // --------------------------------------------------------------------------
  // Exact inverse
  // --------------------------------------------------------------------------

  /** What `RecoverFrom` accepted, encoded again, is exactly the valid part of its input. */
  ghost predicate Inverse(hash: Hash, prev: Bytes32, b: Bytes, r: Report) {
    var bodies := Encodings(r.packets);
    && Fits(bodies) && r.validLen <= |b|
    && Log(hash, prev, bodies) == b[..r.validLen]
    && Head(hash, prev, bodies) == r.head
    && (r.truncatedTail <==> r.validLen < |b|)
    && Torn(b[r.validLen..])
  }

  lemma FrameBytes(hash: Hash, prev: Bytes32, b: Bytes, body: Bytes)
    requires |body| < U32_LIMIT && |b| >= OVERHEAD + |body|
    requires b[..4] == Magic() && b[4..8] == Be32(|body|) && b[8..40] == prev && b[40..40 + |body|] == body
    requires b[40 + |body|..72 + |body|] == FrameHash(hash, prev, body)
    ensures b[..72 + |body|] == Frame(hash, prev, body)
  {
    assert Frame(hash, prev, body) == Magic() + Be32(|body|) + prev + body + FrameHash(hash, prev, body);
    hide Frame, FrameHash, Be32, Magic;
    assert b[..8] == b[..4] + b[4..8];
    assert b[..40] == b[..8] + b[8..40];
    assert b[..40 + |body|] == b[..40] + b[40..40 + |body|];
    assert b[..72 + |body|] == b[..40 + |body|] + b[40 + |body|..72 + |body|];
  }

  lemma FirstFrameInverse(hash: Hash, prev: Bytes32, b: Bytes)
    requires |b| >= OVERHEAD && |b| >= OVERHEAD + ReadBe32(b[4..8]) && b[..4] == Magic()
    requires FirstFrame(hash, prev, b).Ok?
    ensures var (p, next, len) := FirstFrame(hash, prev, b).value;
            && |ToBytes(p)| < U32_LIMIT && len == OVERHEAD + |ToBytes(p)| && Reparses(p)
            && b[..len] == Frame(hash, prev, ToBytes(p)) && next == FrameHash(hash, prev, ToBytes(p))
  {
    hide FrameHash, FromBytes, ToBytes, Be32, ReadBe32, Magic, Frame;
    var len := ReadBe32(b[4..8]);
    var body := b[40..40 + len];
    EncodeOfParsed(body);
    Be32OfRead(b[4..8]);
    FrameBytes(hash, prev, b, body);
    hide FirstFrame;
  }

  /** One step of a recovery that succeeds. */
  lemma RecoverStep(hash: Hash, prev: Bytes32, b: Bytes)
    requires RecoverFrom(hash, prev, b).Ok? && b != [] && !Torn(b)
    ensures |b| >= OVERHEAD && |b| >= OVERHEAD + ReadBe32(b[4..8]) && b[..4] == Magic()
    ensures FirstFrame(hash, prev, b).Ok?
    ensures var (p, next, len) := FirstFrame(hash, prev, b).value;
            && RecoverFrom(hash, next, b[len..]).Ok?
            && RecoverFrom(hash, prev, b) == Prepend([p], len, RecoverFrom(hash, next, b[len..]))
  {
    hide FirstFrame, Magic, ReadBe32;
  }

  lemma EncodingsCons(p: Packet, ps: seq<Packet>)
    ensures Encodings([p] + ps) == [ToBytes(p)] + Encodings(ps)
  {}

  lemma {:induction false} RecoverInverse(hash: Hash, prev: Bytes32, b: Bytes)
    requires RecoverFrom(hash, prev, b).Ok?
    ensures Inverse(hash, prev, b, RecoverFrom(hash, prev, b).value)
    decreases |b|
  {
    var r := RecoverFrom(hash, prev, b).value;
    if b == [] || Torn(b) {
      assert b[..0] == [] && b[0..] == b;
      assert Encodings([]) == [];
    } else {
      RecoverStep(hash, prev, b);
      hide RecoverFrom, FirstFrame, Torn, ReadBe32, Magic;
      var (p, next, len) := FirstFrame(hash, prev, b).value;
      FirstFrameInverse(hash, prev, b);
      RecoverInverse(hash, next, b[len..]);
      InverseCons(hash, prev, b, p, len, RecoverFrom(hash, next, b[len..]).value);
    }
  }

  lemma InverseCons(hash: Hash, prev: Bytes32, b: Bytes, p: Packet, len: nat, rest: Report)
    requires |ToBytes(p)| < U32_LIMIT && len == OVERHEAD + |ToBytes(p)| <= |b|
    requires b[..len] == Frame(hash, prev, ToBytes(p))
    requires Inverse(hash, FrameHash(hash, prev, ToBytes(p)), b[len..], rest)
    ensures Inverse(hash, prev, b, Report([p] + rest.packets, rest.head, len + rest.validLen, rest.truncatedTail))
  {
    hide Frame, FrameHash, ToBytes, Torn;
    EncodingsCons(p, rest.packets);
    var bodies, tail := Encodings([p] + rest.packets), Encodings(rest.packets);
    assert bodies[0] == ToBytes(p) && bodies[1..] == tail;
    assert Fits(bodies) by {
      forall i | 0 <= i < |bodies| ensures |bodies[i]| < U32_LIMIT {
        assert i > 0 ==> bodies[i] == tail[i - 1];
      }
    }
    assert b[..len + rest.validLen] == b[..len] + b[len..][..rest.validLen];
    assert b[len + rest.validLen..] == b[len..][rest.validLen..];
  }

  predicate Reparses(p: Packet) {
    FromBytes(ToBytes(p)) == Ok(p)
  }

  /** Every reported packet survives another trip through its encoding. */
  lemma {:induction false} RecoveredReparse(hash: Hash, prev: Bytes32, b: Bytes)
    requires RecoverFrom(hash, prev, b).Ok?
    ensures forall i :: 0 <= i < |RecoverFrom(hash, prev, b).value.packets| ==>
            Reparses(RecoverFrom(hash, prev, b).value.packets[i])
    decreases |b|
  {
    if b != [] && !Torn(b) {
      RecoverStep(hash, prev, b);
      hide RecoverFrom, FirstFrame, Torn, ReadBe32, Magic, Reparses;
      var (p, next, len) := FirstFrame(hash, prev, b).value;
      FirstFrameInverse(hash, prev, b);
      RecoveredReparse(hash, next, b[len..]);
    }
  }

  // --------------------------------------------------------------------------
  // Every cut of a genuine log
  // --------------------------------------------------------------------------

  /** How many whole frames fit in `cut` bytes. */
  function Whole(bodies: seq<Bytes>, cut: nat): (k: nat)
    ensures k <= |bodies|
  {
    if bodies == [] || cut < OVERHEAD + |bodies[0]| then 0
    else 1 + Whole(bodies[1..], cut - OVERHEAD - |bodies[0]|)
  }

  /** `Whole` counts up to the greatest frame boundary not past the cut. */
  lemma {:induction false} WholeIsGreatest(bodies: seq<Bytes>, cut: nat)
    ensures Size(bodies[..Whole(bodies, cut)]) <= cut
    ensures forall j :: Whole(bodies, cut) < j <= |bodies| ==> Size(bodies[..j]) > cut
    decreases |bodies|
  {
    if bodies != [] {
      forall j | 0 < j <= |bodies| ensures Size(bodies[..j]) == OVERHEAD + |bodies[0]| + Size(bodies[1..][..j - 1]) {
        assert bodies[..j][1..] == bodies[1..][..j - 1];
      }
      if cut >= OVERHEAD + |bodies[0]| {
        WholeIsGreatest(bodies[1..], cut - OVERHEAD - |bodies[0]|);
      }
    }
  }

  /** What a cut leaves of a genuine log. */
  ghost predicate CutReport(hash: Hash, prev: Bytes32, bodies: seq<Bytes>, cut: nat, r: Result<Report>)
    requires Fits(bodies) && Parse(bodies)
  {
    var kept := bodies[..Whole(bodies, cut)];
    r == Ok(Report(Packets(kept), Head(hash, prev, kept), Size(kept), Size(kept) != cut))
  }

  /** Recovery of any cut returns the packets of the whole frames, ends at the greatest frame
      boundary not past the cut, and reports a torn tail exactly when the cut is not a boundary. */
  lemma {:induction false} CutRecovers(hash: Hash, prev: Bytes32, bodies: seq<Bytes>, cut: nat)
    requires Fits(bodies) && Parse(bodies) && cut <= Size(bodies)
    ensures CutReport(hash, prev, bodies, cut, RecoverFrom(hash, prev, Log(hash, prev, bodies)[..cut]))
    decreases |bodies|
  {
    hide FromBytes, FrameHash, Frame, Prepend;
    if cut == 0 {
      assert bodies[..0] == [];
    } else {
      var body, tail := bodies[0], bodies[1..];
      LogCut(hash, prev, bodies, cut);
      if cut < OVERHEAD + |body| {
        RecoverTorn(hash, prev, prev, body, cut);
        assert bodies[..0] == [];
        hide RecoverFrom, Log;
      } else {
        var next, left := FrameHash(hash, prev, body), cut - OVERHEAD - |body|;
        var rest := Log(hash, next, tail)[..left];
        CutRecovers(hash, next, tail, left);
        RecoverAtFrame(hash, prev, prev, body, rest);
        CutReportCons(hash, prev, bodies, cut, RecoverFrom(hash, next, rest));
        hide RecoverFrom, Log, CutReport;
      }
    }
  }

  lemma LogCut(hash: Hash, prev: Bytes32, bodies: seq<Bytes>, cut: nat)
    requires Fits(bodies) && bodies != [] && cut <= Size(bodies)
    ensures var (f, len) := (Frame(hash, prev, bodies[0]), OVERHEAD + |bodies[0]|);
            Log(hash, prev, bodies)[..cut] ==
            if cut < len then f[..cut] else f + Log(hash, FrameHash(hash, prev, bodies[0]), bodies[1..])[..cut - len]
  {
    hide Frame, FrameHash;
  }

  lemma CutReportCons(hash: Hash, prev: Bytes32, bodies: seq<Bytes>, cut: nat, r: Result<Report>)
    requires Fits(bodies) && Parse(bodies) && bodies != [] && cut >= OVERHEAD + |bodies[0]|
    requires CutReport(hash, FrameHash(hash, prev, bodies[0]), bodies[1..], cut - OVERHEAD - |bodies[0]|, r)
    ensures CutReport(hash, prev, bodies, cut, Prepend([FromBytes(bodies[0]).value], OVERHEAD + |bodies[0]|, r))
  {
    hide FromBytes, FrameHash;
    var k := Whole(bodies[1..], cut - OVERHEAD - |bodies[0]|);
    var kept := bodies[..k + 1];
    assert kept[0] == bodies[0] && kept[1..] == bodies[1..][..k];
    assert Packets(kept) == [FromBytes(bodies[0]).value] + Packets(bodies[1..][..k]);
  }

  /** A whole log recovers exactly when every body parses; the first that does not is the error. */
  lemma {:induction false} WholeLogRecoversIff(hash: Hash, prev: Bytes32, bodies: seq<Bytes>)
    requires Fits(bodies)
    ensures RecoverFrom(hash, prev, Log(hash, prev, bodies)).Ok? <==> Parse(bodies)
    decreases |bodies|
  {
    if bodies != [] {
      var next := FrameHash(hash, prev, bodies[0]);
      RecoverAtFrame(hash, prev, prev, bodies[0], Log(hash, next, bodies[1..]));
      WholeLogRecoversIff(hash, next, bodies[1..]);
      hide FromBytes, RecoverFrom, FrameHash, Frame;
      assert Parse(bodies) <==> FromBytes(bodies[0]).Ok? && Parse(bodies[1..]) by {
        if FromBytes(bodies[0]).Ok? && Parse(bodies[1..]) {
          forall i | 0 <= i < |bodies| ensures FromBytes(bodies[i]).Ok? {
            assert i > 0 ==> bodies[i] == bodies[1..][i - 1];
          }
        }
      }
    }
  }

  // --------------------------------------------------------------------------
  // Exactly what is accepted
  // --------------------------------------------------------------------------

  /** Recovery passes over a genuine log and goes on from its head. */
  lemma {:induction false} RecoverAppended(hash: Hash, prev: Bytes32, bodies: seq<Bytes>, rest: Bytes)
    requires Fits(bodies) && Parse(bodies)
    ensures RecoverFrom(hash, prev, Log(hash, prev, bodies) + rest)
            == Prepend(Packets(bodies), Size(bodies), RecoverFrom(hash, Head(hash, prev, bodies), rest))
    decreases |bodies|
  {
    hide RecoverFrom, Frame, FrameHash, FromBytes;
    var r := RecoverFrom(hash, Head(hash, prev, bodies), rest);
    if bodies == [] {
      assert [] + rest == rest;
      assert r.Ok? ==> Packets(bodies) + r.value.packets == r.value.packets;
    } else {
      var next := FrameHash(hash, prev, bodies[0]);
      var tail := Log(hash, next, bodies[1..]);
      assert (Frame(hash, prev, bodies[0]) + tail) + rest == Frame(hash, prev, bodies[0]) + (tail + rest);
      RecoverAtFrame(hash, prev, prev, bodies[0], tail + rest);
      RecoverAppended(hash, next, bodies[1..], rest);
      assert Packets(bodies) == [FromBytes(bodies[0]).value] + Packets(bodies[1..]);
      hide Log, Head;
      assert r.Ok? ==>
          Packets(bodies) + r.value.packets
          == [FromBytes(bodies[0]).value] + (Packets(bodies[1..]) + r.value.packets);
    }
  }

  /** A log of packets with an incomplete frame, or nothing, behind it. */
  ghost predicate LogThenTorn(hash: Hash, prev: Bytes32, b: Bytes, bodies: seq<Bytes>, rest: Bytes) {
    Fits(bodies) && Parse(bodies) && b == Log(hash, prev, bodies) + rest && Torn(rest)
  }

  lemma AcceptsLogThenTorn(hash: Hash, prev: Bytes32, b: Bytes, bodies: seq<Bytes>, rest: Bytes)
    requires LogThenTorn(hash, prev, b, bodies, rest)
    ensures RecoverFrom(hash, prev, b)
            == Ok(Report(Packets(bodies), Head(hash, prev, bodies), Size(bodies), rest != []))
  {
    RecoverAppended(hash, prev, bodies, rest);
    var head := Head(hash, prev, bodies);
    assert RecoverFrom(hash, head, rest) == Ok(Report([], head, 0, rest != []));
    hide RecoverFrom, Torn, Log, Head, Frame;
    assert Packets(bodies) + [] == Packets(bodies);
  }

  lemma AcceptedIsLogThenTorn(hash: Hash, prev: Bytes32, b: Bytes)
    requires RecoverFrom(hash, prev, b).Ok?
    ensures var r := RecoverFrom(hash, prev, b).value;
            LogThenTorn(hash, prev, b, Encodings(r.packets), b[r.validLen..])
  {
    RecoverInverse(hash, prev, b);
    RecoveredReparse(hash, prev, b);
    hide RecoverFrom, Torn, Log, Head, Frame, FromBytes, ToBytes;
    var r := RecoverFrom(hash, prev, b).value;
    forall i | 0 <= i < |r.packets| ensures FromBytes(Encodings(r.packets)[i]).Ok? {
      assert Reparses(r.packets[i]);
    }
    assert b == b[..r.validLen] + b[r.validLen..];
  }

  /** Recovery accepts exactly the logs of packets that chain from `prev`, with or without a torn frame behind. */
  lemma AcceptsExactly(hash: Hash, prev: Bytes32, b: Bytes)
    ensures RecoverFrom(hash, prev, b).Ok? <==> exists bodies, rest :: LogThenTorn(hash, prev, b, bodies, rest)
  {
    hide LogThenTorn, RecoverFrom;
    if RecoverFrom(hash, prev, b).Ok? {
      AcceptedIsLogThenTorn(hash, prev, b);
    }
    if bodies, rest :| LogThenTorn(hash, prev, b, bodies, rest) {
      AcceptsLogThenTorn(hash, prev, b, bodies, rest);
    }
  }

  lemma {:induction false} LogSplit(hash: Hash, prev: Bytes32, bodies: seq<Bytes>, n: nat)
    requires Fits(bodies) && n <= |bodies|
    ensures Log(hash, prev, bodies)
            == Log(hash, prev, bodies[..n]) + Log(hash, Head(hash, prev, bodies[..n]), bodies[n..])
    decreases n
  {
    hide Frame, FrameHash;
    if n == 0 {
      assert bodies[..0] == [] && bodies[0..] == bodies;
      assert Log(hash, prev, []) == [];
    } else {
      LogSplit(hash, FrameHash(hash, prev, bodies[0]), bodies[1..], n - 1);
      assert bodies[..n][0] == bodies[0] && bodies[..n][1..] == bodies[1..][..n - 1]
             && bodies[n..] == bodies[1..][n - 1..];
    }
  }

  // --------------------------------------------------------------------------
  // Alterations
  // --------------------------------------------------------------------------

  function Overwrite(b: Bytes, at: nat, x: Bytes): Bytes
    requires at + |x| <= |b|
  {
    b[..at] + x + b[at + |x|..]
  }

  /** A log around its frame `i`. */
  lemma FrameWithin(hash: Hash, bodies: seq<Bytes>, i: nat)
    requires Fits(bodies) && i < |bodies|
    ensures var (b, kept) := (Log(hash, ZERO32, bodies), bodies[..i]);
            var head := Head(hash, ZERO32, kept);
            && Size(kept) + OVERHEAD + |bodies[i]| <= |b| && b[..Size(kept)] == Log(hash, ZERO32, kept)
            && b[Size(kept)..Size(kept) + OVERHEAD + |bodies[i]|] == Frame(hash, head, bodies[i])
            && b[Size(kept) + OVERHEAD + |bodies[i]|..] == Log(hash, FrameHash(hash, head, bodies[i]), bodies[i + 1..])
  {
    hide Frame, FrameHash, Head;
    LogSplit(hash, ZERO32, bodies, i);
    assert bodies[i..][0] == bodies[i] && bodies[i..][1..] == bodies[i + 1..];
  }

  /** The file behind frame `i`, with that frame overwritten by `x`. */
  function AlteredRest(hash: Hash, bodies: seq<Bytes>, i: nat, x: Bytes): Bytes
    requires Fits(bodies) && i < |bodies|
  {
    x + Log(hash, FrameHash(hash, Head(hash, ZERO32, bodies[..i]), bodies[i]), bodies[i + 1..])
  }

  lemma OverwrittenLog(hash: Hash, bodies: seq<Bytes>, i: nat, x: Bytes)
    requires Fits(bodies) && Parse(bodies) && i < |bodies| && |x| == OVERHEAD + |bodies[i]|
    ensures var (b, kept) := (Log(hash, ZERO32, bodies), bodies[..i]);
            && Size(kept) + |x| <= |b| && |AlteredRest(hash, bodies, i, x)| == |b| - Size(kept)
            && RecoverFrom(hash, ZERO32, Overwrite(b, Size(kept), x))
               == Prepend(Packets(kept), Size(kept),
                          RecoverFrom(hash, Head(hash, ZERO32, kept), AlteredRest(hash, bodies, i, x)))
  {
    hide RecoverFrom, FromBytes, Frame, FrameHash, Head, Prepend;
    FrameWithin(hash, bodies, i);
    hide Log;
    var b, kept, rest := Log(hash, ZERO32, bodies), bodies[..i], AlteredRest(hash, bodies, i, x);
    assert Overwrite(b, Size(kept), x) == Log(hash, ZERO32, kept) + rest;
    RecoverAppended(hash, ZERO32, kept, rest);
  }

  /** The altered header is intact but announces more than the file holds. */
  predicate LooksTorn(x: Bytes, rest: Bytes)
    requires |x| >= OVERHEAD
  {
    x[..4] == Magic() && |rest| < OVERHEAD + ReadBe32(x[4..8])
  }

  /** The alteration is another whole frame of the same size, with a chain value of its own. */
  predicate Rehashed(hash: Hash, head: Bytes32, x: Bytes)
    requires OVERHEAD <= |x| < OVERHEAD + U32_LIMIT
  {
    x == Frame(hash, head, x[40..|x| - 32])
  }

  /** Where a changed length field makes a frame end, its body's chain value does not happen to stand. */
  predicate NoShiftedHash(hash: Hash, head: Bytes32, x: Bytes, rest: Bytes)
    requires |x| >= OVERHEAD && x <= rest
  {
    var len := ReadBe32(x[4..8]);
    OVERHEAD + len != |x| && OVERHEAD + len <= |rest| ==>
      rest[40 + len..72 + len] != FrameHash(hash, head, rest[40..40 + len])
  }

  /** A damaged magic is reported as such, and an announced frame beyond the end of the file not at all. */
  lemma AlteredHeader(hash: Hash, head: Bytes32, x: Bytes, rest: Bytes)
    requires |x| >= OVERHEAD && x <= rest
    ensures x[..4] != Magic() ==> RecoverFrom(hash, head, rest) == Err(PaqueteCorrupto)
    ensures LooksTorn(x, rest) ==> RecoverFrom(hash, head, rest) == Ok(Report([], head, 0, true))
  {
    hide Magic, ReadBe32, FirstFrame, Prepend;
    assert rest[..4] == x[..4] && rest[4..8] == x[4..8];
  }

  /** A whole frame whose stored chain value, or that of its predecessor, does not match is reported. */
  lemma AlteredUnhashed(hash: Hash, head: Bytes32, x: Bytes, rest: Bytes)
    requires OVERHEAD <= |x| < OVERHEAD + U32_LIMIT && x <= rest
    requires x[..4] == Magic() && !LooksTorn(x, rest) && NoShiftedHash(hash, head, x, rest) && !Rehashed(hash, head, x)
    ensures RecoverFrom(hash, head, rest) == Err(IntegridadContextoCorrupta)
  {
    hide Magic, FrameHash, FromBytes, Prepend, Frame;
    assert rest[..4] == x[..4] && rest[4..8] == x[4..8] && rest[8..40] == x[8..40];
    var len := ReadBe32(x[4..8]);
    Be32OfRead(x[4..8]);
    hide ReadBe32, Be32;
    if OVERHEAD + len == |x| {
      assert rest[40..40 + len] == x[40..40 + len] && rest[40 + len..72 + len] == x[40 + len..72 + len];
      assert x[..72 + len] == x;
      if x[8..40] == head && x[40 + len..72 + len] == FrameHash(hash, head, x[40..40 + len]) {
        FrameBytes(hash, head, x, x[40..40 + len]);
      }
    }
  }

  /** A frame hashed anew is noticed by the frame behind it, unless the hash collides. */
  lemma AlteredRehashed(hash: Hash, head: Bytes32, body: Bytes, body': Bytes, later: seq<Bytes>)
    requires |body| < U32_LIMIT && |body'| < U32_LIMIT && Fits(later) && body != body'
    requires CollisionFree(hash, {FrameInput(head, body), FrameInput(head, body')})
    ensures RecoverFrom(hash, head, Frame(hash, head, body') + Log(hash, FrameHash(hash, head, body), later)).Ok?
            <==> later == [] && FromBytes(body').Ok?
  {
    hide RecoverFrom, FromBytes, Frame, FrameInput;
    var next := FrameHash(hash, head, body');
    RecoverAtFrame(hash, head, head, body', Log(hash, FrameHash(hash, head, body), later));
    RecoverEmpty(hash, next);
    if later != [] {
      if FrameHash(hash, head, body) == next {
        FrameInputInjective(head, body, head, body');
      }
      var chain := FrameHash(hash, head, body);
      RecoverAtFrame(hash, next, chain, later[0], Log(hash, FrameHash(hash, chain, later[0]), later[1..]));
    }
  }

  lemma RecoverEmpty(hash: Hash, prev: Bytes32)
    ensures RecoverFrom(hash, prev, []) == Ok(Report([], prev, 0, false))
  {}

  /** What is asked of the hash when frame `i` is overwritten with `x`. */
  ghost predicate HashHolds(hash: Hash, bodies: seq<Bytes>, i: nat, x: Bytes)
    requires Fits(bodies) && i < |bodies| && |x| == OVERHEAD + |bodies[i]|
  {
    var head := Head(hash, ZERO32, bodies[..i]);
    && NoShiftedHash(hash, head, x, AlteredRest(hash, bodies, i, x))
    && CollisionFree(hash, {FrameInput(head, bodies[i]), FrameInput(head, x[40..|x| - 32])})
  }

  /** The alterations of a frame that recovery cannot report. */
  ghost predicate Unreported(hash: Hash, bodies: seq<Bytes>, i: nat, x: Bytes)
    requires Fits(bodies) && i < |bodies| && |x| == OVERHEAD + |bodies[i]|
  {
    || LooksTorn(x, AlteredRest(hash, bodies, i, x))
    || (i == |bodies| - 1 && Rehashed(hash, Head(hash, ZERO32, bodies[..i]), x) && FromBytes(x[40..|x| - 32]).Ok?)
  }

  /** Whatever bytes a frame of a genuine log is overwritten with, recovery reports it, unless they announce a frame
      beyond the end of the file, or are the last frame made anew around another packet. */
  lemma AlterationReportedIff(hash: Hash, bodies: seq<Bytes>, i: nat, x: Bytes)
    requires Fits(bodies) && Parse(bodies) && i < |bodies| && |x| == OVERHEAD + |bodies[i]|
    requires x != Frame(hash, Head(hash, ZERO32, bodies[..i]), bodies[i]) && HashHolds(hash, bodies, i, x)
    requires Size(bodies[..i]) + |x| <= Size(bodies)
    ensures RecoverFrom(hash, ZERO32, Overwrite(Log(hash, ZERO32, bodies), Size(bodies[..i]), x)).Ok?
            <==> Unreported(hash, bodies, i, x)
  {
    hide RecoverFrom, FromBytes, Frame, FrameHash, Head, Log, Magic, ReadBe32, FrameInput, Overwrite, CollisionFree;
    OverwrittenLog(hash, bodies, i, x);
    var head, rest := Head(hash, ZERO32, bodies[..i]), AlteredRest(hash, bodies, i, x);
    AlteredHeader(hash, head, x, rest);
    var body' := x[40..|x| - 32];
    if Rehashed(hash, head, x) {
      AlteredRehashed(hash, head, bodies[i], body', bodies[i + 1..]);
      RehashedHeader(hash, head, x, rest);
    } else if x[..4] == Magic() && !LooksTorn(x, rest) {
      AlteredUnhashed(hash, head, x, rest);
    }
  }

  lemma RehashedHeader(hash: Hash, head: Bytes32, x: Bytes, rest: Bytes)
    requires OVERHEAD <= |x| < OVERHEAD + U32_LIMIT && x <= rest && Rehashed(hash, head, x)
    ensures x[..4] == Magic() && !LooksTorn(x, rest)
  {
    var body := x[40..|x| - 32];
    FrameFields(hash, head, body, []);
    hide FrameHash, Magic, Frame, ReadBe32;
    assert x + [] == x;
  }

  /** Frame `i` with another length in its header. */
  function Relengthed(hash: Hash, bodies: seq<Bytes>, i: nat, length: u32): (x: Bytes)
    requires Fits(bodies) && i < |bodies|
    ensures |x| == OVERHEAD + |bodies[i]|
  {
    Overwrite(Frame(hash, Head(hash, ZERO32, bodies[..i]), bodies[i]), 4, Be32(length))
  }

  /** A changed length field is reported exactly when the frame it announces still fits the file. Beyond the end
      of the file the frame and all behind it are dropped like a torn tail, without an error. */
  lemma AlteredLengthReportedIff(hash: Hash, bodies: seq<Bytes>, i: nat, length: u32)
    requires Fits(bodies) && Parse(bodies) && i < |bodies| && length != |bodies[i]|
    requires var x := Relengthed(hash, bodies, i, length);
             NoShiftedHash(hash, Head(hash, ZERO32, bodies[..i]), x, AlteredRest(hash, bodies, i, x))
    ensures var (b, kept) := (Log(hash, ZERO32, bodies), bodies[..i]);
            && Size(kept) + OVERHEAD <= |b|
            && RecoverFrom(hash, ZERO32, Overwrite(b, Size(kept) + 4, Be32(length))) ==
               if Size(kept) + OVERHEAD + length > |b|
               then Ok(Report(Packets(kept), Head(hash, ZERO32, kept), Size(kept), true))
               else Err(IntegridadContextoCorrupta)
  {
    hide RecoverFrom, FromBytes, FrameHash, Head, Log, Magic, ReadBe32, Be32, NoShiftedHash;
    var head, kept, x := Head(hash, ZERO32, bodies[..i]), bodies[..i], Relengthed(hash, bodies, i, length);
    OverwrittenLog(hash, bodies, i, x);
    RelengthedFields(hash, head, bodies[i], length);
    OverwriteInside(hash, bodies, i, length);
    hide Frame, Overwrite, Relengthed;
    var rest := AlteredRest(hash, bodies, i, x);
    AlteredHeader(hash, head, x, rest);
    if !LooksTorn(x, rest) {
      AlteredUnhashed(hash, head, x, rest);
    }
    assert Packets(kept) + [] == Packets(kept);
  }

  lemma RelengthedFields(hash: Hash, head: Bytes32, body: Bytes, length: u32)
    requires |body| < U32_LIMIT && length != |body|
    ensures var x := Overwrite(Frame(hash, head, body), 4, Be32(length));
            x[..4] == Magic() && x[4..8] == Be32(length) && !Rehashed(hash, head, x)
  {
    FrameFields(hash, head, body, []);
    var f, x := Frame(hash, head, body), Overwrite(Frame(hash, head, body), 4, Be32(length));
    assert f + [] == f;
    FrameFields(hash, head, x[40..|x| - 32], []);
    var g := Frame(hash, head, x[40..|x| - 32]);
    assert g + [] == g;
    hide FrameHash, Magic, Frame, ReadBe32, Be32;
    assert x[..4] == f[..4] && x[4..8] == Be32(length);
    assert ReadBe32(x[4..8]) != ReadBe32(g[4..8]);
  }

  lemma OverwriteInside(hash: Hash, bodies: seq<Bytes>, i: nat, length: u32)
    requires Fits(bodies) && i < |bodies|
    ensures var (b, start) := (Log(hash, ZERO32, bodies), Size(bodies[..i]));
            var x := Relengthed(hash, bodies, i, length);
            && start + |x| <= |b| && Overwrite(b, start + 4, Be32(length)) == Overwrite(b, start, x)
  {
    FrameWithin(hash, bodies, i);
    hide Log, Head, Frame, Be32, Overwrite;
    OverwriteNested(Log(hash, ZERO32, bodies), Size(bodies[..i]), OVERHEAD + |bodies[i]|, 4, Be32(length));
  }

  lemma OverwriteNested(b: Bytes, start: nat, len: nat, at: nat, y: Bytes)
    requires start + len <= |b| && at + |y| <= len
    ensures Overwrite(b, start + at, y) == Overwrite(b, start, Overwrite(b[start..start + len], at, y))
  {
    var f := b[start..start + len];
    var x := Overwrite(f, at, y);
    assert |x| == len;
    assert b[..start + at] == b[..start] + f[..at];
    assert b[start + at + |y|..] == f[at + |y|..] + b[start + len..];
    assert b[..start] + (f[..at] + y + f[at + |y|..]) + b[start + len..]
        == (b[..start] + f[..at]) + y + (f[at + |y|..] + b[start + len..]);
  }

  // --------------------------------------------------------------------------
  // Order evidence
  // --------------------------------------------------------------------------

  /** The chain value in front of frame `i`. */
  function ChainAt(hash: Hash, bodies: seq<Bytes>, i: nat): Bytes32
    requires Fits(bodies) && i <= |bodies|
  {
    Head(hash, ZERO32, bodies[..i])
  }

  ghost predicate DistinctChain(hash: Hash, bodies: seq<Bytes>)
    requires Fits(bodies)
  {
    forall i, j :: 0 <= i < j <= |bodies| ==> ChainAt(hash, bodies, i) != ChainAt(hash, bodies, j)
  }

  /** Whole frames of a genuine log, picked in any order and any number of times. */
  function Picked(hash: Hash, bodies: seq<Bytes>, picks: seq<nat>): Bytes
    requires Fits(bodies) && forall k :: 0 <= k < |picks| ==> picks[k] < |bodies|
  {
    if picks == [] then []
    else Frame(hash, ChainAt(hash, bodies, picks[0]), bodies[picks[0]]) + Picked(hash, bodies, picks[1..])
  }

  lemma {:induction false} HeadSnoc(hash: Hash, prev: Bytes32, bodies: seq<Bytes>)
    requires Fits(bodies) && bodies != []
    ensures Head(hash, prev, bodies) == FrameHash(hash, Head(hash, prev, bodies[..|bodies| - 1]), bodies[|bodies| - 1])
    decreases |bodies|
  {
    hide FrameHash;
    if |bodies| > 1 {
      var init := bodies[..|bodies| - 1];
      HeadSnoc(hash, FrameHash(hash, prev, bodies[0]), bodies[1..]);
      assert bodies[1..][..|bodies| - 2] == init[1..];
      assert init[0] == bodies[0];
    } else {
      assert bodies[..0] == [] && bodies[1..] == [];
    }
  }

  lemma ChainStep(hash: Hash, bodies: seq<Bytes>, i: nat)
    requires Fits(bodies) && i < |bodies|
    ensures ChainAt(hash, bodies, i + 1) == FrameHash(hash, ChainAt(hash, bodies, i), bodies[i])
  {
    HeadSnoc(hash, ZERO32, bodies[..i + 1]);
    assert bodies[..i + 1][..i] == bodies[..i];
  }

  lemma PickedNext(hash: Hash, bodies: seq<Bytes>, picks: seq<nat>, k: nat)
    requires Fits(bodies) && DistinctChain(hash, bodies) && k <= |bodies| && picks != []
    requires forall j :: 0 <= j < |picks| ==> picks[j] < |bodies|
    requires RecoverFrom(hash, ChainAt(hash, bodies, k), Picked(hash, bodies, picks)).Ok?
    ensures picks[0] == k < |bodies|
    ensures RecoverFrom(hash, ChainAt(hash, bodies, k + 1), Picked(hash, bodies, picks[1..])).Ok?
  {
    hide Frame, FrameHash, FromBytes, RecoverFrom, Head;
    var i := picks[0];
    RecoverAtFrame(hash, ChainAt(hash, bodies, k), ChainAt(hash, bodies, i), bodies[i],
                   Picked(hash, bodies, picks[1..]));
    hide Picked, ChainAt;
    assert ChainAt(hash, bodies, i) == ChainAt(hash, bodies, k);
    assert i == k;
    ChainStep(hash, bodies, k);
  }

  /** From chain value `k` on, a pick of whole frames that recovers is the run of frames k, k + 1, ... */
  lemma {:induction false} PickedInOrder(hash: Hash, bodies: seq<Bytes>, picks: seq<nat>, k: nat)
    requires Fits(bodies) && DistinctChain(hash, bodies) && k <= |bodies|
    requires forall j :: 0 <= j < |picks| ==> picks[j] < |bodies|
    requires RecoverFrom(hash, ChainAt(hash, bodies, k), Picked(hash, bodies, picks)).Ok?
    ensures k + |picks| <= |bodies| && forall j :: 0 <= j < |picks| ==> picks[j] == k + j
    decreases |picks|
  {
    hide Frame, FrameHash, FromBytes, RecoverFrom, Head;
    if picks != [] {
      PickedNext(hash, bodies, picks, k);
      hide Picked, DistinctChain, ChainAt;
      PickedInOrder(hash, bodies, picks[1..], k + 1);
      forall j | 0 <= j < |picks| ensures picks[j] == k + j {
        assert j > 0 ==> picks[j] == picks[1..][j - 1];
      }
    }
  }

  lemma {:induction false} PickedPrefix(hash: Hash, bodies: seq<Bytes>, picks: seq<nat>, k: nat)
    requires Fits(bodies) && k + |picks| <= |bodies| && forall j :: 0 <= j < |picks| ==> picks[j] == k + j
    ensures Picked(hash, bodies, picks) == Log(hash, ChainAt(hash, bodies, k), bodies[k..k + |picks|])
    decreases |picks|
  {
    hide Frame, FrameHash, Head;
    if picks != [] {
      ChainStep(hash, bodies, k);
      hide ChainAt;
      PickedPrefix(hash, bodies, picks[1..], k + 1);
      var part := bodies[k..k + |picks|];
      assert part[0] == bodies[k] && part[1..] == bodies[k + 1..k + |picks|];
    }
  }

  /** Deleting, swapping or duplicating whole frames is noticed: a pick recovers exactly when it is
      a prefix of the genuine log (all of whose bodies parse). */
  lemma ReorderingDetected(hash: Hash, bodies: seq<Bytes>, picks: seq<nat>)
    requires Fits(bodies) && Parse(bodies) && DistinctChain(hash, bodies)
    requires forall j :: 0 <= j < |picks| ==> picks[j] < |bodies|
    ensures RecoverFrom(hash, ZERO32, Picked(hash, bodies, picks)).Ok?
            <==> |picks| <= |bodies| && forall j :: 0 <= j < |picks| ==> picks[j] == j
    ensures RecoverFrom(hash, ZERO32, Picked(hash, bodies, picks)).Ok? ==>
            Picked(hash, bodies, picks) <= Log(hash, ZERO32, bodies)
  {
    hide Frame, FrameHash, FromBytes, RecoverFrom, Picked, Log;
    assert bodies[..0] == [];
    assert ChainAt(hash, bodies, 0) == ZERO32;
    hide Head, ChainAt;
    if RecoverFrom(hash, ZERO32, Picked(hash, bodies, picks)).Ok? {
      PickedInOrder(hash, bodies, picks, 0);
    }
    if |picks| <= |bodies| && forall j :: 0 <= j < |picks| ==> picks[j] == j {
      PickedPrefix(hash, bodies, picks, 0);
      assert bodies[0..|picks|] == bodies[..|picks|];
      WholeLogRecoversIff(hash, ZERO32, bodies[..|picks|]);
      LogPrefix(hash, ZERO32, bodies, |picks|);
    }
  }

  lemma LogPrefix(hash: Hash, prev: Bytes32, bodies: seq<Bytes>, n: nat)
    requires Fits(bodies) && n <= |bodies|
    ensures Log(hash, prev, bodies[..n]) <= Log(hash, prev, bodies)
  {
    LogSplit(hash, prev, bodies, n);
  }

  // --------------------------------------------------------------------------
  // Equal heads
  // --------------------------------------------------------------------------

  lemma FrameInputInjective(prev: Bytes32, body: Bytes, prev': Bytes32, body': Bytes)
    requires |body| < U32_LIMIT && |body'| < U32_LIMIT && FrameInput(prev, body) == FrameInput(prev', body')
    ensures prev == prev' && body == body'
  {
    var x, y := FrameInput(prev, body), FrameInput(prev', body');
    assert |Ascii("CryptoNugget:WAL:Frame:v1")| == 25;
    assert x[25..57] == prev && y[25..57] == prev';
    assert x[65..] == body && y[65..] == body';
  }

  function Front(bodies: seq<Bytes>): (front: seq<Bytes>)
    requires Fits(bodies) && bodies != []
    ensures Fits(front) && |front| == |bodies| - 1
  {
    bodies[..|bodies| - 1]
  }

  function Last(bodies: seq<Bytes>): (body: Bytes)
    requires Fits(bodies) && bodies != []
    ensures |body| < U32_LIMIT && bodies == Front(bodies) + [body]
  {
    bodies[|bodies| - 1]
  }

  /** What the hash is applied to along a log. */
  ghost function Inputs(hash: Hash, bodies: seq<Bytes>): set<Bytes>
    requires Fits(bodies)
    decreases |bodies|
  {
    if bodies == [] then {}
    else Inputs(hash, Front(bodies)) + {FrameInput(Head(hash, ZERO32, Front(bodies)), Last(bodies))}
  }

  /** The hash neither collides on the given inputs nor sends one of them to the genesis value. */
  ghost predicate Chained(hash: Hash, inputs: set<Bytes>) {
    && CollisionFree(hash, inputs)
    && forall x :: x in inputs ==> hash(x) != ZERO32
  }

  lemma LastInput(hash: Hash, bodies: seq<Bytes>)
    requires Fits(bodies) && bodies != []
    ensures var input := FrameInput(Head(hash, ZERO32, Front(bodies)), Last(bodies));
            && input in Inputs(hash, bodies) && Inputs(hash, Front(bodies)) <= Inputs(hash, bodies)
            && Head(hash, ZERO32, bodies) == hash(input)
  {
    HeadSnoc(hash, ZERO32, bodies);
    hide Head, FrameInput, Fits;
  }

  lemma NeverGenesis(hash: Hash, bodies: seq<Bytes>, inputs: set<Bytes>)
    requires Fits(bodies) && bodies != [] && Inputs(hash, bodies) <= inputs && Chained(hash, inputs)
    ensures Head(hash, ZERO32, bodies) != ZERO32
  {
    hide Head, Inputs, FrameInput, CollisionFree, Fits, Front, Last;
    LastInput(hash, bodies);
  }

  lemma SameLast(hash: Hash, xs: seq<Bytes>, ys: seq<Bytes>, inputs: set<Bytes>)
    requires Fits(xs) && Fits(ys) && xs != [] && ys != []
    requires Inputs(hash, xs) <= inputs && Inputs(hash, ys) <= inputs && Chained(hash, inputs)
    requires Head(hash, ZERO32, xs) == Head(hash, ZERO32, ys)
    ensures Last(xs) == Last(ys)
    ensures Head(hash, ZERO32, Front(xs)) == Head(hash, ZERO32, Front(ys))
    ensures Inputs(hash, Front(xs)) <= inputs && Inputs(hash, Front(ys)) <= inputs
  {
    hide Head, Inputs, FrameInput, Chained, Fits, Front, Last;
    LastInput(hash, xs);
    LastInput(hash, ys);
    SameInput(hash, inputs, Head(hash, ZERO32, Front(xs)), Last(xs), Head(hash, ZERO32, Front(ys)), Last(ys));
  }

  lemma SameInput(hash: Hash, inputs: set<Bytes>, prev: Bytes32, body: Bytes, prev': Bytes32, body': Bytes)
    requires |body| < U32_LIMIT && |body'| < U32_LIMIT
    requires Chained(hash, inputs) && FrameInput(prev, body) in inputs && FrameInput(prev', body') in inputs
    requires hash(FrameInput(prev, body)) == hash(FrameInput(prev', body'))
    ensures prev == prev' && body == body'
  {
    hide FrameInput;
    assert FrameInput(prev, body) == FrameInput(prev', body');
    FrameInputInjective(prev, body, prev', body');
  }

  lemma {:induction false} EqualHeadsEqualBodies(hash: Hash, xs: seq<Bytes>, ys: seq<Bytes>, inputs: set<Bytes>)
    requires Fits(xs) && Fits(ys) && Inputs(hash, xs) <= inputs && Inputs(hash, ys) <= inputs
    requires Chained(hash, inputs)
    requires Head(hash, ZERO32, xs) == Head(hash, ZERO32, ys)
    ensures xs == ys
    decreases |xs|
  {
    assert Head(hash, ZERO32, []) == ZERO32;
    hide Head, Inputs, Chained, Fits, Front, Last;
    if xs != [] {
      NeverGenesis(hash, xs, inputs);
    }
    if ys != [] {
      NeverGenesis(hash, ys, inputs);
    }
    if xs != [] && ys != [] {
      SameLast(hash, xs, ys, inputs);
      EqualHeadsEqualBodies(hash, Front(xs), Front(ys), inputs);
    }
  }

  /** Two accepted logs with the same head hold the same packets, and the same valid bytes. */
  lemma EqualHeadsEqualLogs(hash: Hash, b: Bytes, c: Bytes)
    requires RecoverFrom(hash, ZERO32, b).Ok? && RecoverFrom(hash, ZERO32, c).Ok?
    requires var x := Encodings(RecoverFrom(hash, ZERO32, b).value.packets);
             var y := Encodings(RecoverFrom(hash, ZERO32, c).value.packets);
             && Fits(x) && Fits(y)
             && Chained(hash, Inputs(hash, x) + Inputs(hash, y))
             && RecoverFrom(hash, ZERO32, b).value.head == RecoverFrom(hash, ZERO32, c).value.head
    ensures var r, s := RecoverFrom(hash, ZERO32, b).value, RecoverFrom(hash, ZERO32, c).value;
            && r.packets == s.packets
            && r.validLen <= |b| && s.validLen <= |c| && b[..r.validLen] == c[..s.validLen]
  {
    hide RecoverFrom, Inputs, Head, Log, Chained;
    RecoverInverse(hash, ZERO32, b);
    RecoverInverse(hash, ZERO32, c);
    var ps, qs := RecoverFrom(hash, ZERO32, b).value.packets, RecoverFrom(hash, ZERO32, c).value.packets;
    EqualHeadsEqualBodies(hash, Encodings(ps), Encodings(qs),
                          Inputs(hash, Encodings(ps)) + Inputs(hash, Encodings(qs)));
    RecoveredReparse(hash, ZERO32, b);
    RecoveredReparse(hash, ZERO32, c);
    forall i | 0 <= i < |ps| ensures ps[i] == qs[i] {
      assert Encodings(ps)[i] == Encodings(qs)[i];
      assert Reparses(ps[i]) && Reparses(qs[i]);
    }
  }
}
