/** The 128-bit anti-replay window shared by src/modes/replay.rs and src/modes/chrono.rs,
 *  and the set of accepted sequence numbers it stands for.
 */
module SlidingWindow {
  import opened Words
  import opened Primitives
  import opened Bitmaps

  const MAX_WINDOW: u64 := 128

  datatype Window = Window(highest: Option<u64>, bitmap: u128)

  const EMPTY: Window := Window(None, 0)

  function Mask(size: u64): u128
    requires size <= MAX_WINDOW
  {
    if size >= 128 then U128_MAX
    else
      OneShl(size);
      Shl(1, size) - 1
  }

  /** May `sequence` still be accepted? */
  function Check(w: Window, sequence: u64, size: u64): (r: Result<()>)
    requires size <= MAX_WINDOW
  {
    if w.highest.None? || sequence > w.highest.value then Ok(())
    else if w.highest.value - sequence >= size then Err(FueraDeOrden)
    else if And(w.bitmap, Shl(1, w.highest.value - sequence)) != 0 then Err(Repetido)
    else Ok(())
  }

  /** The window after accepting `sequence`, which is at most 127 below the highest one. */
  function Record(w: Window, sequence: u64, size: u64): (w': Window)
    requires size <= MAX_WINDOW
    requires w.highest.None? || w.highest.value < sequence + 128
  {
    if w.highest.None? then Window(Some(sequence), 1)
    else if sequence > w.highest.value then
      Window(Some(sequence), And(Moved(w.bitmap, sequence - w.highest.value), Mask(size)))
    else
      BitOfSet(w.bitmap, w.highest.value - sequence, 0);
      w.(bitmap := Or(w.bitmap, Shl(1, w.highest.value - sequence)))
  }

  /** The bitmap seen from a highest sequence `shift` further on, which is itself set. */
  function Moved(bitmap: u128, shift: nat): (x: u128) {
    if shift >= 128 then 1
    else
      OrFits128(Shl(bitmap, shift), 1);
      Or(Shl(bitmap, shift), 1)
  }

  lemma BitOfMoved(bitmap: u128, shift: nat, d: nat)
    requires 0 < shift && d < 128
    ensures Bit(Moved(bitmap, shift), d) <==> d == 0 || (shift <= d && Bit(bitmap, d - shift))
  {
    BitOfPow2(0, d);
    if shift < 128 {
      BitOfOr(Shl(bitmap, shift), 1, d);
      BitOfShl(bitmap, shift, d);
    }
  }

  lemma BitOfMask(x: u128, size: u64, d: nat)
    requires size <= MAX_WINDOW && d < 128
    ensures Bit(And(x, Mask(size)), d) <==> d < size && Bit(x, d)
  {
    BitOfAnd(x, Mask(size), d);
    BitOfOnes(if size >= 128 then 128 else size, d);
    Pow2Of128();
    if size < 128 {
      OneShl(size);
    }
  }

  // --------------------------------------------------------------------------
  // The unbounded model: the set of every sequence ever accepted
  // --------------------------------------------------------------------------

  ghost predicate IsTop(accepted: set<nat>, top: nat) {
    top in accepted && forall s :: s in accepted ==> s <= top
  }

  lemma {:induction false} TopExists(accepted: set<nat>)
    requires accepted != {}
    ensures exists top :: IsTop(accepted, top)
  {
    var x :| x in accepted;
    var rest := accepted - {x};
    assert accepted == rest + {x};
    if rest == {} {
      assert IsTop(accepted, x);
    } else {
      TopExists(rest);
      var t :| IsTop(rest, t);
      assert IsTop(accepted, if x > t then x else t);
    }
  }

  ghost function Top(accepted: set<nat>): (top: nat)
    requires accepted != {}
    ensures IsTop(accepted, top)
  {
    TopExists(accepted);
    var top :| IsTop(accepted, top);
    top
  }

  /** The verdict of the model that remembers everything. */
  ghost function SetVerdict(accepted: set<nat>, sequence: u64, size: u64): (r: Result<()>) {
    if accepted == {} || sequence > Top(accepted) then Ok(())
    else if Top(accepted) - sequence >= size then Err(FueraDeOrden)
    else if sequence in accepted then Err(Repetido)
    else Ok(())
  }

  /** The bitmap is the last `size` members of the set, and nothing else. */
  ghost predicate Tracks(w: Window, accepted: set<nat>, size: u64) {
    if accepted == {} then w == EMPTY
    else
      && w.highest.Some? && IsTop(accepted, w.highest.value)
      && forall d: nat {:trigger Bit(w.bitmap, d)} :: d < 128 ==>
           (Bit(w.bitmap, d) <==> d < size && d <= w.highest.value && w.highest.value - d in accepted)
  }

  lemma CheckRefinesSet(w: Window, accepted: set<nat>, sequence: u64, size: u64)
    requires size <= MAX_WINDOW && Tracks(w, accepted, size)
    ensures Check(w, sequence, size) == SetVerdict(accepted, sequence, size)
  {
    if accepted != {} {
      assert Top(accepted) == w.highest.value;
      if sequence <= w.highest.value < sequence + size {
        BitOfTest(w.bitmap, w.highest.value - sequence);
      }
    }
  }

  lemma RecordTracks(w: Window, accepted: set<nat>, sequence: u64, size: u64)
    requires 1 <= size <= MAX_WINDOW && Tracks(w, accepted, size)
    requires Check(w, sequence, size).Ok?
    ensures Tracks(Record(w, sequence, size), accepted + {sequence}, size)
  {
    var w' := Record(w, sequence, size);
    forall d: nat | d < 128
      ensures Bit(w'.bitmap, d) <==> d < size && d <= w'.highest.value && w'.highest.value - d in accepted + {sequence}
    {
      if w.highest.None? {
        BitOfPow2(0, d);
      } else if sequence > w.highest.value {
        var shift := sequence - w.highest.value;
        BitOfMask(Moved(w.bitmap, shift), size, d);
        BitOfMoved(w.bitmap, shift, d);
      } else {
        BitOfSet(w.bitmap, w.highest.value - sequence, d);
      }
    }
  }

  // --------------------------------------------------------------------------
  // Whole runs: a sequence of authentic sequence numbers offered in any order
  // --------------------------------------------------------------------------

  function Offer(w: Window, sequence: u64, size: u64): (w': Window)
    requires size <= MAX_WINDOW
  {
    if Check(w, sequence, size).Ok? then Record(w, sequence, size) else w
  }

  function RunWindow(w: Window, offers: seq<u64>, size: u64): (r: (Window, seq<Result<()>>))
    requires size <= MAX_WINDOW
    decreases |offers|
  {
    if offers == [] then (w, [])
    else
      var rest := RunWindow(Offer(w, offers[0], size), offers[1..], size);
      (rest.0, [Check(w, offers[0], size)] + rest.1)
  }

  ghost function RunSet(accepted: set<nat>, offers: seq<u64>, size: u64): (r: (set<nat>, seq<Result<()>>))
    decreases |offers|
  {
    if offers == [] then (accepted, [])
    else
      var v := SetVerdict(accepted, offers[0], size);
      var rest := RunSet(if v.Ok? then accepted + {offers[0]} else accepted, offers[1..], size);
      (rest.0, [v] + rest.1)
  }

  /** For every window size and every run, the bitmap gives the verdicts of the unbounded set. */
  lemma {:induction false} RunRefinesSet(w: Window, accepted: set<nat>, offers: seq<u64>, size: u64)
    requires 1 <= size <= MAX_WINDOW && Tracks(w, accepted, size)
    ensures RunWindow(w, offers, size).1 == RunSet(accepted, offers, size).1
    ensures Tracks(RunWindow(w, offers, size).0, RunSet(accepted, offers, size).0, size)
    decreases |offers|
  {
    if offers != [] {
      CheckRefinesSet(w, accepted, offers[0], size);
      if Check(w, offers[0], size).Ok? {
        RecordTracks(w, accepted, offers[0], size);
        RunRefinesSet(Record(w, offers[0], size), accepted + {offers[0]}, offers[1..], size);
      } else {
        RunRefinesSet(w, accepted, offers[1..], size);
      }
    }
  }

  // --------------------------------------------------------------------------
  // Counting losses
  // --------------------------------------------------------------------------

  /** The sequences of the last `n` positions up to `top` that were never accepted. */
  ghost function Lost(accepted: set<nat>, top: nat, n: nat): (s: set<nat>) {
    set s: nat | top < s + n && s <= top && s !in accepted
  }

  lemma {:induction false} OnesAndLosses(w: Window, accepted: set<nat>, size: u64, n: nat)
    requires size <= MAX_WINDOW && Tracks(w, accepted, size) && accepted != {}
    requires n <= size && n <= w.highest.value + 1
    ensures CountOnes(w.bitmap, n) + |Lost(accepted, w.highest.value, n)| == n
  {
    var top := w.highest.value;
    if n == 0 {
      assert Lost(accepted, top, 0) == {};
    } else {
      OnesAndLosses(w, accepted, size, n - 1);
      var s := top - (n - 1);
      if Bit(w.bitmap, n - 1) {
        assert Lost(accepted, top, n) == Lost(accepted, top, n - 1);
      } else {
        assert Lost(accepted, top, n) == Lost(accepted, top, n - 1) + {s};
      }
    }
  }

  lemma {:induction false} NoOnesAbove(w: Window, accepted: set<nat>, size: u64, n: nat, m: nat)
    requires size <= MAX_WINDOW && Tracks(w, accepted, size) && accepted != {}
    requires n <= m <= 128 && (n >= size || n > w.highest.value)
    ensures CountOnes(w.bitmap, m) == CountOnes(w.bitmap, n)
    decreases m
  {
    if m > n {
      NoOnesAbove(w, accepted, size, n, m - 1);
    }
  }
}
