/** Whole runs of a dual-slot container: commits, damage, cuts, and atomic saves with crashes. */
module DualSlotRuns {
  import opened Words
  import opened Primitives
  import opened DualSlot

  /** The n-th commit of a history made generation n. */
  datatype Committed = Committed(payload: Bytes, nonce: Nonce)

  function LastOdd(n: nat): (g: nat)
    ensures g <= n <= g + 1 && (n > 0 ==> g > 0) && (g % 2 == 1 || g == 0)
  {
    if n == 0 || n % 2 == 1 then n else n - 1
  }

  function LastEven(n: nat): (g: nat)
    ensures g <= n <= g + 1 && g % 2 == 0
  {
    if n % 2 == 0 then n else n - 1
  }

  ghost predicate Holds(aead: Aead, wrap: Bytes32, generation: u64, slot: Bytes, history: seq<Committed>, g: nat)
    requires g <= |history|
  {
    && generation == g
    && if g == 0 then slot == []
       else SealSlot(aead, generation, history[g - 1].payload, wrap, history[g - 1].nonce) == Ok(slot)
  }

  /** The odd one of the two newest generations is in slot A, the even one in slot B. */
  ghost predicate Matches(aead: Aead, wrap: Bytes32, c: Container, history: seq<Committed>) {
    && Holds(aead, wrap, c.generationA, c.slotA, history, LastOdd(|history|))
    && Holds(aead, wrap, c.generationB, c.slotB, history, LastEven(|history|))
  }

  lemma CommitMatches(aead: Aead, wrap: Bytes32, c: Container, history: seq<Committed>, payload: Bytes, nonce: Nonce)
    requires Matches(aead, wrap, c, history)
    ensures var (c', r) := Commit(aead, c, payload, wrap, nonce);
            if r.Err? then c' == c
            else r.value == |history| + 1 && Matches(aead, wrap, c', history + [Committed(payload, nonce)])
  {
    hide SealSlot;
  }

  function Payload(history: seq<Committed>, g: u64): Result<(u64, Bytes)>
    requires 0 < g <= |history|
  {
    Ok((g, history[g - 1].payload))
  }

  lemma HeldIsTried(aead: Aead, wrap: Bytes32, generation: u64, slot: Bytes, history: seq<Committed>, g: nat)
    requires aead.Sound() && g <= |history| && Holds(aead, wrap, generation, slot, history, g)
    ensures if g == 0 then TrySlot(aead, wrap, generation, slot) == None
            else TrySlot(aead, wrap, generation, slot) == Some(Payload(history, generation).value)
  {
    if g > 0 {
      OpenOfSealed(aead, generation, history[g - 1].payload, wrap, history[g - 1].nonce);
    }
    hide OpenSlot, SealSlot;
  }

  /** Undamaged, the newest generation is recovered. */
  lemma RecoversNewest(aead: Aead, wrap: Bytes32, c: Container, history: seq<Committed>)
    requires aead.Sound() && Matches(aead, wrap, c, history)
    ensures RecoverLatest(aead, c, wrap) ==
            if history == [] then Err(PaqueteCorrupto) else Ok((|history|, history[|history| - 1].payload))
  {
    HeldIsTried(aead, wrap, c.generationA, c.slotA, history, LastOdd(|history|));
    HeldIsTried(aead, wrap, c.generationB, c.slotB, history, LastEven(|history|));
    hide TrySlot, SealSlot;
  }

  // --------------------------------------------------------------------------
  // Damage to the newest slot
  // --------------------------------------------------------------------------

  function NewestGeneration(c: Container): u64 {
    Max(c.generationA, c.generationB)
  }

  /** The newest slot overwritten with other bytes. */
  function Damaged(c: Container, bytes: Bytes): Container {
    if c.generationA >= c.generationB then c.(slotA := bytes) else c.(slotB := bytes)
  }

  /** Whatever happens to the newest slot, unless it still authenticates the generation before is recovered. */
  lemma DamageFallsBack(aead: Aead, wrap: Bytes32, c: Container, history: seq<Committed>, bytes: Bytes)
    requires aead.Sound() && Matches(aead, wrap, c, history)
    requires !Usable(aead, wrap, NewestGeneration(c), bytes)
    ensures RecoverLatest(aead, Damaged(c, bytes), wrap) ==
            if |history| < 2 then Err(PaqueteCorrupto) else Ok((|history| - 1, history[|history| - 2].payload))
  {
    HeldIsTried(aead, wrap, c.generationA, c.slotA, history, LastOdd(|history|));
    HeldIsTried(aead, wrap, c.generationB, c.slotB, history, LastEven(|history|));
    assert TrySlot(aead, wrap, NewestGeneration(c), bytes) == None;
    assert c.generationA == LastOdd(|history|) && c.generationB == LastEven(|history|);
    hide TrySlot, SealSlot, Usable, Holds, Matches;
    if |history| % 2 == 1 {
      assert NewestGeneration(c) == c.generationA && Damaged(c, bytes) == c.(slotA := bytes);
    } else if |history| > 0 {
      assert NewestGeneration(c) == c.generationB && Damaged(c, bytes) == c.(slotB := bytes);
    }
    hide LastOdd, LastEven;
  }

  // --------------------------------------------------------------------------
  // Cuts of the serialised image
  // --------------------------------------------------------------------------

  /** A cut that leaves slot A complete recovers the generation in A; a shorter one decodes to nothing. */
  lemma CutRecovers(aead: Aead, wrap: Bytes32, c: Container, history: seq<Committed>, cut: nat)
    requires aead.Sound() && Matches(aead, wrap, c, history) && history != []
    requires Encode(c).Ok? && cut <= |Encode(c).value|
    ensures |Encode(c).value| == End(c)
    ensures var d := Decode(Encode(c).value[..cut]);
            if cut < EndA(c) then d == Err(PaqueteCorrupto)
            else
              && d.Ok?
              && RecoverLatest(aead, d.value, wrap) ==
                 Payload(history, if cut == End(c) then |history| else LastOdd(|history|))
  {
    hide Encode, Decode, SealSlot, TrySlot;
    assert Encode(c).value + [] == Encode(c).value;
    DecodeOfCut(c, [], cut);
    HeldIsTried(aead, wrap, c.generationA, c.slotA, history, LastOdd(|history|));
    HeldIsTried(aead, wrap, c.generationB, c.slotB, history, LastEven(|history|));
    NothingToTry(aead, wrap, 0);
    NothingToTry(aead, wrap, c.generationB);
  }

  lemma NothingToTry(aead: Aead, wrap: Bytes32, generation: u64)
    ensures TrySlot(aead, wrap, generation, []) == None
  {}

  /** What the next commit after a cut does to the generation that was rescued: with the commit itself damaged,
      it is still there exactly when it is the newest one or the cut was before the end of B's header. Otherwise
      the commit has overwritten the only valid slot. */
  lemma CommitAfterCut(aead: Aead, wrap: Bytes32, c: Container, history: seq<Committed>, cut: nat,
                       payload: Bytes, nonce: Nonce, bytes: Bytes)
    requires aead.Sound() && Matches(aead, wrap, c, history) && history != []
    requires Encode(c).Ok? && EndA(c) <= cut < End(c) <= |Encode(c).value|
    requires var d := Decode(Encode(c).value[..cut]);
             d.Ok? && Commit(aead, d.value, payload, wrap, nonce).1.Ok?
    requires !Usable(aead, wrap, Commit(aead, Decode(Encode(c).value[..cut]).value, payload, wrap, nonce).1.value,
                     bytes)
    ensures var d := Decode(Encode(c).value[..cut]).value;
            var (d', r) := Commit(aead, d, payload, wrap, nonce);
            && RecoverLatest(aead, d', wrap) == Ok((r.value, payload))
            && RecoverLatest(aead, Damaged(d', bytes), wrap) ==
               if |history| % 2 == 1 || cut < EndOfLengthB(c) then Payload(history, LastOdd(|history|))
               else Err(PaqueteCorrupto)
  {
    hide Encode, Decode, SealSlot;
    assert Encode(c).value + [] == Encode(c).value;
    DecodeOfCut(c, [], cut);
    var d := CutContainer(c, cut).value;
    CommitIsRecovered(aead, d, payload, wrap, nonce);
    HeldIsTried(aead, wrap, c.generationA, c.slotA, history, LastOdd(|history|));
    NothingToTry(aead, wrap, 0);
    NothingToTry(aead, wrap, c.generationB);
    var (d', r) := Commit(aead, d, payload, wrap, nonce);
    assert TrySlot(aead, wrap, r.value, bytes) == None;
    hide TrySlot, Usable;
  }

  // --------------------------------------------------------------------------
  // Runs with atomic saves
  // --------------------------------------------------------------------------

  datatype Step =
    | CommitState(payload: Bytes, nonce: Nonce)
    /** `save_atomic`: the rename happened, or a crash or an error came before it. */
    | Save(renamed: bool)
    | Reload

  /** The container in memory and the image on disk; with each the history it was made by, and
      everything ever committed and sealed. */
  datatype World = World(
    memory: Container,
    disk: Option<Bytes>,
    inMemory: seq<Committed>,
    onDisk: seq<Committed>,
    ever: set<(u64, Bytes)>,
    log: set<Sealing>)

  const START: World := World(EMPTY, None, [], [], {}, {})

  function Next(aead: Aead, wrap: Bytes32, w: World, step: Step): World {
    match step
    case CommitState(payload, nonce) =>
      var (c, r) := Commit(aead, w.memory, payload, wrap, nonce);
      if r.Err? then w
      else
        var sealed := SealSlot(aead, r.value, payload, wrap, nonce).value;
        w.(memory := c, inMemory := w.inMemory + [Committed(payload, nonce)], ever := w.ever + {(r.value, payload)},
           log := w.log + {Sealing(wrap, nonce, SlotAad(r.value), payload, sealed[20..])})
    case Save(renamed) =>
      var image := Encode(w.memory);
      if image.Err? || !renamed then w else w.(disk := Some(image.value), onDisk := w.inMemory)
    case Reload =>
      if w.disk.None? then w.(memory := EMPTY, inMemory := [])
      else
        var c := Decode(w.disk.value);
        if c.Err? then w.(memory := EMPTY, inMemory := []) else w.(memory := c.value, inMemory := w.onDisk)
  }

  function Run(aead: Aead, wrap: Bytes32, steps: seq<Step>): World {
    if steps == [] then START else Next(aead, wrap, Run(aead, wrap, steps[..|steps| - 1]), steps[|steps| - 1])
  }

  ghost predicate Inv(aead: Aead, wrap: Bytes32, w: World) {
    && Matches(aead, wrap, w.memory, w.inMemory)
    && match w.disk
       case None => w.onDisk == []
       case Some(image) => Decode(image).Ok? && Matches(aead, wrap, Decode(image).value, w.onDisk)
  }

  lemma {:induction false} RunKeepsInv(aead: Aead, wrap: Bytes32, steps: seq<Step>)
    ensures Inv(aead, wrap, Run(aead, wrap, steps))
  {
    hide Decode, Encode, Commit, SealSlot;
    if steps == [] {
      assert Matches(aead, wrap, EMPTY, []);
    } else {
      var w, step := Run(aead, wrap, steps[..|steps| - 1]), steps[|steps| - 1];
      RunKeepsInv(aead, wrap, steps[..|steps| - 1]);
      assert Matches(aead, wrap, EMPTY, []);
      hide Run, Matches;
      match step
      case CommitState(payload, nonce) => CommitMatches(aead, wrap, w.memory, w.inMemory, payload, nonce);
      case Save(renamed) =>
        if Encode(w.memory).Ok? {
          DecodeOfEncode(w.memory, []);
          assert Encode(w.memory).value + [] == Encode(w.memory).value;
        }
      case Reload =>
    }
  }

  function Newest(history: seq<Committed>): Result<(nat, Bytes)> {
    if history == [] then Err(PaqueteCorrupto) else Ok((|history|, history[|history| - 1].payload))
  }

  /** At any moment the newest commit is recovered from memory, and the newest commit that was saved
      is recovered after a reload, whatever commits, saves and crashes came before. */
  lemma SavedSurvives(aead: Aead, wrap: Bytes32, steps: seq<Step>)
    requires aead.Sound()
    ensures var w := Run(aead, wrap, steps);
            && RecoverLatest(aead, w.memory, wrap) == Newest(w.inMemory)
            && RecoverLatest(aead, Next(aead, wrap, w, Reload).memory, wrap) == Newest(w.onDisk)
  {
    RunKeepsInv(aead, wrap, steps);
    hide Run, RecoverLatest, Decode, Commit, SealSlot, Encode;
    var w := Run(aead, wrap, steps);
    var after := Next(aead, wrap, w, Reload);
    assert Matches(aead, wrap, EMPTY, []);
    hide Matches;
    assert Matches(aead, wrap, after.memory, after.inMemory) && after.inMemory == w.onDisk;
    RecoversNewest(aead, wrap, w.memory, w.inMemory);
    RecoversNewest(aead, wrap, after.memory, after.inMemory);
  }

  // --------------------------------------------------------------------------
  // Nothing that was not committed is ever recovered
  // --------------------------------------------------------------------------

  ghost predicate LogInv(aead: Aead, wrap: Bytes32, w: World) {
    && GenuineLog(aead, w.log)
    && forall e :: e in w.log ==> exists g: u64 :: e.aad == SlotAad(g) && (g, e.message) in w.ever
  }

  lemma {:induction false} RunKeepsLogInv(aead: Aead, wrap: Bytes32, steps: seq<Step>)
    ensures LogInv(aead, wrap, Run(aead, wrap, steps))
  {
    hide Decode, Encode, SlotAad, Be64;
    if steps != [] {
      var w, step := Run(aead, wrap, steps[..|steps| - 1]), steps[|steps| - 1];
      RunKeepsLogInv(aead, wrap, steps[..|steps| - 1]);
      hide Run;
      if step.CommitState? && Commit(aead, w.memory, step.payload, wrap, step.nonce).1.Ok? {
        var g := Commit(aead, w.memory, step.payload, wrap, step.nonce).1.value;
        assert SealSlot(aead, g, step.payload, wrap, step.nonce).value[20..]
               == aead.enc(wrap, step.nonce, SlotAad(g), step.payload).value;
        hide Commit, SealSlot;
      }
    }
  }

  /** Sealings made under other associated data than any slot's. */
  ghost predicate NoSlots(log: set<Sealing>) {
    forall e, g: u64 :: e in log ==> e.aad != SlotAad(g)
  }

  ghost predicate SlotUnforgeable(aead: Aead, log: set<Sealing>, wrap: Bytes32, slot: Bytes) {
    |slot| >= SLOT_OVERHEAD ==> Unforgeable(aead, log, wrap, slot[8..20], SlotAad(ReadBe64(slot[..8])), slot[20..])
  }

  lemma OpenedSlotWasCommitted(aead: Aead, wrap: Bytes32, w: World, other: set<Sealing>, slot: Bytes)
    requires aead.Sound() && LogInv(aead, wrap, w) && GenuineLog(aead, other) && NoSlots(other)
    requires SlotUnforgeable(aead, w.log + other, wrap, slot) && OpenSlot(aead, slot, wrap).Ok?
    ensures OpenSlot(aead, slot, wrap).value in w.ever
  {
    hide SlotAad, ReadBe64;
    var (g, message) := OpenSlot(aead, slot, wrap).value;
    OpenedWasSealed(aead, w.log + other, wrap, slot[8..20], SlotAad(g), slot[20..], message);
    var e := Sealing(wrap, slot[8..20], SlotAad(g), message, slot[20..]);
    assert e in w.log;
    var g': u64 :| e.aad == SlotAad(g') && (g', e.message) in w.ever;
    SlotAadInjective(g, g');
  }

  /** Whatever container is presented, a payload it recovers was committed at that generation in the run. */
  lemma RecoversOnlyCommitted(aead: Aead, wrap: Bytes32, steps: seq<Step>, other: set<Sealing>, c: Container)
    requires aead.Sound() && GenuineLog(aead, other) && NoSlots(other)
    requires SlotUnforgeable(aead, Run(aead, wrap, steps).log + other, wrap, c.slotA)
    requires SlotUnforgeable(aead, Run(aead, wrap, steps).log + other, wrap, c.slotB)
    ensures RecoverLatest(aead, c, wrap).Ok? ==> RecoverLatest(aead, c, wrap).value in Run(aead, wrap, steps).ever
  {
    RunKeepsLogInv(aead, wrap, steps);
    hide Run, OpenSlot, LogInv, SlotUnforgeable, GenuineLog, NoSlots;
    var w := Run(aead, wrap, steps);
    if OpenSlot(aead, c.slotA, wrap).Ok? {
      OpenedSlotWasCommitted(aead, wrap, w, other, c.slotA);
    }
    if OpenSlot(aead, c.slotB, wrap).Ok? {
      OpenedSlotWasCommitted(aead, wrap, w, other, c.slotB);
    }
  }

  ghost predicate NoReload(steps: seq<Step>) {
    forall i :: 0 <= i < |steps| ==> steps[i] != Reload
  }

  lemma {:induction false} OneCommitPerGeneration(aead: Aead, wrap: Bytes32, steps: seq<Step>, g: u64, payload: Bytes)
    requires NoReload(steps) && (g, payload) in Run(aead, wrap, steps).ever
    ensures var history := Run(aead, wrap, steps).inMemory;
            0 < g <= |history| && history[g - 1].payload == payload
  {
    RunKeepsInv(aead, wrap, steps);
    hide Decode, Encode, SealSlot, Matches, SlotAad;
    if steps != [] {
      var before, step := steps[..|steps| - 1], steps[|steps| - 1];
      RunKeepsInv(aead, wrap, before);
      var w := Run(aead, wrap, before);
      if (g, payload) in w.ever {
        OneCommitPerGeneration(aead, wrap, before, g, payload);
      } else {
        CommitMatches(aead, wrap, w.memory, w.inMemory, step.payload, step.nonce);
        hide Commit;
      }
    }
  }

  /** In one process, that is the payload of the g-th commit. */
  lemma RecoversThePayloadOfThatCommit(aead: Aead, wrap: Bytes32, steps: seq<Step>, other: set<Sealing>, c: Container)
    requires NoReload(steps) && aead.Sound() && GenuineLog(aead, other) && NoSlots(other)
    requires SlotUnforgeable(aead, Run(aead, wrap, steps).log + other, wrap, c.slotA)
    requires SlotUnforgeable(aead, Run(aead, wrap, steps).log + other, wrap, c.slotB)
    requires RecoverLatest(aead, c, wrap).Ok?
    ensures var (history, g) := (Run(aead, wrap, steps).inMemory, RecoverLatest(aead, c, wrap).value.0);
            0 < g <= |history| && RecoverLatest(aead, c, wrap) == Payload(history, g)
  {
    RecoversOnlyCommitted(aead, wrap, steps, other, c);
    hide Run, RecoverLatest, SlotUnforgeable;
    var (g, payload) := RecoverLatest(aead, c, wrap).value;
    OneCommitPerGeneration(aead, wrap, steps, g, payload);
  }
}
