/** The dual-slot container as the source has it: one object whose slots are overwritten in turn. */
module DualSlotObject {
  import opened Words
  import opened Primitives
  import opened DualSlot

  class DualSlotContainer {
    var generationA: u64
    var slotA: Bytes
    var generationB: u64
    var slotB: Bytes

    ghost function State(): Container
      reads this
    {
      Container(generationA, slotA, generationB, slotB)
    }

    constructor ()
      ensures State() == EMPTY
    {
      generationA, slotA, generationB, slotB := 0, [], 0, [];
    }

    constructor With(c: Container)
      ensures State() == c
    {
      generationA, slotA, generationB, slotB := c.generationA, c.slotA, c.generationB, c.slotB;
    }

    method CommitState(aead: Aead, payload: Bytes, wrap: Bytes32, randomNonce: Nonce) returns (r: Result<u64>)
      modifies this
      ensures (State(), r) == Commit(aead, old(State()), payload, wrap, randomNonce)
    {
      var newest := Max(generationA, generationB);
      if newest == U64_MAX {
        return Err(Cifrado);
      }
      var nextGen := newest + 1;
      var sealed := SealSlot(aead, nextGen, payload, wrap, randomNonce);
      if sealed.Err? {
        return Err(sealed.error);
      }
      if generationA <= generationB {
        slotA := sealed.value;
        generationA := nextGen;
      } else {
        slotB := sealed.value;
        generationB := nextGen;
      }
      r := Ok(nextGen);
    }

    method RecoverLatestValid(aead: Aead, wrap: Bytes32) returns (r: Result<(u64, Bytes)>)
      ensures r == RecoverLatest(aead, State(), wrap)
    {
      hide OpenSlot;
      var first, second := (slotA, generationA), (slotB, generationB);
      if generationA < generationB {
        first, second := second, first;
      }
      var slots := [first, second];
      for i := 0 to 2
        invariant forall j :: 0 <= j < i ==> TrySlot(aead, wrap, slots[j].1, slots[j].0) == None
      {
        var (slot, expected) := slots[i];
        if slot != [] && expected > 0 {
          var found := OpenSlot(aead, slot, wrap);
          if found.Ok? && found.value.0 == expected {
            assert i == 1 ==> TrySlot(aead, wrap, slots[0].1, slots[0].0) == None;
            assert slots[0] == first && slots[1] == second;
            return Ok(found.value);
          }
        }
      }
      assert slots[0] == first && slots[1] == second;
      r := Err(PaqueteCorrupto);
    }

    method ToBytes() returns (r: Result<Bytes>)
      ensures r == Encode(State())
    {
      hide Be32, Be64, Magic;
      if |slotA| >= U32_LIMIT || |slotB| >= U32_LIMIT {
        return Err(AadDemasiadoLargo);
      }
      var out := Magic();
      out := out + Be64(generationA);
      out := out + Be32(|slotA|);
      out := out + slotA;
      out := out + Be64(generationB);
      out := out + Be32(|slotB|);
      out := out + slotB;
      r := Ok(out);
    }

    static method FromBytes(b: Bytes) returns (r: Result<DualSlotContainer>)
      ensures match Decode(b)
              case Err(e) => r == Err(e)
              case Ok(c) => r.Ok? && fresh(r.value) && r.value.State() == c
    {
      hide Magic, ReadBe32, ReadBe64;
      if |b| < 16 || b[..4] != Magic() {
        return Err(PaqueteCorrupto);
      }
      var endA := 16 + ReadBe32(b[12..16]) as int;
      if |b| < endA {
        return Err(PaqueteCorrupto);
      }
      var a := b[16..endA];
      if |b| < endA + 12 {
        var short := new DualSlotContainer.With(Container(ReadBe64(b[4..12]), a, 0, []));
        return Ok(short);
      }
      var endB := endA + 12 + ReadBe32(b[endA + 8..endA + 12]) as int;
      var slot: Bytes := [];
      if |b| >= endB {
        slot := b[endA + 12..endB];
      }
      var whole := new DualSlotContainer.With(Container(ReadBe64(b[4..12]), a, ReadBe64(b[endA..endA + 8]), slot));
      r := Ok(whole);
    }
  }
}
