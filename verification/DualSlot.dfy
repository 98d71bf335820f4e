/** src/persistence.rs, second part: the container with two slots, written in turn. */
module DualSlot {
  import opened Words
  import opened Primitives
  import Snapshot
  import MeshNode
  import MeshCheckpoint

  datatype Container = Container(generationA: u64, slotA: Bytes, generationB: u64, slotB: Bytes)

  const EMPTY: Container := Container(0, [], 0, [])
  const SLOT_OVERHEAD: nat := 8 + 12 + TAG_LEN

  function Magic(): (m: Bytes)
    ensures |m| == 4
  {
    Ascii("CNDS")
  }

  // --------------------------------------------------------------------------
  // One slot
  // --------------------------------------------------------------------------

  function SlotAad(generation: u64): (aad: Bytes)
    ensures |aad| == 12
  {
    Magic() + Be64(generation)
  }

  function SealSlot(aead: Aead, generation: u64, payload: Bytes, wrap: Bytes32, nonce: Nonce): (r: Result<Bytes>)
    ensures r.Ok? ==> |r.value| >= 20
  {
    var ciphertext := aead.enc(wrap, nonce, SlotAad(generation), payload);
    if ciphertext.None? then Err(Cifrado) else Ok(Be64(generation) + nonce + ciphertext.value)
  }

  function OpenSlot(aead: Aead, slot: Bytes, wrap: Bytes32): (r: Result<(u64, Bytes)>) {
    if |slot| < SLOT_OVERHEAD then Err(PaqueteCorrupto)
    else
      var generation := ReadBe64(slot[..8]);
      var plaintext := aead.dec(wrap, slot[8..20], SlotAad(generation), slot[20..]);
      if plaintext.None? then Err(Autenticacion) else Ok((generation, plaintext.value))
  }

  lemma OpenOfSealed(aead: Aead, generation: u64, payload: Bytes, wrap: Bytes32, nonce: Nonce)
    requires aead.Sound() && SealSlot(aead, generation, payload, wrap, nonce).Ok?
    ensures OpenSlot(aead, SealSlot(aead, generation, payload, wrap, nonce).value, wrap) == Ok((generation, payload))
    ensures var slot := SealSlot(aead, generation, payload, wrap, nonce).value;
            slot[..8] == Be64(generation) && slot[8..20] == nonce
  {
    var slot := SealSlot(aead, generation, payload, wrap, nonce).value;
    var ciphertext := aead.enc(wrap, nonce, SlotAad(generation), payload);
    assert ciphertext.Some?;
    hide SlotAad, Be64, ReadBe64;
    assert slot[..8] == Be64(generation) && slot[8..20] == nonce && slot[20..] == ciphertext.value;
  }

  /** The slot can be used: its contents authenticate at the generation its field claims. */
  predicate Usable(aead: Aead, wrap: Bytes32, generation: u64, slot: Bytes) {
    generation > 0 && OpenSlot(aead, slot, wrap).Ok? && OpenSlot(aead, slot, wrap).value.0 == generation
  }

  lemma SlotAadInjective(g: u64, g': u64)
    requires SlotAad(g) == SlotAad(g')
    ensures g == g'
  {
    assert SlotAad(g)[4..] == Be64(g) && SlotAad(g')[4..] == Be64(g');
  }

  /** What the wrap key encrypts elsewhere, snapshots and checkpoints, is never taken for a slot. */
  lemma OtherSealingsAreNotSlots(generation: u64, version: byte, context: Bytes, cfg: MeshNode.Config)
    ensures Snapshot.SnapshotAad(version, context) != Ok(SlotAad(generation))
    ensures MeshCheckpoint.StateAad(cfg) != SlotAad(generation)
  {
    assert SlotAad(generation)[2] == 'D' as int as byte;
    assert Snapshot.SnapshotAad(version, context).Ok? ==>
           Snapshot.SnapshotAad(version, context).value[2] == 'S' as int as byte;
    assert |MeshCheckpoint.StateAad(cfg)| == 37;
  }

  // --------------------------------------------------------------------------
  // Commit and recovery
  // --------------------------------------------------------------------------

  function Max(x: u64, y: u64): u64 {
    if x < y then y else x
  }

  function Commit(aead: Aead, c: Container, payload: Bytes, wrap: Bytes32, nonce: Nonce): (r: (Container, Result<u64>))
    ensures r.1.Ok? ==> SealSlot(aead, r.1.value, payload, wrap, nonce).Ok?
  {
    var newest := Max(c.generationA, c.generationB);
    if newest == U64_MAX then (c, Err(Cifrado))
    else
      var sealed := SealSlot(aead, newest + 1, payload, wrap, nonce);
      if sealed.Err? then (c, Err(sealed.error))
      else if c.generationA <= c.generationB then (c.(slotA := sealed.value, generationA := newest + 1), Ok(newest + 1))
      else (c.(slotB := sealed.value, generationB := newest + 1), Ok(newest + 1))
  }

  /** What one turn of the recovery loop returns, if it returns. */
  function TrySlot(aead: Aead, wrap: Bytes32, generation: u64, slot: Bytes): (r: Option<(u64, Bytes)>) {
    if slot == [] || generation == 0 then None
    else
      var found := OpenSlot(aead, slot, wrap);
      if found.Ok? && found.value.0 == generation then Some(found.value) else None
  }

  function RecoverLatest(aead: Aead, c: Container, wrap: Bytes32): (r: Result<(u64, Bytes)>) {
    var a, b := TrySlot(aead, wrap, c.generationA, c.slotA), TrySlot(aead, wrap, c.generationB, c.slotB);
    var (first, second) := if c.generationA >= c.generationB then (a, b) else (b, a);
    if first.Some? then Ok(first.value)
    else if second.Some? then Ok(second.value)
    else Err(PaqueteCorrupto)
  }

  /** Recovery fails only when no slot is usable, and returns the newest usable one. */
  lemma RecoversNewestUsable(aead: Aead, c: Container, wrap: Bytes32)
    ensures var a, b := Usable(aead, wrap, c.generationA, c.slotA), Usable(aead, wrap, c.generationB, c.slotB);
            && (RecoverLatest(aead, c, wrap).Ok? <==> a || b)
            && (a && (b ==> c.generationB <= c.generationA) ==>
                RecoverLatest(aead, c, wrap) == OpenSlot(aead, c.slotA, wrap))
            && (b && (a ==> c.generationA < c.generationB) ==>
                RecoverLatest(aead, c, wrap) == OpenSlot(aead, c.slotB, wrap))
  {}

  /** Whether a commit into `c` leaves slot A alone. */
  predicate KeepsA(c: Container) {
    c.generationA > c.generationB
  }

  /** A commit is recovered, keeps one slot as it was, and a failed one changes nothing. */
  lemma CommitIsRecovered(aead: Aead, c: Container, payload: Bytes, wrap: Bytes32, nonce: Nonce)
    requires aead.Sound()
    ensures var (c', r) := Commit(aead, c, payload, wrap, nonce);
            && (r.Err? ==> c' == c)
            && (r.Ok? ==>
                  && r.value == Max(c.generationA, c.generationB) + 1
                  && RecoverLatest(aead, c', wrap) == Ok((r.value, payload))
                  && ((c'.generationA, c'.slotA) == (c.generationA, c.slotA) <==> KeepsA(c))
                  && ((c'.generationB, c'.slotB) == (c.generationB, c.slotB) <==> !KeepsA(c)))
  {
    hide OpenSlot;
    var newest := Max(c.generationA, c.generationB);
    if newest < U64_MAX && SealSlot(aead, newest + 1, payload, wrap, nonce).Ok? {
      OpenOfSealed(aead, newest + 1, payload, wrap, nonce);
    }
  }

  // --------------------------------------------------------------------------
  // Serialised form
  // --------------------------------------------------------------------------

  function Encode(c: Container): (r: Result<Bytes>)
    ensures r.Ok? <==> |c.slotA| < U32_LIMIT && |c.slotB| < U32_LIMIT
  {
    if |c.slotA| >= U32_LIMIT || |c.slotB| >= U32_LIMIT then Err(AadDemasiadoLargo)
    else Ok(Magic() + Be64(c.generationA) + Be32(|c.slotA|) + c.slotA + Be64(c.generationB) + Be32(|c.slotB|) + c.slotB)
  }

  function Decode(b: Bytes): (r: Result<Container>) {
    if |b| < 16 || b[..4] != Magic() then Err(PaqueteCorrupto)
    else
      var endA := 16 + ReadBe32(b[12..16]);
      if |b| < endA then Err(PaqueteCorrupto)
      else if |b| < endA + 12 then Ok(Container(ReadBe64(b[4..12]), b[16..endA], 0, []))
      else
        var endB := endA + 12 + ReadBe32(b[endA + 8..endA + 12]);
        Ok(Container(ReadBe64(b[4..12]), b[16..endA], ReadBe64(b[endA..endA + 8]),
                     if |b| >= endB then b[endA + 12..endB] else []))
  }

  /** Where slot A, the header of slot B, and the whole image end. */
  function EndA(c: Container): nat { 16 + |c.slotA| }
  function EndOfLengthB(c: Container): nat { EndA(c) + 12 }
  function End(c: Container): nat { EndOfLengthB(c) + |c.slotB| }

  /** What is left of a container when its image is cut at `cut`. */
  function CutContainer(c: Container, cut: nat): (r: Result<Container>) {
    if cut < EndA(c) then Err(PaqueteCorrupto)
    else if cut < EndOfLengthB(c) then Ok(c.(generationB := 0, slotB := []))
    else if cut < End(c) then Ok(c.(slotB := []))
    else Ok(c)
  }

  /** Decoding any cut of an image, or the image with anything behind it. */
  lemma DecodeOfCut(c: Container, rest: Bytes, cut: nat)
    requires Encode(c).Ok? && cut <= |Encode(c).value + rest|
    ensures |Encode(c).value| == End(c)
    ensures Decode((Encode(c).value + rest)[..cut]) == CutContainer(c, cut)
  {
    hide Magic, Be32, Be64, ReadBe32, ReadBe64;
    var b := Encode(c).value + rest;
    FieldsA(c, rest);
    FieldsB(c, rest);
    hide Encode;
    var d := b[..cut];
    if cut >= 16 {
      assert d[..4] == b[..4] && d[4..12] == b[4..12] && d[12..16] == b[12..16];
    }
    if cut >= EndA(c) {
      assert d[16..EndA(c)] == b[16..EndA(c)];
    }
    if cut >= EndOfLengthB(c) {
      assert d[EndA(c)..EndA(c) + 8] == b[EndA(c)..EndA(c) + 8];
      assert d[EndA(c) + 8..EndOfLengthB(c)] == b[EndA(c) + 8..EndOfLengthB(c)];
    }
    if cut >= End(c) {
      assert d[EndOfLengthB(c)..End(c)] == b[EndOfLengthB(c)..End(c)];
    }
  }

  lemma FieldsA(c: Container, rest: Bytes)
    requires Encode(c).Ok?
    ensures var b := Encode(c).value + rest;
            && |Encode(c).value| == End(c)
            && b[..4] == Magic() && b[4..12] == Be64(c.generationA) && b[12..16] == Be32(|c.slotA|)
               && b[16..EndA(c)] == c.slotA
  {
    hide Magic, Be32, Be64;
    var b := Encode(c).value + rest;
    var start := Magic() + Be64(c.generationA) + Be32(|c.slotA|) + c.slotA;
    assert start[..4] == Magic() && start[4..12] == Be64(c.generationA) && start[12..16] == Be32(|c.slotA|)
           && start[16..] == c.slotA;
    assert b == start + (Be64(c.generationB) + Be32(|c.slotB|) + c.slotB + rest);
    hide Encode;
    assert b[..4] == start[..4] && b[4..12] == start[4..12] && b[12..16] == start[12..16]
           && b[16..EndA(c)] == start[16..];
  }

  lemma FieldsB(c: Container, rest: Bytes)
    requires Encode(c).Ok? && |Encode(c).value| == End(c)
    ensures var b := Encode(c).value + rest;
            && b[EndA(c)..EndA(c) + 8] == Be64(c.generationB) && b[EndA(c) + 8..EndOfLengthB(c)] == Be32(|c.slotB|)
            && b[EndOfLengthB(c)..End(c)] == c.slotB
  {
    hide Magic, Be32, Be64;
    var b := Encode(c).value + rest;
    var start := Magic() + Be64(c.generationA) + Be32(|c.slotA|) + c.slotA;
    var tail := Be64(c.generationB) + Be32(|c.slotB|) + c.slotB;
    assert tail[..8] == Be64(c.generationB) && tail[8..12] == Be32(|c.slotB|) && tail[12..] == c.slotB;
    assert Encode(c).value == start + tail;
    assert b == start + (tail + rest);
    hide Encode;
    assert b[EndA(c)..] == tail + rest;
    assert b[EndA(c)..EndA(c) + 8] == b[EndA(c)..][..8] == tail[..8];
    assert b[EndA(c) + 8..EndOfLengthB(c)] == b[EndA(c)..][8..12] == tail[8..12];
    assert b[EndOfLengthB(c)..End(c)] == b[EndA(c)..][12..|tail|] == tail[12..];
  }

  /** An image, whole and with whatever follows it, decodes to what was encoded. */
  lemma DecodeOfEncode(c: Container, rest: Bytes)
    requires Encode(c).Ok?
    ensures Decode(Encode(c).value + rest) == Ok(c)
  {
    hide Encode, Decode;
    var b := Encode(c).value + rest;
    DecodeOfCut(c, rest, |b|);
    assert b[..|b|] == b;
  }

  /** Nothing of the container is missing from the byte string. */
  predicate Complete(b: Bytes) {
    && |b| >= 16 && b[..4] == Magic()
    && |b| >= 28 + ReadBe32(b[12..16])
    && |b| >= 28 + ReadBe32(b[12..16]) + ReadBe32(b[24 + ReadBe32(b[12..16])..28 + ReadBe32(b[12..16])])
  }

  /** A complete byte string starts with the image of what it decodes to. */
  lemma EncodeOfComplete(b: Bytes)
    requires Complete(b)
    ensures Decode(b).Ok? && Encode(Decode(b).value).Ok?
    ensures var c := Decode(b).value; End(c) <= |b| && Encode(c).value == b[..End(c)]
  {
    var lenA: nat := ReadBe32(b[12..16]);
    var endA: nat := 16 + lenA;
    var lenB: nat := ReadBe32(b[endA + 8..endA + 12]);
    Be32OfRead(b[12..16]);
    Be64OfRead(b[4..12]);
    Be32OfRead(b[endA + 8..endA + 12]);
    Be64OfRead(b[endA..endA + 8]);
    hide Magic, Be32, Be64, ReadBe32, ReadBe64;
    var c := Decode(b).value;
    assert c == Container(ReadBe64(b[4..12]), b[16..endA], ReadBe64(b[endA..endA + 8]), b[endA + 12..endA + 12 + lenB]);
    hide Decode, Complete, Encode;
    ImageOfFields(b, c);
  }

  lemma ImageOfFields(b: Bytes, c: Container)
    requires |c.slotA| < U32_LIMIT && |c.slotB| < U32_LIMIT && End(c) <= |b|
    requires b[..4] == Magic() && b[4..12] == Be64(c.generationA) && b[12..16] == Be32(|c.slotA|)
             && b[16..EndA(c)] == c.slotA
    requires b[EndA(c)..EndA(c) + 8] == Be64(c.generationB) && b[EndA(c) + 8..EndOfLengthB(c)] == Be32(|c.slotB|)
    requires b[EndOfLengthB(c)..End(c)] == c.slotB
    ensures Encode(c) == Ok(b[..End(c)])
  {
    hide Magic, Be32, Be64;
    var endA := EndA(c);
    Join7(b, 4, 12, 16, endA, endA + 8, endA + 12, End(c));
  }

  lemma Join7(b: Bytes, i: nat, j: nat, k: nat, l: nat, m: nat, n: nat, end: nat)
    requires i <= j <= k <= l <= m <= n <= end <= |b|
    ensures b[..i] + b[i..j] + b[j..k] + b[k..l] + b[l..m] + b[m..n] + b[n..end] == b[..end]
  {
    assert b[..i] + b[i..j] == b[..j];
    assert b[..j] + b[j..k] == b[..k];
    assert b[..k] + b[k..l] == b[..l];
    assert b[..l] + b[l..m] == b[..m];
    assert b[..m] + b[m..n] == b[..n];
  }

  lemma PaddedIsComplete(b: Bytes)
    requires Decode(b).Ok?
    ensures Complete(b + Zeros(12 + U32_LIMIT))
  {
    hide Magic, ReadBe32, ReadBe64;
    var whole := b + Zeros(12 + U32_LIMIT);
    assert whole[..4] == b[..4] && whole[12..16] == b[12..16];
    hide Decode;
  }

  /** Every accepted byte string is a cut of an image with something behind it. */
  lemma EncodeOfDecoded(b: Bytes) returns (c: Container, rest: Bytes)
    requires Decode(b).Ok?
    ensures Encode(c).Ok? && b <= Encode(c).value + rest && CutContainer(c, |b|) == Decode(b)
  {
    var whole := b + Zeros(12 + U32_LIMIT);
    assert whole[..|b|] == b;
    PaddedIsComplete(b);
    hide Decode, Encode, Complete;
    EncodeOfComplete(whole);
    c := Decode(whole).value;
    rest := whole[End(c)..];
    assert whole[..End(c)] + rest == whole;
    assert Encode(c).value + rest == whole;
    hide End;
    DecodeOfCut(c, rest, |b|);
  }
}
