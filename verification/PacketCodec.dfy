/** src/packet.rs: the wire packet, its codec and the internal AAD encodings. */
module PacketCodec {
  import opened Words
  import opened Primitives

  const WIRE_VERSION_V1: byte := 1
  const WIRE_VERSION_V2: byte := 2
  const WIRE_VERSION_V3: byte := 3
  const FLAG_AAD_PRESENT: byte := 1

  const NONCE_LEN: nat := 12
  const V1_HEADER_LEN: nat := 1 + 8 + NONCE_LEN
  const V2_HEADER_LEN: nat := 1 + 1 + 8 + NONCE_LEN
  const V3_HEADER_LEN: nat := 1 + 1 + 4 + 8 + 8 + 8 + NONCE_LEN

  datatype Packet = Packet(
    version: byte,
    flags: byte,
    nodeId: u32,
    epoch: u64,
    sequence: u64,
    timestampMs: u64,
    nonce: Nonce,
    ciphertext: Bytes)

  predicate HasAad(flags: byte) {
    flags % 2 == 1
  }

  /** The flags a sealer sets for its caller's associated data. */
  function FlagsFor(userAad: Bytes): byte {
    if userAad == [] then 0 else FLAG_AAD_PRESENT
  }

  /** The authentication tag that ends a ciphertext. */
  function TagOf(ciphertext: Bytes): (tag: Bytes)
    ensures |tag| == if |ciphertext| < TAG_LEN then |ciphertext| else TAG_LEN
  {
    ciphertext[if |ciphertext| < TAG_LEN then 0 else |ciphertext| - TAG_LEN..]
  }

  lemma TagEnds(ciphertext: Bytes)
    ensures ciphertext == ciphertext[..|ciphertext| - |TagOf(ciphertext)|] + TagOf(ciphertext)
  {}

  function ToBytes(p: Packet): (b: Bytes) {
    if p.version == WIRE_VERSION_V1 then
      [WIRE_VERSION_V1] + Be64(p.sequence) + p.nonce + p.ciphertext
    else if p.version == WIRE_VERSION_V3 then
      [WIRE_VERSION_V3, p.flags] + Be32(p.nodeId) + Be64(p.epoch) + Be64(p.sequence)
      + Be64(p.timestampMs) + p.nonce + p.ciphertext
    else
      [p.version, p.flags] + Be64(p.sequence) + p.nonce + p.ciphertext
  }

  function FromBytes(b: Bytes): (r: Result<Packet>) {
    if |b| < V1_HEADER_LEN + TAG_LEN then Err(PaqueteCorrupto)
    else if b[0] == WIRE_VERSION_V3 then
      if |b| < V3_HEADER_LEN + TAG_LEN then Err(PaqueteCorrupto)
      else Ok(Packet(b[0], b[1], ReadBe32(b[2..6]), ReadBe64(b[6..14]), ReadBe64(b[14..22]),
                     ReadBe64(b[22..30]), b[30..42], b[42..]))
    else if b[0] == WIRE_VERSION_V2 then
      if |b| < V2_HEADER_LEN + TAG_LEN then Err(PaqueteCorrupto)
      else Ok(Packet(b[0], b[1], 0, 0, ReadBe64(b[2..10]), 0, b[10..22], b[22..]))
    else if b[0] == WIRE_VERSION_V1 then
      Ok(Packet(b[0], 0, 0, 0, ReadBe64(b[1..9]), 0, b[9..21], b[21..]))
    else Err(VersionNoSoportada(b[0]))
  }

  // --------------------------------------------------------------------------
  // Round trips
  // --------------------------------------------------------------------------

  /** The packets the parser can return something for once they are encoded. */
  predicate Decodable(p: Packet) {
    p.version in {WIRE_VERSION_V1, WIRE_VERSION_V2, WIRE_VERSION_V3} && |p.ciphertext| >= TAG_LEN
  }

  /** Equal in the fields that v2 puts on the wire. */
  predicate SameOnWire(p: Packet, q: Packet) {
    && p.version == q.version && p.flags == q.flags && p.sequence == q.sequence
    && p.nonce == q.nonce && p.ciphertext == q.ciphertext
  }

  /** What survives the wire: v2 and v1 do not carry every field. */
  function OnWire(p: Packet): (q: Packet) {
    if p.version == WIRE_VERSION_V3 then p
    else if p.version == WIRE_VERSION_V1 then p.(flags := 0, nodeId := 0, epoch := 0, timestampMs := 0)
    else p.(nodeId := 0, epoch := 0, timestampMs := 0)
  }

  /** Every accepted byte string is the encoding of the packet it parses to. */
  lemma EncodeOfParsed(b: Bytes)
    requires FromBytes(b).Ok?
    ensures ToBytes(FromBytes(b).value) == b
    ensures Decodable(FromBytes(b).value) && OnWire(FromBytes(b).value) == FromBytes(b).value
  {
    hide ReadBe32, ReadBe64, Be32, Be64;
    if b[0] == WIRE_VERSION_V3 {
      Be32OfRead(b[2..6]);
      Be64OfRead(b[6..14]);
      Be64OfRead(b[14..22]);
      Be64OfRead(b[22..30]);
      assert b == [b[0], b[1]] + b[2..6] + b[6..14] + b[14..22] + b[22..30] + b[30..42] + b[42..];
    } else if b[0] == WIRE_VERSION_V2 {
      Be64OfRead(b[2..10]);
      assert b == [b[0], b[1]] + b[2..10] + b[10..22] + b[22..];
    } else {
      Be64OfRead(b[1..9]);
      assert b == [b[0]] + b[1..9] + b[9..21] + b[21..];
    }
  }

  /** Parsing an encoding, for every packet value: the surviving fields, or exactly this error. */
  lemma ParseOfEncoded(p: Packet)
    ensures FromBytes(ToBytes(p)) ==
            if Decodable(p) then Ok(OnWire(p))
            else if p.version !in {WIRE_VERSION_V1, WIRE_VERSION_V2, WIRE_VERSION_V3} && |p.ciphertext| >= TAG_LEN - 1
            then Err(VersionNoSoportada(p.version))
            else Err(PaqueteCorrupto)
  {
    var b := ToBytes(p);
    if p.version == WIRE_VERSION_V1 {
      if |b| >= V1_HEADER_LEN {
        assert b[1..9] == Be64(p.sequence) && b[9..21] == p.nonce && b[21..] == p.ciphertext;
      }
    } else if p.version == WIRE_VERSION_V3 {
      assert b[2..6] == Be32(p.nodeId);
      assert b[6..14] == Be64(p.epoch);
      assert b[14..22] == Be64(p.sequence);
      assert b[22..30] == Be64(p.timestampMs);
      assert b[30..42] == p.nonce && b[42..] == p.ciphertext;
    } else {
      assert b[2..10] == Be64(p.sequence) && b[10..22] == p.nonce && b[22..] == p.ciphertext;
    }
  }

  /** Where each field stands on the wire. */
  lemma WireLayout(p: Packet)
    ensures p.version == WIRE_VERSION_V1 ==>
              var b := ToBytes(p);
              && |b| == V1_HEADER_LEN + |p.ciphertext| && b[0] == 1 && b[1..9] == Be64(p.sequence)
              && b[9..21] == p.nonce && b[21..] == p.ciphertext
    ensures p.version == WIRE_VERSION_V2 ==>
              var b := ToBytes(p);
              && |b| == V2_HEADER_LEN + |p.ciphertext| && b[0] == 2 && b[1] == p.flags
              && b[2..10] == Be64(p.sequence) && b[10..22] == p.nonce && b[22..] == p.ciphertext
    ensures p.version == WIRE_VERSION_V3 ==>
              var b := ToBytes(p);
              && |b| == V3_HEADER_LEN + |p.ciphertext| && b[0] == 3 && b[1] == p.flags
              && b[2..6] == Be32(p.nodeId) && b[6..14] == Be64(p.epoch) && b[14..22] == Be64(p.sequence)
              && b[22..30] == Be64(p.timestampMs) && b[30..42] == p.nonce && b[42..] == p.ciphertext
  {
    hide Be32, Be64;
  }

  /** A packet is recovered unchanged exactly when it is decodable and sets no field its version drops. */
  lemma RoundTripIff(p: Packet)
    ensures FromBytes(ToBytes(p)) == Ok(p) <==> Decodable(p) && OnWire(p) == p
  {
    ParseOfEncoded(p);
  }

  // --------------------------------------------------------------------------
  // Internal AAD encodings
  // --------------------------------------------------------------------------

  function AadV1(sequence: u64): (a: Bytes) {
    [WIRE_VERSION_V1] + Be64(sequence)
  }

  function EpochField(epoch: u64): (f: Bytes)
    ensures |f| == if epoch != 0 then 13 else 0
  {
    if epoch != 0 then Ascii("epoch") + Be64(epoch) else []
  }

  function UserField(flags: byte, userAad: Bytes): (f: Bytes)
    requires |userAad| < U32_LIMIT
    ensures |f| == if HasAad(flags) then 4 + |userAad| else 0
  {
    if HasAad(flags) then Be32(|userAad|) + userAad else []
  }

  function HeaderV2(flags: byte, sequence: u64): (h: Bytes)
    ensures |h| == 10
  {
    [WIRE_VERSION_V2, flags] + Be64(sequence)
  }

  function TailV2(flags: byte, userAad: Bytes, epoch: u64): (t: Bytes)
    requires |userAad| < U32_LIMIT
  {
    EpochField(epoch) + UserField(flags, userAad)
  }

  function AadV2(flags: byte, sequence: u64, userAad: Bytes, epoch: u64): (r: Result<Bytes>)
    ensures r.Ok? <==> |userAad| < U32_LIMIT
    ensures r.Err? ==> r.error == AadDemasiadoLargo
  {
    if |userAad| >= U32_LIMIT then Err(AadDemasiadoLargo)
    else Ok(HeaderV2(flags, sequence) + TailV2(flags, userAad, epoch))
  }

  function HeaderV3(flags: byte, nodeId: u32, epoch: u64, sequence: u64, timestampMs: u64,
                    contextHash: Bytes32): (h: Bytes)
    ensures |h| == 62
  {
    [WIRE_VERSION_V3, flags] + Be32(nodeId) + Be64(epoch) + Be64(sequence) + Be64(timestampMs) + contextHash
  }

  function AadV3(flags: byte, nodeId: u32, epoch: u64, sequence: u64, timestampMs: u64,
                 contextHash: Bytes32, userAad: Bytes): (r: Result<Bytes>)
    ensures r.Ok? <==> |userAad| < U32_LIMIT
    ensures r.Err? ==> r.error == AadDemasiadoLargo
  {
    if |userAad| >= U32_LIMIT then Err(AadDemasiadoLargo)
    else Ok(HeaderV3(flags, nodeId, epoch, sequence, timestampMs, contextHash) + UserField(flags, userAad))
  }

  // --------------------------------------------------------------------------
  // Injectivity
  // --------------------------------------------------------------------------

  /** The caller-AAD length whose four big-endian bytes read "epoc". */
  const EPOC: u32 := 0x65706F63

  lemma EpocReads()
    ensures Be32(EPOC) == Ascii("epoc")
  {
    assert BigEndian(0x65, 1) == [0x65];
    assert BigEndian(0x6570, 2) == [0x65, 0x70];
    assert BigEndian(0x65706F, 3) == [0x65, 0x70, 0x6F];
    assert BigEndian(0x65706F63, 4) == [0x65, 0x70, 0x6F, 0x63];
    assert Ascii("epoc") == [0x65, 0x70, 0x6F, 0x63];
  }

  /** What follows the four bytes "epoc" when an epoch field precedes a caller AAD. */
  function AfterEpoc(userAad: Bytes, epoch: u64): (b: Bytes)
    requires |userAad| < U32_LIMIT
  {
    Ascii("h") + Be64(epoch) + Be32(|userAad|) + userAad
  }

  /** `userAad`, sealed at epoch 0, encodes like `userAad'` sealed at `epoch'`. */
  predicate Mimics(userAad: Bytes, epoch: u64, userAad': Bytes, epoch': u64) {
    && epoch == 0 && epoch' != 0
    && |userAad| == EPOC && |userAad'| < U32_LIMIT
    && userAad == AfterEpoc(userAad', epoch')
  }

  /** The same epoch and, where the flags bind it, the same caller AAD. */
  predicate SameBound(flags: byte, userAad: Bytes, epoch: u64, userAad': Bytes, epoch': u64) {
    epoch == epoch' && (HasAad(flags) ==> userAad == userAad')
  }

  /** Two different inputs, always of different epochs, that v2 cannot tell apart. */
  predicate Confusable(flags: byte, userAad: Bytes, epoch: u64, userAad': Bytes, epoch': u64) {
    HasAad(flags) && (Mimics(userAad, epoch, userAad', epoch') || Mimics(userAad', epoch', userAad, epoch))
  }

  /** The flags and the sequence of a v2 AAD can always be read back. */
  lemma AadV2Header(flags: byte, sequence: u64, userAad: Bytes, epoch: u64,
                    flags': byte, sequence': u64, userAad': Bytes, epoch': u64)
    requires AadV2(flags, sequence, userAad, epoch).Ok?
    requires AadV2(flags, sequence, userAad, epoch) == AadV2(flags', sequence', userAad', epoch')
    ensures flags == flags' && sequence == sequence'
    ensures TailV2(flags, userAad, epoch) == TailV2(flags', userAad', epoch')
  {
    var h, h' := HeaderV2(flags, sequence), HeaderV2(flags', sequence');
    SplitEqual(h, TailV2(flags, userAad, epoch), h', TailV2(flags', userAad', epoch'));
    assert h[1] == flags && h'[1] == flags';
    assert h[2..] == Be64(sequence) && h'[2..] == Be64(sequence');
  }

  lemma UserFieldInjective(flags: byte, userAad: Bytes, userAad': Bytes)
    requires |userAad| < U32_LIMIT && |userAad'| < U32_LIMIT
    requires HasAad(flags) && UserField(flags, userAad) == UserField(flags, userAad')
    ensures userAad == userAad'
  {
    SplitEqual(Be32(|userAad|), userAad, Be32(|userAad'|), userAad');
  }

  lemma Regroup(e: Bytes, h: Bytes, n: Bytes, l: Bytes, u: Bytes)
    ensures ((e + h) + n) + (l + u) == e + (((h + n) + l) + u)
  {}

  lemma TailStartsEpoc(flags: byte, userAad: Bytes, epoch: u64)
    requires |userAad| < U32_LIMIT && HasAad(flags) && epoch != 0
    ensures TailV2(flags, userAad, epoch) == Be32(EPOC) + AfterEpoc(userAad, epoch)
  {
    EpocReads();
    var e, h := Ascii("epoc"), Ascii("h");
    assert Ascii("epoch") == e + h;
    hide Ascii, Be32, Be64;
    Regroup(e, h, Be64(epoch), Be32(|userAad|), userAad);
  }

  /** An epoch field in front of one caller AAD reads as the start of another one only by mimicry. */
  lemma TailsMixed(userAad: Bytes, userAad': Bytes, epoch': u64, flags: byte)
    requires |userAad| < U32_LIMIT && |userAad'| < U32_LIMIT && HasAad(flags) && epoch' != 0
    ensures TailV2(flags, userAad, 0) == TailV2(flags, userAad', epoch') <==> Mimics(userAad, 0, userAad', epoch')
  {
    TailStartsEpoc(flags, userAad', epoch');
    assert TailV2(flags, userAad, 0) == Be32(|userAad|) + userAad;
    if TailV2(flags, userAad, 0) == TailV2(flags, userAad', epoch') {
      SplitEqual(Be32(|userAad|), userAad, Be32(EPOC), AfterEpoc(userAad', epoch'));
    }
  }

  /** Two tails under the same flags and the same epoch agree only on the same bound caller AAD. */
  lemma TailsSameEpoch(userAad: Bytes, userAad': Bytes, epoch: u64, flags: byte)
    requires |userAad| < U32_LIMIT && |userAad'| < U32_LIMIT
    ensures TailV2(flags, userAad, epoch) == TailV2(flags, userAad', epoch) <==> (HasAad(flags) ==> userAad == userAad')
  {
    if TailV2(flags, userAad, epoch) == TailV2(flags, userAad', epoch) && HasAad(flags) {
      SplitEqual(EpochField(epoch), UserField(flags, userAad), EpochField(epoch), UserField(flags, userAad'));
      UserFieldInjective(flags, userAad, userAad');
    }
  }

  lemma TailsOtherEpoch(userAad: Bytes, epoch: u64, userAad': Bytes, epoch': u64, flags: byte)
    requires |userAad| < U32_LIMIT && |userAad'| < U32_LIMIT && epoch != 0 && epoch' != 0 && epoch != epoch'
    ensures TailV2(flags, userAad, epoch) != TailV2(flags, userAad', epoch')
  {
    if TailV2(flags, userAad, epoch) == TailV2(flags, userAad', epoch') {
      SplitEqual(EpochField(epoch), UserField(flags, userAad), EpochField(epoch'), UserField(flags, userAad'));
      SplitEqual(Ascii("epoch"), Be64(epoch), Ascii("epoch"), Be64(epoch'));
      assert false;
    }
  }

  /** Exactly when two v2 AADs agree: the same inputs (as far as the flags bind them), or mimicry. */
  lemma AadV2Agree(flags: byte, sequence: u64, userAad: Bytes, epoch: u64,
                   flags': byte, sequence': u64, userAad': Bytes, epoch': u64)
    requires AadV2(flags, sequence, userAad, epoch).Ok? && AadV2(flags', sequence', userAad', epoch').Ok?
    ensures AadV2(flags, sequence, userAad, epoch) == AadV2(flags', sequence', userAad', epoch')
            <==> && flags == flags' && sequence == sequence'
                 && (|| SameBound(flags, userAad, epoch, userAad', epoch')
                     || Confusable(flags, userAad, epoch, userAad', epoch'))
  {
    if AadV2(flags, sequence, userAad, epoch) == AadV2(flags', sequence', userAad', epoch') {
      AadV2Header(flags, sequence, userAad, epoch, flags', sequence', userAad', epoch');
    }
    if epoch == epoch' {
      TailsSameEpoch(userAad, userAad', epoch, flags);
    } else if epoch != 0 && epoch' != 0 {
      TailsOtherEpoch(userAad, epoch, userAad', epoch', flags);
    } else if HasAad(flags) && epoch == 0 {
      TailsMixed(userAad, userAad', epoch', flags);
    } else if HasAad(flags) {
      TailsMixed(userAad', userAad, epoch, flags);
    }
  }

  /** Without a caller AAD of the one critical length, v2 binds flags, sequence, epoch and caller AAD. */
  lemma AadV2Injective(flags: byte, sequence: u64, userAad: Bytes, epoch: u64,
                       flags': byte, sequence': u64, userAad': Bytes, epoch': u64)
    requires AadV2(flags, sequence, userAad, epoch).Ok?
    requires |userAad| != EPOC && |userAad'| != EPOC
    requires AadV2(flags, sequence, userAad, epoch) == AadV2(flags', sequence', userAad', epoch')
    ensures flags == flags' && sequence == sequence' && epoch == epoch'
    ensures HasAad(flags) ==> userAad == userAad'
  {
    AadV2Agree(flags, sequence, userAad, epoch, flags', sequence', userAad', epoch');
  }

  /** The side condition is needed: for every nonzero epoch two different inputs share one v2 AAD. */
  lemma AadV2Witness(sequence: u64, epoch: u64) returns (long: Bytes, short: Bytes)
    requires epoch != 0
    ensures |long| == EPOC && long != short
    ensures AadV2(FLAG_AAD_PRESENT, sequence, long, 0).Ok?
    ensures AadV2(FLAG_AAD_PRESENT, sequence, long, 0) == AadV2(FLAG_AAD_PRESENT, sequence, short, epoch)
  {
    short := Zeros(EPOC - 13);
    long := AfterEpoc(short, epoch);
    AadV2Agree(FLAG_AAD_PRESENT, sequence, long, 0, FLAG_AAD_PRESENT, sequence, short, epoch);
  }

  /** v3 binds every header field unconditionally, and the caller AAD when flagged. */
  lemma AadV3Injective(flags: byte, nodeId: u32, epoch: u64, sequence: u64, timestampMs: u64, contextHash: Bytes32,
                       userAad: Bytes,
                       flags': byte, nodeId': u32, epoch': u64, sequence': u64, timestampMs': u64,
                       contextHash': Bytes32, userAad': Bytes)
    requires AadV3(flags, nodeId, epoch, sequence, timestampMs, contextHash, userAad).Ok?
    requires AadV3(flags, nodeId, epoch, sequence, timestampMs, contextHash, userAad)
          == AadV3(flags', nodeId', epoch', sequence', timestampMs', contextHash', userAad')
    ensures flags == flags' && nodeId == nodeId' && epoch == epoch' && sequence == sequence'
    ensures timestampMs == timestampMs' && contextHash == contextHash'
    ensures HasAad(flags) ==> userAad == userAad'
  {
    var h := HeaderV3(flags, nodeId, epoch, sequence, timestampMs, contextHash);
    var h' := HeaderV3(flags', nodeId', epoch', sequence', timestampMs', contextHash');
    SplitEqual(h, UserField(flags, userAad), h', UserField(flags', userAad'));
    assert h[1] == flags && h'[1] == flags';
    assert h[2..6] == Be32(nodeId) && h'[2..6] == Be32(nodeId');
    assert h[6..14] == Be64(epoch) && h'[6..14] == Be64(epoch');
    assert h[14..22] == Be64(sequence) && h'[14..22] == Be64(sequence');
    assert h[22..30] == Be64(timestampMs) && h'[22..30] == Be64(timestampMs');
    assert h[30..] == contextHash && h'[30..] == contextHash';
    if HasAad(flags) {
      UserFieldInjective(flags, userAad, userAad');
    }
  }

  /** No AAD of one wire version is an AAD of another. */
  lemma AadVersionsDisjoint(sequence1: u64, flags2: byte, sequence2: u64, userAad2: Bytes, epoch2: u64,
                            flags3: byte, nodeId3: u32, epoch3: u64, sequence3: u64, timestampMs3: u64,
                            contextHash3: Bytes32, userAad3: Bytes)
    ensures AadV2(flags2, sequence2, userAad2, epoch2) != Ok(AadV1(sequence1))
    ensures AadV3(flags3, nodeId3, epoch3, sequence3, timestampMs3, contextHash3, userAad3) != Ok(AadV1(sequence1))
    ensures AadV2(flags2, sequence2, userAad2, epoch2).Ok? ==>
            AadV2(flags2, sequence2, userAad2, epoch2) != AadV3(flags3, nodeId3, epoch3, sequence3, timestampMs3,
                                                                contextHash3, userAad3)
  {
    assert AadV1(sequence1)[0] == WIRE_VERSION_V1;
    if |userAad2| < U32_LIMIT {
      assert AadV2(flags2, sequence2, userAad2, epoch2).value[0] == WIRE_VERSION_V2;
    }
    if |userAad3| < U32_LIMIT {
      assert AadV3(flags3, nodeId3, epoch3, sequence3, timestampMs3, contextHash3, userAad3).value[0]
             == WIRE_VERSION_V3;
    }
  }
}
