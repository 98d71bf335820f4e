/** src/modes/replay.rs: the channel with an anti-replay window and deterministic nonces. */
module ReplayChannel {
  import opened Words
  import opened Endpoints
  import opened Primitives
  import opened Bitmaps
  import opened PacketCodec
  import opened SlidingWindow

  datatype Channel = Channel(
    txKey: Bytes32,
    rxKey: Bytes32,
    txMask: Nonce,
    rxMask: Nonce,
    txSeq: u64,
    rx: Window,
    size: u64)

  // --------------------------------------------------------------------------
  // What the operations compute
  // --------------------------------------------------------------------------

  function Derive(kdf: Kdf, seed: Bytes32, context: Bytes, info: string): Bytes32 {
    kdf(Ascii("CryptoNugget:replay-window:v1") + [0] + context, seed, Ascii(info))
  }

  /** HKDF output of twelve bytes: the start of its first block. */
  function DeriveMask(kdf: Kdf, seed: Bytes32, context: Bytes, info: string): Nonce {
    Derive(kdf, seed, context, info)[..12]
  }

  function Initial(kdf: Kdf, seed: Bytes32, role: Role, context: Bytes, size: u64): Channel {
    var keyA, keyB := Derive(kdf, seed, context, "window-key:a"), Derive(kdf, seed, context, "window-key:b");
    var maskA := DeriveMask(kdf, seed, context, "window-mask:a");
    var maskB := DeriveMask(kdf, seed, context, "window-mask:b");
    match role
    case Initiator => Channel(keyA, keyB, maskA, maskB, 0, EMPTY, size)
    case Responder => Channel(keyB, keyA, maskB, maskA, 0, EMPTY, size)
  }

  function NonceFor(mask: Nonce, sequence: u64): Nonce {
    mask[..4] + Xor(mask[4..], Be64(sequence))
  }

  function Seal(aead: Aead, c: Channel, plaintext: Bytes, userAad: Bytes): (r: (Channel, Result<Packet>)) {
    if c.txSeq == U64_MAX then (c, Err(Cifrado))
    else
      var flags := FlagsFor(userAad);
      var aad := AadV2(flags, c.txSeq, userAad, 0);
      if aad.Err? then (c, Err(aad.error))
      else
        var nonce := NonceFor(c.txMask, c.txSeq);
        var ciphertext := aead.enc(c.txKey, nonce, aad.value, plaintext);
        if ciphertext.None? then (c, Err(Cifrado))
        else
          (c.(txSeq := c.txSeq + 1),
           Ok(Packet(WIRE_VERSION_V2, flags, 0, 0, c.txSeq, 0, nonce, ciphertext.value)))
  }

  function Open(aead: Aead, c: Channel, p: Packet, userAad: Bytes): (r: (Channel, Result<Bytes>))
    requires c.size <= MAX_WINDOW
  {
    if p.version != WIRE_VERSION_V2 then (c, Err(VersionNoSoportada(p.version)))
    else
      var verdict := Check(c.rx, p.sequence, c.size);
      if verdict.Err? then (c, Err(verdict.error))
      else if p.nonce != NonceFor(c.rxMask, p.sequence) then (c, Err(Autenticacion))
      else
        var aad := AadV2(p.flags, p.sequence, userAad, 0);
        if aad.Err? then (c, Err(aad.error))
        else
          var message := aead.dec(c.rxKey, p.nonce, aad.value, p.ciphertext);
          if message.None? then (c, Err(Autenticacion))
          else (c.(rx := Record(c.rx, p.sequence, c.size)), Ok(message.value))
  }

  /** `highest + 1` wraps like the source's u64 addition. */
  function Missing(c: Channel): (n: nat) {
    if c.rx.highest.None? then 0
    else
      var next := (c.rx.highest.value + 1) % U64_LIMIT;
      var expected := if next < c.size then next else c.size;
      var ones := CountOnes(c.rx.bitmap, 128);
      if expected < ones then 0 else expected - ones
  }

  /** A failed call leaves every field as it was. */
  lemma FailureChangesNothing(aead: Aead, c: Channel, plaintext: Bytes, userAad: Bytes, p: Packet)
    requires c.size <= MAX_WINDOW
    ensures Seal(aead, c, plaintext, userAad).1.Err? ==> Seal(aead, c, plaintext, userAad).0 == c
    ensures Open(aead, c, p, userAad).1.Err? ==> Open(aead, c, p, userAad).0 == c
  {}

  /** When a seal succeeds, which error otherwise, and what the packet is. */
  lemma SealOutcome(aead: Aead, c: Channel, plaintext: Bytes, userAad: Bytes)
    ensures var (r, flags) := (Seal(aead, c, plaintext, userAad).1, if userAad == [] then 0 else 1);
            if c.txSeq == U64_MAX then r == Err(Cifrado)
            else if |userAad| >= U32_LIMIT then r == Err(AadDemasiadoLargo)
            else
              var nonce := NonceFor(c.txMask, c.txSeq);
              match aead.enc(c.txKey, nonce, AadV2(flags, c.txSeq, userAad, 0).value, plaintext)
              case None => r == Err(Cifrado)
              case Some(ciphertext) => r == Ok(Packet(WIRE_VERSION_V2, flags, 0, 0, c.txSeq, 0, nonce, ciphertext))
  {
    hide AadV2, NonceFor;
  }

  /** Keys and masks derived from different seeds, contexts or labels come of different HKDF inputs. */
  lemma DerivedApart(kdf: Kdf, seed: Bytes32, context: Bytes, info: string, seed': Bytes32, context': Bytes,
                     info': string)
    requires var start := Ascii("CryptoNugget:replay-window:v1") + [0];
             kdf(start + context, seed, Ascii(info)) == kdf(start + context', seed', Ascii(info')) ==>
               start + context == start + context' && seed == seed' && Ascii(info) == Ascii(info')
    ensures Derive(kdf, seed, context, info) == Derive(kdf, seed', context', info') <==>
            seed == seed' && context == context' && Ascii(info) == Ascii(info')
  {
    var salt := Ascii("CryptoNugget:replay-window:v1") + [0];
    if salt + context == salt + context' {
      SplitEqual(salt, context, salt, context');
    }
  }

  /** The first nonce of a channel is its mask. */
  lemma FirstNonce(mask: Nonce)
    ensures NonceFor(mask, 0) == mask
  {
    BigEndianZero(8);
    XorZeros(mask[4..]);
  }

  /** The first four bytes of the mask stay; each digit of the others is flipped where the big-endian sequence
      has one. */
  lemma NonceDigits(mask: Nonce, sequence: u64, i: nat, d: nat)
    requires i < 12 && d < 8
    ensures i < 4 ==> NonceFor(mask, sequence)[i] == mask[i]
    ensures i >= 4 ==> (Bit(NonceFor(mask, sequence)[i] as nat, d) <==>
                        Bit(mask[i] as nat, d) != Bit(Be64(sequence)[i - 4] as nat, d))
  {
    if i >= 4 {
      BitOfXorBytes(mask[4..], Be64(sequence), i - 4, d);
    }
    hide Bit, Xor, Be64;
  }

  /** The masked nonce determines the sequence. */
  lemma NonceInjective(mask: Nonce, s: u64, t: u64)
    requires NonceFor(mask, s) == NonceFor(mask, t)
    ensures s == t
  {
    SplitEqual(mask[..4], Xor(mask[4..], Be64(s)), mask[..4], Xor(mask[4..], Be64(t)));
    XorCancels(mask[4..], Be64(s));
    XorCancels(mask[4..], Be64(t));
  }

  // --------------------------------------------------------------------------
  // The object
  // --------------------------------------------------------------------------

  class ReplayWindowChannel {
    const aead: Aead
    const txKey: Bytes32
    const rxKey: Bytes32
    const txMask: Nonce
    const rxMask: Nonce
    const window: u64
    var txSeq: u64
    var highestSeen: Option<u64>
    var seenBitmap: u128

    ghost function State(): Channel
      reads this
    {
      Channel(txKey, rxKey, txMask, rxMask, txSeq, Window(highestSeen, seenBitmap), window)
    }

    ghost predicate Valid() {
      1 <= window <= MAX_WINDOW
    }

    constructor (aead: Aead, c: Channel)
      requires 1 <= c.size <= MAX_WINDOW
      ensures Valid() && State() == c && this.aead == aead
    {
      this.aead := aead;
      txKey, rxKey, txMask, rxMask := c.txKey, c.rxKey, c.txMask, c.rxMask;
      window, txSeq := c.size, c.txSeq;
      highestSeen, seenBitmap := c.rx.highest, c.rx.bitmap;
    }

    static method NewWithContext(aead: Aead, kdf: Kdf, seed: Bytes32, role: Role, context: Bytes, window: u64)
      returns (r: Result<ReplayWindowChannel>)
      ensures window == 0 || window > MAX_WINDOW ==> r == Err(ModoInvalido)
      ensures 1 <= window <= MAX_WINDOW ==>
                && r.Ok? && fresh(r.value) && r.value.Valid() && r.value.aead == aead
                && r.value.State() == Initial(kdf, seed, role, context, window)
    {
      if window == 0 || window > MAX_WINDOW {
        return Err(ModoInvalido);
      }
      var c := new ReplayWindowChannel(aead, Initial(kdf, seed, role, context, window));
      return Ok(c);
    }

    static method ComputeNonce(mask: Nonce, sequence: u64) returns (nonce: Nonce)
      ensures nonce == NonceFor(mask, sequence)
    {
      var buffer := new byte[12](i requires 0 <= i < 12 => mask[i]);
      var sequenceBytes := Be64(sequence);
      for i := 0 to 8
        invariant forall j :: 0 <= j < 4 + i ==>
          buffer[j] == if j < 4 then mask[j] else XorByte(mask[j], sequenceBytes[j - 4])
        invariant forall j :: 4 + i <= j < 12 ==> buffer[j] == mask[j]
      {
        buffer[4 + i] := XorByte(buffer[4 + i], sequenceBytes[i]);
      }
      nonce := buffer[..];
      assert nonce == NonceFor(mask, sequence);
    }

    method EnsureSequenceIsNew(sequence: u64) returns (r: Result<()>)
      requires Valid()
      ensures r == Check(State().rx, sequence, window)
    {
      if highestSeen.None? {
        return Ok(());
      }
      var highest := highestSeen.value;
      if sequence > highest {
        return Ok(());
      }
      var delta := highest - sequence;
      if delta >= window {
        return Err(FueraDeOrden);
      }
      if And(seenBitmap, Shl(1, delta)) != 0 {
        return Err(Repetido);
      }
      return Ok(());
    }

    method MarkSeen(sequence: u64)
      requires Valid()
      requires highestSeen.None? || highestSeen.value < sequence + 128
      modifies this`highestSeen, this`seenBitmap
      ensures State() == old(State()).(rx := Record(old(State().rx), sequence, window))
    {
      match highestSeen {
        case None =>
          highestSeen := Some(sequence);
          seenBitmap := 1;
        case Some(highest) =>
          if sequence > highest {
            var shift := sequence - highest;
            if shift >= 128 {
              seenBitmap := 1;
            } else {
              OrFits128(Shl(seenBitmap, shift), 1);
              seenBitmap := Or(Shl(seenBitmap, shift), 1);
            }
            seenBitmap := And(seenBitmap, Mask(window));
            highestSeen := Some(sequence);
          } else {
            var delta := highest - sequence;
            BitOfSet(seenBitmap, delta, 0);
            seenBitmap := Or(seenBitmap, Shl(1, delta));
          }
      }
    }

    method SealBytes(plaintext: Bytes, userAad: Bytes) returns (r: Result<Packet>)
      requires Valid()
      modifies this`txSeq
      ensures (State(), r) == Seal(aead, old(State()), plaintext, userAad)
    {
      var sequence := txSeq;
      if txSeq == U64_MAX {
        return Err(Cifrado);
      }
      var nextSeq := txSeq + 1;
      var flags: byte := if userAad == [] then 0 else FLAG_AAD_PRESENT;
      var internalAad := AadV2(flags, sequence, userAad, 0);
      if internalAad.Err? {
        return Err(internalAad.error);
      }
      var nonce := ComputeNonce(txMask, sequence);
      var ciphertext := aead.enc(txKey, nonce, internalAad.value, plaintext);
      if ciphertext.None? {
        return Err(Cifrado);
      }
      txSeq := nextSeq;
      return Ok(Packet(WIRE_VERSION_V2, flags, 0, 0, sequence, 0, nonce, ciphertext.value));
    }

    method OpenPacket(packet: Packet, userAad: Bytes) returns (r: Result<Bytes>)
      requires Valid()
      modifies this`highestSeen, this`seenBitmap
      ensures (State(), r) == Open(aead, old(State()), packet, userAad)
    {
      if packet.version != WIRE_VERSION_V2 {
        return Err(VersionNoSoportada(packet.version));
      }
      var isNew := EnsureSequenceIsNew(packet.sequence);
      if isNew.Err? {
        return Err(isNew.error);
      }
      var expectedNonce := ComputeNonce(rxMask, packet.sequence);
      if packet.nonce != expectedNonce {
        return Err(Autenticacion);
      }
      var internalAad := AadV2(packet.flags, packet.sequence, userAad, 0);
      if internalAad.Err? {
        return Err(internalAad.error);
      }
      var plaintext := aead.dec(rxKey, packet.nonce, internalAad.value, packet.ciphertext);
      if plaintext.None? {
        return Err(Autenticacion);
      }
      MarkSeen(packet.sequence);
      return Ok(plaintext.value);
    }

    method MissingInWindowCount() returns (n: nat)
      requires Valid()
      ensures n == Missing(State())
    {
      if highestSeen.None? {
        return 0;
      }
      var next := (highestSeen.value + 1) % U64_LIMIT;
      var expectedBits := if next < window then next else window;
      var ones := CountOnes(seenBitmap, 128);
      return if expectedBits < ones then 0 else expectedBits - ones;
    }
  }
}
