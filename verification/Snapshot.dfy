/** src/persistence.rs, first part: encrypted snapshots of the ordered channel. */
module Snapshot {
  import opened Words
  import opened Endpoints
  import opened Primitives
  import opened PacketCodec
  import opened OrderedChannel

  const SNAPSHOT_VERSION_V1: byte := 1
  const SNAPSHOT_VERSION_V2: byte := 2
  const MIN_SNAPSHOT_LEN: nat := 4 + 1 + 12 + TAG_LEN

  function Magic(): (m: Bytes)
    ensures |m| == 4
  {
    Ascii("CNST")
  }

  function SnapshotAad(version: byte, context: Bytes): (r: Result<Bytes>)
    ensures r.Ok? <==> |context| < U32_LIMIT
  {
    if |context| >= U32_LIMIT then Err(AadDemasiadoLargo)
    else Ok(Magic() + [version] + Be32(|context|) + context)
  }

  function EncodeState(s: State): (r: Result<Bytes>)
    ensures r.Ok? <==> |s.context| < U32_LIMIT
  {
    if |s.context| >= U32_LIMIT then Err(AadDemasiadoLargo)
    else Ok(s.txKey + s.rxKey + Be64(s.txSeq) + Be64(s.rxSeq) + Be64(s.epoch)
            + s.txHash + s.rxHash + Be32(|s.context|) + s.context)
  }

  function DecodeState(version: byte, b: Bytes, expected: Bytes): (r: Result<State>) {
    var fixed := if version == SNAPSHOT_VERSION_V2 then 156 else 92;
    if |b| < fixed then Err(PaqueteCorrupto)
    else
      var txHash, rxHash := if version == SNAPSHOT_VERSION_V2 then b[88..120] else Zeros(32),
                            if version == SNAPSHOT_VERSION_V2 then b[120..152] else Zeros(32);
      var contextLen := ReadBe32(b[fixed - 4..fixed]);
      if fixed + contextLen != |b| then Err(PaqueteCorrupto)
      else if b[fixed..] != expected then Err(Autenticacion)
      else Ok(State(b[..32], b[32..64], ReadBe64(b[64..72]), ReadBe64(b[72..80]), ReadBe64(b[80..88]),
                    txHash, rxHash, b[fixed..], true))
  }

  function ExportState(aead: Aead, s: State, wrap: Bytes32, nonce: Nonce): (r: (State, Result<Bytes>)) {
    if s.epoch == U64_MAX then (s, Err(Cifrado))
    else
      var s' := s.(epoch := s.epoch + 1);
      var encoded, aad := EncodeState(s'), SnapshotAad(SNAPSHOT_VERSION_V2, s'.context);
      if encoded.Err? then (s', Err(encoded.error))
      else if aad.Err? then (s', Err(aad.error))
      else
        var ciphertext := aead.enc(wrap, nonce, aad.value, encoded.value);
        if ciphertext.None? then (s', Err(Cifrado))
        else (s', Ok(Magic() + [SNAPSHOT_VERSION_V2] + nonce + ciphertext.value))
  }

  function ImportState(aead: Aead, b: Bytes, wrap: Bytes32, context: Bytes): (r: Result<State>) {
    if |b| < MIN_SNAPSHOT_LEN || b[..4] != Magic() then Err(PaqueteCorrupto)
    else if b[4] != SNAPSHOT_VERSION_V1 && b[4] != SNAPSHOT_VERSION_V2 then Err(VersionNoSoportada(b[4]))
    else
      var aad := SnapshotAad(b[4], context);
      if aad.Err? then Err(aad.error)
      else
        var plaintext := aead.dec(wrap, b[5..17], aad.value, b[17..]);
        if plaintext.None? then Err(Autenticacion)
        else DecodeState(b[4], plaintext.value, context)
  }

  lemma DecodeOfEncode(s: State)
    requires EncodeState(s).Ok?
    ensures DecodeState(SNAPSHOT_VERSION_V2, EncodeState(s).value, s.context) == Ok(s.(needsAck := true))
  {
    var b := EncodeState(s).value;
    assert b[..32] == s.txKey && b[32..64] == s.rxKey;
    assert b[64..72] == Be64(s.txSeq) && b[72..80] == Be64(s.rxSeq) && b[80..88] == Be64(s.epoch);
    assert b[88..120] == s.txHash && b[120..152] == s.rxHash;
    assert b[152..156] == Be32(|s.context|) && b[156..] == s.context;
  }

  /** Importing what was exported yields every field, one epoch on, blocked until acknowledged. */
  lemma ImportOfExport(aead: Aead, s: State, wrap: Bytes32, nonce: Nonce)
    requires aead.Sound() && ExportState(aead, s, wrap, nonce).1.Ok?
    ensures s.epoch < U64_MAX
    ensures ExportState(aead, s, wrap, nonce).0 == s.(epoch := s.epoch + 1)
    ensures ImportState(aead, ExportState(aead, s, wrap, nonce).1.value, wrap, s.context)
            == Ok(s.(epoch := s.epoch + 1, needsAck := true))
  {
    var s' := s.(epoch := s.epoch + 1);
    var b := ExportState(aead, s, wrap, nonce).1.value;
    var aad, encoded := SnapshotAad(SNAPSHOT_VERSION_V2, s.context).value, EncodeState(s').value;
    var ciphertext := aead.enc(wrap, nonce, aad, encoded).value;
    assert b[..4] == Magic() && b[4] == SNAPSHOT_VERSION_V2 && b[5..17] == nonce && b[17..] == ciphertext;
    assert aead.enc(wrap, nonce, aad, encoded).Some?;
    DecodeOfEncode(s');
  }

  /** The fields of a snapshot in their order, the transcripts in version 2 only. */
  function StateBytes(version: byte, s: State): Bytes
    requires |s.context| < U32_LIMIT
  {
    s.txKey + s.rxKey + Be64(s.txSeq) + Be64(s.rxSeq) + Be64(s.epoch)
    + (if version == 2 then s.txHash + s.rxHash else []) + Be32(|s.context|) + s.context
  }

  /** What a snapshot of either version, sealed byte by byte as laid out here, is imported as: every field it carries,
      blocked, and with both transcripts zero in version 1. */
  lemma ImportOfBytes(aead: Aead, version: byte, s: State, wrap: Bytes32, nonce: Nonce)
    requires aead.Sound() && (version == 1 || version == 2) && |s.context| < U32_LIMIT
    requires aead.enc(wrap, nonce, SnapshotAad(version, s.context).value, StateBytes(version, s)).Some?
    ensures var c := aead.enc(wrap, nonce, SnapshotAad(version, s.context).value, StateBytes(version, s)).value;
            ImportState(aead, Magic() + [version] + nonce + c, wrap, s.context) ==
            Ok(if version == 2 then s.(needsAck := true)
               else s.(txHash := Zeros(32), rxHash := Zeros(32), needsAck := true))
  {
    var raw, aad := StateBytes(version, s), SnapshotAad(version, s.context).value;
    var c := aead.enc(wrap, nonce, aad, raw).value;
    var b := Magic() + [version] + nonce + c;
    assert aead.enc(wrap, nonce, aad, raw).Some?;
    assert b[..4] == Magic() && b[4] == version && b[5..17] == nonce && b[17..] == c;
    DecodeOfBytes(version, s);
    hide StateBytes, DecodeState, SnapshotAad, Magic;
  }

  lemma DecodeOfBytes(version: byte, s: State)
    requires (version == 1 || version == 2) && |s.context| < U32_LIMIT
    ensures DecodeState(version, StateBytes(version, s), s.context) ==
            Ok(if version == 2 then s.(needsAck := true)
               else s.(txHash := Zeros(32), rxHash := Zeros(32), needsAck := true))
  {
    hide Be32, Be64, ReadBe32, ReadBe64;
    var b := StateBytes(version, s);
    assert b[..32] == s.txKey && b[32..64] == s.rxKey;
    assert b[64..72] == Be64(s.txSeq) && b[72..80] == Be64(s.rxSeq) && b[80..88] == Be64(s.epoch);
    if version == 2 {
      assert b[88..120] == s.txHash && b[120..152] == s.rxHash;
      assert b[152..156] == Be32(|s.context|) && b[156..] == s.context;
    } else {
      assert b[88..92] == Be32(|s.context|) && b[92..] == s.context;
    }
  }

  /** A snapshot is bound to its version and context. */
  lemma SnapshotAadInjective(version: byte, context: Bytes, version': byte, context': Bytes)
    requires SnapshotAad(version, context).Ok? && SnapshotAad(version', context').Ok?
    ensures SnapshotAad(version, context) == SnapshotAad(version', context') <==>
            version == version' && context == context'
  {
    var x, y := SnapshotAad(version, context).value, SnapshotAad(version', context').value;
    assert x[4] == version && y[4] == version' && x[9..] == context && y[9..] == context';
  }

  /** A snapshot is refused for every other context and under every other wrap key, where the cipher opens only what was
      exported. */
  lemma ImportElsewhere(aead: Aead, s: State, wrap: Bytes32, nonce: Nonce, wrap': Bytes32, context: Bytes)
    requires aead.Sound() && ExportState(aead, s, wrap, nonce).1.Ok? && (wrap' != wrap || context != s.context)
    requires |context| < U32_LIMIT ==>
               var c := ExportState(aead, s, wrap, nonce).1.value[17..];
               var aad := SnapshotAad(SNAPSHOT_VERSION_V2, s.context).value;
               var exported := Sealing(wrap, nonce, aad, EncodeState(s.(epoch := s.epoch + 1)).value, c);
               Unforgeable(aead, {exported}, wrap', nonce,
                           SnapshotAad(SNAPSHOT_VERSION_V2, context).value, c)
    ensures ImportState(aead, ExportState(aead, s, wrap, nonce).1.value, wrap', context) ==
            Err(if |context| >= U32_LIMIT then AadDemasiadoLargo else Autenticacion)
  {
    var b := ExportState(aead, s, wrap, nonce).1.value;
    assert |b| >= MIN_SNAPSHOT_LEN && b[..4] == Magic() && b[4] == SNAPSHOT_VERSION_V2 && b[5..17] == nonce by {
      var encoded := EncodeState(s.(epoch := s.epoch + 1)).value;
      var aad := SnapshotAad(SNAPSHOT_VERSION_V2, s.context).value;
      assert aead.enc(wrap, nonce, aad, encoded).Some?;
    }
    if |context| < U32_LIMIT {
      SnapshotAadInjective(SNAPSHOT_VERSION_V2, s.context, SNAPSHOT_VERSION_V2, context);
    }
    hide SnapshotAad, EncodeState, DecodeState, Magic, ExportState;
  }

  /** A failed export is not always a no-op: unless the epoch was exhausted, it has already advanced. */
  lemma FailedExport(aead: Aead, s: State, wrap: Bytes32, nonce: Nonce)
    requires ExportState(aead, s, wrap, nonce).1.Err?
    ensures ExportState(aead, s, wrap, nonce).0 == s <==> s.epoch == U64_MAX
    ensures ExportState(aead, s, wrap, nonce).0 == s.(epoch := NextEpoch(s.epoch))
  {}

  /** A channel over a context too long for its length field is one whose every export fails and advances the epoch. */
  lemma FailedExportWitness(aead: Aead, kdf: Kdf, seed: Bytes32, role: Role, wrap: Bytes32,
                            nonce: Nonce) returns (context: Bytes)
    ensures var s := Initial(kdf, seed, role, context);
            && s.epoch == 0
            && ExportState(aead, s, wrap, nonce) == (s.(epoch := 1), Err(AadDemasiadoLargo))
            && ExportState(aead, s.(epoch := 1), wrap, nonce) == (s.(epoch := 2), Err(AadDemasiadoLargo))
  {
    context := Zeros(U32_LIMIT);
    hide Derive;
  }

  /** Whatever snapshot is accepted, v1 or v2, it neither seals nor opens until it is acknowledged. */
  lemma ImportedIsBlocked(suite: Suite, b: Bytes, wrap: Bytes32, context: Bytes, nonce: Nonce, plaintext: Bytes,
                          userAad: Bytes, p: Packet)
    requires ImportState(suite.aead, b, wrap, context).Ok?
    ensures var s := ImportState(suite.aead, b, wrap, context).value;
            && s.context == context
            && Seal(suite, s, nonce, plaintext, userAad) == (s, Err(EstadoSinReanudar))
            && Open(suite, s, p, userAad) == (s, Err(EstadoSinReanudar))
  {}
}
