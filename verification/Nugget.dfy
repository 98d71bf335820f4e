/** The ordered channel as the source has it: one object whose fields every call updates. */
module Nugget {
  import opened Words
  import opened Endpoints
  import opened Primitives
  import opened PacketCodec
  import opened OrderedChannel
  import opened Snapshot

  class CryptoNugget {
    const suite: Suite
    const context: Bytes
    var txKey: Bytes32
    var rxKey: Bytes32
    var txSeq: u64
    var rxSeq: u64
    var epoch: u64
    var txTranscriptHash: Bytes32
    var rxTranscriptHash: Bytes32
    var requiresResumeAck: bool

    ghost function Abs(): State
      reads this
    {
      State(txKey, rxKey, txSeq, rxSeq, epoch, txTranscriptHash, rxTranscriptHash, context, requiresResumeAck)
    }

    constructor (suite: Suite, s: State)
      ensures Abs() == s && this.suite == suite
    {
      this.suite, context := suite, s.context;
      txKey, rxKey, txSeq, rxSeq, epoch := s.txKey, s.rxKey, s.txSeq, s.rxSeq, s.epoch;
      txTranscriptHash, rxTranscriptHash, requiresResumeAck := s.txHash, s.rxHash, s.needsAck;
    }

    constructor NewWithContext(suite: Suite, seed: Bytes32, role: Role, context: Bytes)
      ensures Abs() == Initial(suite.kdf, seed, role, context) && this.suite == suite
    {
      var s := Initial(suite.kdf, seed, role, context);
      this.suite, this.context := suite, context;
      txKey, rxKey, txSeq, rxSeq, epoch := s.txKey, s.rxKey, 0, 0, 0;
      txTranscriptHash, rxTranscriptHash, requiresResumeAck := s.txHash, s.rxHash, false;
    }

    method UpdateTranscript(isTx: bool, epoch: u64, sequence: u64, nonce: Nonce, ciphertext: Bytes)
      modifies this`txTranscriptHash, this`rxTranscriptHash
      ensures var link := Link(epoch, sequence, nonce, TagOf(ciphertext));
              Abs() == if isTx then old(Abs()).(txHash := Extend(suite.hash, old(txTranscriptHash), link))
                       else old(Abs()).(rxHash := Extend(suite.hash, old(rxTranscriptHash), link))
    {
      var acc := if isTx then txTranscriptHash else rxTranscriptHash;
      var input := Ascii("CryptoNugget:Transcript:v1");
      input := input + acc;
      input := input + Be64(epoch);
      input := input + Be64(sequence);
      input := input + nonce;
      var tagStart := if |ciphertext| < TAG_LEN then 0 else |ciphertext| - TAG_LEN;
      input := input + ciphertext[tagStart..];
      if isTx {
        txTranscriptHash := suite.hash(input);
      } else {
        rxTranscriptHash := suite.hash(input);
      }
    }

    method MutarClave(isTx: bool)
      modifies this`txKey, this`rxKey
      ensures Abs() == if isTx then old(Abs()).(txKey := Ratchet(suite.kdf, old(txKey)))
                       else old(Abs()).(rxKey := Ratchet(suite.kdf, old(rxKey)))
    {
      var current := if isTx then txKey else rxKey;
      var next := suite.kdf(Ascii("CryptoNugget:ratchet:v1"), current, Ascii("ratchet-key:v1"));
      if isTx {
        txKey := next;
      } else {
        rxKey := next;
      }
    }

    method CifrarBytesWithAad(randomNonce: Nonce, plaintext: Bytes, userAad: Bytes) returns (r: Result<Packet>)
      modifies this
      ensures (Abs(), r) == Seal(suite, old(Abs()), randomNonce, plaintext, userAad)
    {
      hide AadV2, Extend, Ratchet, TagOf;
      if requiresResumeAck {
        return Err(EstadoSinReanudar);
      }
      if txSeq == U64_MAX {
        return Err(Cifrado);
      }
      var nextSeq := txSeq + 1;
      var sequence := txSeq;
      var flags: byte := if userAad == [] then 0 else FLAG_AAD_PRESENT;
      var internalAad := AadV2(flags, sequence, userAad, epoch);
      if internalAad.Err? {
        return Err(internalAad.error);
      }
      var ciphertext := suite.aead.enc(txKey, randomNonce, internalAad.value, plaintext);
      if ciphertext.None? {
        return Err(Cifrado);
      }
      UpdateTranscript(true, epoch, sequence, randomNonce, ciphertext.value);
      MutarClave(true);
      txSeq := nextSeq;
      return Ok(Packet(WIRE_VERSION_V2, flags, 0, epoch, sequence, 0, randomNonce, ciphertext.value));
    }

    method DescifrarBytesWithAad(packet: Packet, userAad: Bytes) returns (r: Result<Bytes>)
      modifies this
      ensures (Abs(), r) == Open(suite, old(Abs()), packet, userAad)
    {
      hide AadV2, AadV1, Extend, Ratchet, TagOf;
      if requiresResumeAck {
        return Err(EstadoSinReanudar);
      }
      if packet.sequence != rxSeq {
        return Err(Autenticacion);
      }
      if rxSeq == U64_MAX {
        return Err(Autenticacion);
      }
      var nextRxSeq := rxSeq + 1;
      var candidates: seq<u64> := [epoch, if epoch == U64_MAX then U64_MAX else epoch + 1];
      var authenticatedEpoch := epoch;
      var plaintext: Option<Bytes> := None;
      if packet.version == WIRE_VERSION_V2 {
        var i := 0;
        while i < 2 && plaintext.None?
          invariant 0 <= i <= 2
          invariant plaintext.None? ==>
            forall j :: 0 <= j < i ==> Rejected(suite.aead, old(Abs()), packet, userAad, candidates[j])
          invariant plaintext.Some? ==>
            && Authenticate(suite.aead, old(Abs()), packet, userAad) == Ok((authenticatedEpoch, plaintext.value))
          decreases 2 - i, plaintext.None?
        {
          var internalAad := AadV2(packet.flags, packet.sequence, userAad, candidates[i]);
          if internalAad.Err? {
            return Err(internalAad.error);
          }
          plaintext := suite.aead.dec(rxKey, packet.nonce, internalAad.value, packet.ciphertext);
          assert plaintext.None? ==> Rejected(suite.aead, old(Abs()), packet, userAad, candidates[i]);
          assert i == 1 ==> Rejected(suite.aead, old(Abs()), packet, userAad, candidates[0]);
          if plaintext.Some? {
            authenticatedEpoch := candidates[i];
          }
          i := i + 1;
        }
        if plaintext.None? {
          assert Rejected(suite.aead, old(Abs()), packet, userAad, candidates[0]);
          assert Rejected(suite.aead, old(Abs()), packet, userAad, candidates[1]);
          return Err(Autenticacion);
        }
      } else if packet.version == WIRE_VERSION_V1 {
        if userAad != [] {
          return Err(Autenticacion);
        }
        plaintext := suite.aead.dec(rxKey, packet.nonce, AadV1(packet.sequence), packet.ciphertext);
        if plaintext.None? {
          return Err(Autenticacion);
        }
      } else {
        return Err(VersionNoSoportada(packet.version));
      }
      UpdateTranscript(false, authenticatedEpoch, packet.sequence, packet.nonce, packet.ciphertext);
      MutarClave(false);
      rxSeq := nextRxSeq;
      epoch := authenticatedEpoch;
      return Ok(plaintext.value);
    }

    method Export(wrap: Bytes32, randomNonce: Nonce) returns (r: Result<Bytes>)
      modifies this`epoch
      ensures (Abs(), r) == ExportState(suite.aead, old(Abs()), wrap, randomNonce)
    {
      if epoch == U64_MAX {
        return Err(Cifrado);
      }
      epoch := epoch + 1;
      var state := EncodeState(State(txKey, rxKey, txSeq, rxSeq, epoch, txTranscriptHash, rxTranscriptHash, context,
                                     requiresResumeAck));
      if state.Err? {
        return Err(state.error);
      }
      // This cannot fail: EncodeState has already checked the same length.
      var aad := SnapshotAad(SNAPSHOT_VERSION_V2, context);
      var ciphertext := suite.aead.enc(wrap, randomNonce, aad.value, state.value);
      if ciphertext.None? {
        return Err(Cifrado);
      }
      var out := Magic();
      out := out + [SNAPSHOT_VERSION_V2];
      out := out + randomNonce;
      out := out + ciphertext.value;
      return Ok(out);
    }

    static method Import(suite: Suite, b: Bytes, wrap: Bytes32, context: Bytes) returns (r: Result<CryptoNugget>)
      ensures match ImportState(suite.aead, b, wrap, context)
              case Ok(s) => r.Ok? && fresh(r.value) && r.value.Abs() == s && r.value.suite == suite
              case Err(e) => r == Err(e)
    {
      var s := ImportState(suite.aead, b, wrap, context);
      if s.Err? {
        return Err(s.error);
      }
      var nugget := new CryptoNugget(suite, s.value);
      return Ok(nugget);
    }

    method MarkResumed()
      modifies this`requiresResumeAck
      ensures Abs() == old(Abs()).(needsAck := false)
    {
      requiresResumeAck := false;
    }
  }
}
