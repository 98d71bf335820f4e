/** Results, the error enum, and the cryptographic primitives.
 *
 *  AES-256-GCM, SHA-256 and HKDF are never axiomatised: every definition takes
 *  them as function values, every theorem quantifies over all of them, and what
 *  a theorem needs of them is one of the hypotheses below.
 */
module Primitives {
  import opened Words

  datatype Option<+T> = None | Some(value: T)

  /** src/error.rs, restricted to the errors the modelled operations return. */
  datatype Error =
    | PaqueteCorrupto
    | VersionNoSoportada(version: byte)
    | Autenticacion
    | Cifrado
    | ModoInvalido
    | Repetido
    | FueraDeOrden
    | EstadoSinReanudar
    | TiempoExpiradoOInvalido
    | AadDemasiadoLargo
    | IntegridadContextoCorrupta

  datatype Result<+T> = Ok(value: T) | Err(error: Error)

  /** SHA-256. */
  type Hash = Bytes -> Bytes32

  /** HKDF-SHA-256 (RFC 5869): salt, input key material, info; 32 bytes out. */
  type Kdf = (Bytes, Bytes, Bytes) -> Bytes32

  const TAG_LEN: nat := 16

  /** AES-256-GCM: key, nonce, associated data, then message or ciphertext. */
  datatype Aead = Aead(
    enc: (Bytes32, Nonce, Bytes, Bytes) -> Option<Bytes>,
    dec: (Bytes32, Nonce, Bytes, Bytes) -> Option<Bytes>)
  {
    /** What was encrypted decrypts to itself and is one tag longer. */
    ghost predicate Sound() {
      forall k, n, a, m {:trigger enc(k, n, a, m)} :: enc(k, n, a, m).Some? ==>
        && |enc(k, n, a, m).value| == |m| + TAG_LEN
        && dec(k, n, a, enc(k, n, a, m).value) == Some(m)
    }
  }

  /** Soundness is satisfiable: appending a constant tag is sound. */
  lemma SoundAeadExists() returns (aead: Aead)
    ensures aead.Sound()
  {
    aead := Aead(
      (k, n, a, m) => Some(m + Zeros(TAG_LEN)),
      (k, n, a, c) => if |c| < TAG_LEN then None else Some(c[..|c| - TAG_LEN]));
    forall m: Bytes ensures (m + Zeros(TAG_LEN))[..|m|] == m {}
  }

  /** The three primitives of one deployment. */
  datatype Suite = Suite(aead: Aead, kdf: Kdf, hash: Hash)

  /** One encryption performed by an honest party. */
  datatype Sealing = Sealing(key: Bytes32, nonce: Nonce, aad: Bytes, message: Bytes, ciphertext: Bytes)

  ghost predicate GenuineLog(aead: Aead, log: set<Sealing>) {
    forall e :: e in log ==> aead.enc(e.key, e.nonce, e.aad, e.message) == Some(e.ciphertext)
  }

  /** The authenticity assumption for one decryption: it succeeds only on
      something an honest party encrypted under the same key, nonce and data. */
  ghost predicate Unforgeable(aead: Aead, log: set<Sealing>, key: Bytes32, nonce: Nonce, aad: Bytes,
                              ciphertext: Bytes) {
    aead.dec(key, nonce, aad, ciphertext).Some? ==>
      exists m :: Sealing(key, nonce, aad, m, ciphertext) in log
  }

  lemma OpenedWasSealed(aead: Aead, log: set<Sealing>, key: Bytes32, nonce: Nonce, aad: Bytes, ciphertext: Bytes,
                        message: Bytes)
    requires aead.Sound() && GenuineLog(aead, log)
    requires Unforgeable(aead, log, key, nonce, aad, ciphertext)
    requires aead.dec(key, nonce, aad, ciphertext) == Some(message)
    ensures Sealing(key, nonce, aad, message, ciphertext) in log
  {
    var m :| Sealing(key, nonce, aad, m, ciphertext) in log;
    assert aead.enc(key, nonce, aad, m) == Some(ciphertext);
  }

  /** The hash does not collide on the given inputs. */
  ghost predicate CollisionFree(hash: Hash, inputs: set<Bytes>) {
    forall x, y :: x in inputs && y in inputs && hash(x) == hash(y) ==> x == y
  }
}
