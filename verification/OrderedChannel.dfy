/** src/modes/ordered.rs: the state of the ordered ratchet channel, and what its operations compute. */
module OrderedChannel {
  import opened Words
  import opened Endpoints
  import opened Primitives
  import opened PacketCodec

  datatype State = State(
    txKey: Bytes32,
    rxKey: Bytes32,
    txSeq: u64,
    rxSeq: u64,
    epoch: u64,
    txHash: Bytes32,
    rxHash: Bytes32,
    context: Bytes,
    needsAck: bool)

  // --------------------------------------------------------------------------
  // Key and transcript chains
  // --------------------------------------------------------------------------

  function Derive(kdf: Kdf, seed: Bytes32, context: Bytes, info: string): Bytes32 {
    kdf(Ascii("CryptoNugget:seed:v1") + [0] + context, seed, Ascii(info))
  }

  function Initial(kdf: Kdf, seed: Bytes32, role: Role, context: Bytes): State {
    var keyA, keyB := Derive(kdf, seed, context, "tx-key:a"), Derive(kdf, seed, context, "tx-key:b");
    var hashA, hashB := Derive(kdf, seed, context, "transcript:a"), Derive(kdf, seed, context, "transcript:b");
    match role
    case Initiator => State(keyA, keyB, 0, 0, 0, hashA, hashB, context, false)
    case Responder => State(keyB, keyA, 0, 0, 0, hashB, hashA, context, false)
  }

  function Ratchet(kdf: Kdf, key: Bytes32): Bytes32 {
    kdf(Ascii("CryptoNugget:ratchet:v1"), key, Ascii("ratchet-key:v1"))
  }

  /** `key` ratcheted `n` times. */
  function KeyAt(kdf: Kdf, key: Bytes32, n: nat): Bytes32 {
    if n == 0 then key else Ratchet(kdf, KeyAt(kdf, key, n - 1))
  }

  /** What one packet contributes to a transcript. */
  datatype Link = Link(epoch: u64, sequence: u64, nonce: Nonce, tag: Bytes)

  function LinkOf(epoch: u64, p: Packet): Link {
    Link(epoch, p.sequence, p.nonce, TagOf(p.ciphertext))
  }

  function TranscriptInput(acc: Bytes32, link: Link): Bytes {
    Ascii("CryptoNugget:Transcript:v1") + acc + Be64(link.epoch) + Be64(link.sequence) + link.nonce + link.tag
  }

  function Extend(hash: Hash, acc: Bytes32, link: Link): Bytes32 {
    hash(TranscriptInput(acc, link))
  }

  /** The rolling hash over `links`, from its initial value. */
  function Chain(hash: Hash, start: Bytes32, links: seq<Link>): Bytes32 {
    if links == [] then start
    else Extend(hash, Chain(hash, start, links[..|links| - 1]), links[|links| - 1])
  }

  // --------------------------------------------------------------------------
  // Sealing and opening
  // --------------------------------------------------------------------------

  function NextEpoch(epoch: u64): u64 {
    if epoch == U64_MAX then U64_MAX else epoch + 1
  }

  function Seal(suite: Suite, s: State, nonce: Nonce, plaintext: Bytes, userAad: Bytes): (r: (State, Result<Packet>)) {
    if s.needsAck then (s, Err(EstadoSinReanudar))
    else if s.txSeq == U64_MAX then (s, Err(Cifrado))
    else
      var flags := FlagsFor(userAad);
      var aad := AadV2(flags, s.txSeq, userAad, s.epoch);
      if aad.Err? then (s, Err(aad.error))
      else
        var ciphertext := suite.aead.enc(s.txKey, nonce, aad.value, plaintext);
        if ciphertext.None? then (s, Err(Cifrado))
        else
          var p := Packet(WIRE_VERSION_V2, flags, 0, s.epoch, s.txSeq, 0, nonce, ciphertext.value);
          (Sent(suite, s, p), Ok(p))
  }

  /** The sender's state once `p` is out. */
  function Sent(suite: Suite, s: State, p: Packet): State
    requires s.txSeq < U64_MAX
  {
    s.(txHash := Extend(suite.hash, s.txHash, LinkOf(s.epoch, p)),
       txKey := Ratchet(suite.kdf, s.txKey),
       txSeq := s.txSeq + 1)
  }

  /** The epoch a packet authenticates under, and its message. */
  function Authenticate(aead: Aead, s: State, p: Packet, userAad: Bytes): (r: Result<(u64, Bytes)>) {
    if p.version == WIRE_VERSION_V2 then
      var aad0 := AadV2(p.flags, p.sequence, userAad, s.epoch);
      var aad1 := AadV2(p.flags, p.sequence, userAad, NextEpoch(s.epoch));
      if aad0.Err? then Err(aad0.error)
      else if aad1.Err? then Err(aad1.error)
      else
        var m0 := aead.dec(s.rxKey, p.nonce, aad0.value, p.ciphertext);
        var m1 := aead.dec(s.rxKey, p.nonce, aad1.value, p.ciphertext);
        if m0.Some? then Ok((s.epoch, m0.value))
        else if m1.Some? then Ok((NextEpoch(s.epoch), m1.value))
        else Err(Autenticacion)
    else if p.version == WIRE_VERSION_V1 then
      if userAad != [] then Err(Autenticacion)
      else
        var m := aead.dec(s.rxKey, p.nonce, AadV1(p.sequence), p.ciphertext);
        if m.Some? then Ok((s.epoch, m.value)) else Err(Autenticacion)
    else Err(VersionNoSoportada(p.version))
  }

  /** A v2 packet does not decrypt under one epoch candidate. */
  ghost predicate Rejected(aead: Aead, s: State, p: Packet, userAad: Bytes, epoch: u64) {
    var aad := AadV2(p.flags, p.sequence, userAad, epoch);
    aad.Ok? && aead.dec(s.rxKey, p.nonce, aad.value, p.ciphertext).None?
  }

  function Open(suite: Suite, s: State, p: Packet, userAad: Bytes): (r: (State, Result<Bytes>)) {
    if s.needsAck then (s, Err(EstadoSinReanudar))
    else if p.sequence != s.rxSeq then (s, Err(Autenticacion))
    else if s.rxSeq == U64_MAX then (s, Err(Autenticacion))
    else
      var a := Authenticate(suite.aead, s, p, userAad);
      if a.Err? then (s, Err(a.error))
      else (Received(suite, s, a.value.0, p), Ok(a.value.1))
  }

  /** The receiver's state once `p` authenticated under `epoch`. */
  function Received(suite: Suite, s: State, epoch: u64, p: Packet): State
    requires s.rxSeq < U64_MAX
  {
    s.(rxHash := Extend(suite.hash, s.rxHash, LinkOf(epoch, p)),
       rxKey := Ratchet(suite.kdf, s.rxKey),
       rxSeq := s.rxSeq + 1,
       epoch := epoch)
  }

  /** A rejected call leaves the whole state as it was; an accepted one never lowers the epoch
      and touches one direction only. */
  lemma RejectionChangesNothing(suite: Suite, s: State, nonce: Nonce, plaintext: Bytes, userAad: Bytes, p: Packet)
    ensures var (s', r) := Seal(suite, s, nonce, plaintext, userAad);
            && (r.Err? ==> s' == s)
            && s' == s.(txKey := s'.txKey, txSeq := s'.txSeq, txHash := s'.txHash)
    ensures var (s', r) := Open(suite, s, p, userAad);
            && (r.Err? ==> s' == s)
            && s' == s.(rxKey := s'.rxKey, rxSeq := s'.rxSeq, rxHash := s'.rxHash, epoch := s'.epoch)
            && s.epoch <= s'.epoch <= NextEpoch(s.epoch)
  {
    hide AadV1, AadV2, Extend, Ratchet, TagOf;
  }

  // --------------------------------------------------------------------------
  // Equal transcripts
  // --------------------------------------------------------------------------

  lemma TranscriptInputInjective(acc: Bytes32, link: Link, acc': Bytes32, link': Link)
    requires TranscriptInput(acc, link) == TranscriptInput(acc', link')
    ensures acc == acc' && link == link'
  {
    var x, x' := TranscriptInput(acc, link), TranscriptInput(acc', link');
    assert |Ascii("CryptoNugget:Transcript:v1")| == 26;
    assert x[26..58] == acc && x'[26..58] == acc';
    assert x[58..66] == Be64(link.epoch) && x'[58..66] == Be64(link'.epoch);
    assert x[66..74] == Be64(link.sequence) && x'[66..74] == Be64(link'.sequence);
    assert x[74..86] == link.nonce && x'[74..86] == link'.nonce;
    assert x[86..] == link.tag && x'[86..] == link'.tag;
  }

  /** The hash inputs a chain is computed from. */
  ghost function ChainInputs(hash: Hash, start: Bytes32, links: seq<Link>): set<Bytes> {
    if links == [] then {}
    else
      var init := links[..|links| - 1];
      ChainInputs(hash, start, init) + {TranscriptInput(Chain(hash, start, init), links[|links| - 1])}
  }

  /** Without a collision, and when the start never recurs, equal transcripts mean equal histories. */
  lemma {:induction false} EqualTranscripts(hash: Hash, start: Bytes32, xs: seq<Link>, ys: seq<Link>)
    requires CollisionFree(hash, ChainInputs(hash, start, xs) + ChainInputs(hash, start, ys))
    requires forall i :: i in ChainInputs(hash, start, xs) + ChainInputs(hash, start, ys) ==> hash(i) != start
    requires Chain(hash, start, xs) == Chain(hash, start, ys)
    ensures xs == ys
    decreases |xs|
  {
    if xs != [] && ys != [] {
      var xi, yi := xs[..|xs| - 1], ys[..|ys| - 1];
      TranscriptInputInjective(Chain(hash, start, xi), xs[|xs| - 1], Chain(hash, start, yi), ys[|ys| - 1]);
      EqualTranscripts(hash, start, xi, yi);
      assert xs == xi + [xs[|xs| - 1]] && ys == yi + [ys[|ys| - 1]];
    }
  }

  /** A link carries the epoch, sequence, nonce and tag of its packet, and nothing else of it. */
  lemma LinkBinds(epoch: u64, p: Packet, epoch': u64, p': Packet)
    ensures LinkOf(epoch, p) == LinkOf(epoch', p') <==>
            && epoch == epoch' && p.sequence == p'.sequence && p.nonce == p'.nonce
            && TagOf(p.ciphertext) == TagOf(p'.ciphertext)
  {}

  /** When a seal succeeds, which error otherwise, and what the packet is. */
  lemma SealOutcome(suite: Suite, s: State, nonce: Nonce, plaintext: Bytes, userAad: Bytes)
    ensures var (r, flags) := (Seal(suite, s, nonce, plaintext, userAad).1, if userAad == [] then 0 else 1);
            if s.needsAck then r == Err(EstadoSinReanudar)
            else if s.txSeq == U64_MAX then r == Err(Cifrado)
            else if |userAad| >= U32_LIMIT then r == Err(AadDemasiadoLargo)
            else
              match suite.aead.enc(s.txKey, nonce, AadV2(flags, s.txSeq, userAad, s.epoch).value, plaintext)
              case None => r == Err(Cifrado)
              case Some(c) => r == Ok(Packet(WIRE_VERSION_V2, flags, 0, s.epoch, s.txSeq, 0, nonce, c))
  {
    hide AadV2, Extend, Ratchet, TagOf;
  }

  /** The two roles of one seed and context start with crossed keys and transcripts, unblocked, at zero. */
  lemma RolesCross(kdf: Kdf, seed: Bytes32, context: Bytes)
    ensures var a, b := Initial(kdf, seed, Initiator, context), Initial(kdf, seed, Responder, context);
            && a.txKey == b.rxKey && a.rxKey == b.txKey && a.txHash == b.rxHash && a.rxHash == b.txHash
            && a.txSeq == a.rxSeq == a.epoch == b.txSeq == b.rxSeq == b.epoch == 0
            && a.context == b.context == context && !a.needsAck && !b.needsAck
  {}

  // --------------------------------------------------------------------------
  // Derivation and ratchet
  // --------------------------------------------------------------------------

  /** Keys derived from different seeds, contexts or labels differ, unless HKDF collides on the two inputs. */
  lemma DerivedApart(kdf: Kdf, seed: Bytes32, context: Bytes, info: string, seed': Bytes32, context': Bytes,
                     info': string)
    requires var salt := Ascii("CryptoNugget:seed:v1") + [0] + context;
             var salt' := Ascii("CryptoNugget:seed:v1") + [0] + context';
             kdf(salt, seed, Ascii(info)) == kdf(salt', seed', Ascii(info')) ==>
               salt == salt' && seed == seed' && Ascii(info) == Ascii(info')
    ensures Derive(kdf, seed, context, info) == Derive(kdf, seed', context', info') <==>
            seed == seed' && context == context' && Ascii(info) == Ascii(info')
  {
    var tag := Ascii("CryptoNugget:seed:v1") + [0];
    if tag + context == tag + context' {
      SplitEqual(tag, context, tag, context');
    }
  }

  /** A successful seal or open replaces its direction's key by the HKDF output, for the ratchet's salt and label, over
      the key before it. */
  lemma SuccessRatchets(suite: Suite, s: State, nonce: Nonce, plaintext: Bytes, userAad: Bytes, p: Packet)
    ensures var (s', r) := Seal(suite, s, nonce, plaintext, userAad);
            r.Ok? ==> s'.txKey == suite.kdf(Ascii("CryptoNugget:ratchet:v1"), s.txKey, Ascii("ratchet-key:v1"))
    ensures var (s', r) := Open(suite, s, p, userAad);
            r.Ok? ==> s'.rxKey == suite.kdf(Ascii("CryptoNugget:ratchet:v1"), s.rxKey, Ascii("ratchet-key:v1"))
  {
    hide AadV1, AadV2, Extend;
  }

  /** Over the first `n` keys of a chain HKDF neither collides nor returns the first one. */
  ghost predicate RatchetsApart(kdf: Kdf, key: Bytes32, n: nat) {
    var salt, info := Ascii("CryptoNugget:ratchet:v1"), Ascii("ratchet-key:v1");
    && (forall i, j :: 0 <= i < n && 0 <= j < n ==>
          kdf(salt, KeyAt(kdf, key, i), info) == kdf(salt, KeyAt(kdf, key, j), info) ==>
            KeyAt(kdf, key, i) == KeyAt(kdf, key, j))
    && (forall i :: 0 <= i < n ==> kdf(salt, KeyAt(kdf, key, i), info) != key)
  }

  /** Then no key of the chain occurs twice. */
  lemma {:induction false} KeysDistinct(kdf: Kdf, key: Bytes32, n: nat, i: nat, j: nat)
    requires RatchetsApart(kdf, key, n) && i < j <= n
    ensures KeyAt(kdf, key, i) != KeyAt(kdf, key, j)
    decreases i
  {
    if i > 0 {
      KeysDistinct(kdf, key, n, i - 1, j - 1);
    }
  }

  // --------------------------------------------------------------------------
  // Legacy packets
  // --------------------------------------------------------------------------

  /** A v1 peer's next packet, written out byte by byte, opens to its message at the receiver's own epoch, moves the
      receiver on like any other, and is refused with any caller part. */
  lemma LegacyOpen(suite: Suite, s: State, nonce: Nonce, plaintext: Bytes, userAad: Bytes)
    requires suite.aead.Sound() && !s.needsAck && s.rxSeq < U64_MAX
    requires suite.aead.enc(s.rxKey, nonce, [1] + Be64(s.rxSeq), plaintext).Some?
    ensures var c := suite.aead.enc(s.rxKey, nonce, [1] + Be64(s.rxSeq), plaintext).value;
            var p := FromBytes([1] + Be64(s.rxSeq) + nonce + c);
            && p.Ok?
            && Open(suite, s, p.value, []) ==
               (s.(rxKey := Ratchet(suite.kdf, s.rxKey), rxSeq := s.rxSeq + 1,
                   rxHash := suite.hash(TranscriptInput(s.rxHash, Link(s.epoch, s.rxSeq, nonce, TagOf(c))))),
                Ok(plaintext))
            && (userAad != [] ==> Open(suite, s, p.value, userAad) == (s, Err(Autenticacion)))
  {
    var c := suite.aead.enc(s.rxKey, nonce, [1] + Be64(s.rxSeq), plaintext).value;
    var packet := Packet(WIRE_VERSION_V1, 0, 0, 0, s.rxSeq, 0, nonce, c);
    assert |c| >= TAG_LEN;
    ParseOfEncoded(packet);
    hide FromBytes, Be64, TagOf, TranscriptInput, Ratchet;
    assert ToBytes(packet) == [1] + Be64(s.rxSeq) + nonce + c;
  }
}
