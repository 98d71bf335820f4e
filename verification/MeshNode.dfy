/** src/modes/chrono.rs: the mesh node, its critical sections and its sequential operations. */
module MeshNode {
  import opened Words
  import opened Primitives
  import opened PacketCodec
  import opened SlidingWindow

  /** A peer is a node at one of its boot epochs. */
  type PeerKey = (u32, u64)

  datatype PeerReplay = PeerReplay(window: Window, received: u64)

  const FRESH_PEER: PeerReplay := PeerReplay(EMPTY, 0)

  /** What the node's mutex guards. */
  datatype Rx = Rx(peers: map<PeerKey, PeerReplay>, integrity: Bytes32)

  const EMPTY_RX: Rx := Rx(map[], ZERO32)

  datatype Node = Node(epoch: u64, txSeq: u64, rx: Rx)

  /** 44 bytes of HKDF output. */
  type Okm = b: Bytes | |b| == 44 witness Zeros(44)

  /** The constants of one node: `expand` is HKDF-Expand from the mesh's packet key. */
  datatype Config = Config(
    aead: Aead,
    hash: Hash,
    expand: Bytes -> Okm,
    nodeId: u32,
    contextHash: Bytes32,
    maxDrift: u64)

  // --------------------------------------------------------------------------
  // The stateless part: keys, sealing, authentication
  // --------------------------------------------------------------------------

  function PacketInfo(nodeId: u32, epoch: u64, sequence: u64, timestampMs: u64): Bytes {
    Be32(nodeId) + Be64(epoch) + Be64(sequence) + Be64(timestampMs)
  }

  function PacketKey(cfg: Config, nodeId: u32, epoch: u64, sequence: u64, timestampMs: u64): Bytes32 {
    cfg.expand(PacketInfo(nodeId, epoch, sequence, timestampMs))[..32]
  }

  function PacketNonce(cfg: Config, nodeId: u32, epoch: u64, sequence: u64, timestampMs: u64): Nonce {
    cfg.expand(PacketInfo(nodeId, epoch, sequence, timestampMs))[32..]
  }

  /** Everything `seal_realtime` does between drawing its ticket and folding the packet. */
  function SealPacket(cfg: Config, epoch: u64, sequence: u64, now: u64, plaintext: Bytes,
                      userAad: Bytes): (r: Result<Packet>) {
    var flags := FlagsFor(userAad);
    var aad := AadV3(flags, cfg.nodeId, epoch, sequence, now, cfg.contextHash, userAad);
    if aad.Err? then Err(aad.error)
    else
      var key := PacketKey(cfg, cfg.nodeId, epoch, sequence, now);
      var nonce := PacketNonce(cfg, cfg.nodeId, epoch, sequence, now);
      var ciphertext := cfg.aead.enc(key, nonce, aad.value, plaintext);
      if ciphertext.None? then Err(Cifrado)
      else Ok(Packet(WIRE_VERSION_V3, flags, cfg.nodeId, epoch, sequence, now, nonce, ciphertext.value))
  }

  /** The unlocked middle of `open_realtime`. */
  function Authenticate(cfg: Config, p: Packet, userAad: Bytes): (r: Result<Bytes>) {
    var aad := AadV3(p.flags, p.nodeId, p.epoch, p.sequence, p.timestampMs, cfg.contextHash, userAad);
    if aad.Err? then Err(aad.error)
    else if PacketNonce(cfg, p.nodeId, p.epoch, p.sequence, p.timestampMs) != p.nonce then Err(Autenticacion)
    else
      var message := cfg.aead.dec(PacketKey(cfg, p.nodeId, p.epoch, p.sequence, p.timestampMs), p.nonce, aad.value,
                                  p.ciphertext);
      if message.None? then Err(Autenticacion) else Ok(message.value)
  }

  function PreCheck(cfg: Config, p: Packet, now: u64): (r: Result<()>) {
    if p.version != WIRE_VERSION_V3 then Err(VersionNoSoportada(p.version))
    else
      var drift := if now < p.timestampMs then p.timestampMs - now else now - p.timestampMs;
      if drift > cfg.maxDrift then Err(TiempoExpiradoOInvalido) else Ok(())
  }

  function DigestInput(p: Packet): Bytes {
    Ascii("ChronoMesh:PacketDigest:v3") + Be32(p.nodeId) + Be64(p.epoch) + Be64(p.sequence)
    + Be64(p.timestampMs) + p.nonce + TagOf(p.ciphertext)
  }

  function Digest(cfg: Config, p: Packet): Bytes32 {
    cfg.hash(DigestInput(p))
  }

  // --------------------------------------------------------------------------
  // The critical sections
  // --------------------------------------------------------------------------

  function KeyOf(p: Packet): PeerKey {
    (p.nodeId, p.epoch)
  }

  /** First section of `open_realtime`: a look at the window, nothing more. */
  function CheckPeers(rx: Rx, p: Packet): (r: Result<()>) {
    if KeyOf(p) in rx.peers then Check(rx.peers[KeyOf(p)].window, p.sequence, MAX_WINDOW) else Ok(())
  }

  function RecordPeer(peer: PeerReplay, sequence: u64): PeerReplay
    requires Check(peer.window, sequence, MAX_WINDOW).Ok?
  {
    PeerReplay(Record(peer.window, sequence, MAX_WINDOW),
               if peer.received == U64_MAX then U64_MAX else peer.received + 1)
  }

  function Folded(cfg: Config, rx: Rx, p: Packet): Rx {
    rx.(integrity := Xor(rx.integrity, Digest(cfg, p)))
  }

  /** Second section of `open_realtime`: entry-or-default, check again, record, fold. */
  function Accept(cfg: Config, rx: Rx, p: Packet): (r: (Rx, Result<()>)) {
    var peer := if KeyOf(p) in rx.peers then rx.peers[KeyOf(p)] else FRESH_PEER;
    var present := rx.(peers := rx.peers[KeyOf(p) := peer]);
    var verdict := Check(peer.window, p.sequence, MAX_WINDOW);
    if verdict.Err? then (present, verdict)
    else (Folded(cfg, present.(peers := present.peers[KeyOf(p) := RecordPeer(peer, p.sequence)]), p), Ok(()))
  }

  /** `open_realtime` as one indivisible step. */
  function AtomicOpen(cfg: Config, rx: Rx, p: Packet, userAad: Bytes, now: u64): (r: (Rx, Result<Bytes>)) {
    var pre, verdict, message := PreCheck(cfg, p, now), CheckPeers(rx, p), Authenticate(cfg, p, userAad);
    if pre.Err? then (rx, Err(pre.error))
    else if verdict.Err? then (rx, Err(verdict.error))
    else if message.Err? then (rx, Err(message.error))
    else (Accept(cfg, rx, p).0, Ok(message.value))
  }

  /** The two checks agree on any one state, and a rejected packet changes nothing. */
  lemma AcceptAgreesWithCheck(cfg: Config, rx: Rx, p: Packet)
    ensures Accept(cfg, rx, p).1 == CheckPeers(rx, p)
    ensures Accept(cfg, rx, p).1.Err? ==> Accept(cfg, rx, p).0 == rx
  {
    assert Check(FRESH_PEER.window, p.sequence, MAX_WINDOW) == Ok(());
    hide Check, Record, Digest;
    if KeyOf(p) in rx.peers {
      assert rx.peers[KeyOf(p) := rx.peers[KeyOf(p)]] == rx.peers;
    }
  }

  /** An accepted packet is counted for its peer, up to the last u64, and no other peer changes. */
  lemma AcceptCounts(cfg: Config, rx: Rx, p: Packet)
    requires Accept(cfg, rx, p).1.Ok?
    ensures var before := if KeyOf(p) in rx.peers then rx.peers[KeyOf(p)].received else 0;
            var peers := Accept(cfg, rx, p).0.peers;
            && KeyOf(p) in peers && peers[KeyOf(p)].received == (if before == U64_MAX then before else before + 1)
            && forall key :: key != KeyOf(p) ==>
                 (key in peers <==> key in rx.peers) && (key in peers ==> peers[key] == rx.peers[key])
  {
    hide Check, Record, Digest;
  }

  /** Two packets with the same digest input are the same message of the same node. */
  lemma DigestInputInjective(p: Packet, q: Packet)
    requires DigestInput(p) == DigestInput(q)
    ensures p.nodeId == q.nodeId && p.epoch == q.epoch && p.sequence == q.sequence && p.timestampMs == q.timestampMs
    ensures p.nonce == q.nonce && TagOf(p.ciphertext) == TagOf(q.ciphertext)
  {
    DigestFields(p);
    DigestFields(q);
    hide DigestInput, Be32, Be64, TagOf;
    assert ReadBe32(Be32(p.nodeId)) == ReadBe32(Be32(q.nodeId));
  }

  lemma DigestFields(p: Packet)
    ensures var x := DigestInput(p);
            && |x| == 66 + |TagOf(p.ciphertext)|
            && x[26..30] == Be32(p.nodeId) && x[30..38] == Be64(p.epoch) && x[38..46] == Be64(p.sequence)
            && x[46..54] == Be64(p.timestampMs) && x[54..66] == p.nonce && x[66..] == TagOf(p.ciphertext)
  {
    var prefix := Ascii("ChronoMesh:PacketDigest:v3");
    assert |prefix| == 26;
    var x := DigestInput(p);
    assert x == prefix + Be32(p.nodeId) + Be64(p.epoch) + Be64(p.sequence) + Be64(p.timestampMs) + p.nonce
           + TagOf(p.ciphertext);
    hide DigestInput, Ascii, Be32, Be64, TagOf;
  }

  // --------------------------------------------------------------------------
  // Authenticity
  // --------------------------------------------------------------------------

  /** One packet some node of the mesh sealed: never with the last sequence number. */
  datatype Origin = Origin(nodeId: u32, epoch: u64, sequence: u64, timestampMs: u64, plaintext: Bytes, userAad: Bytes,
                           packet: Packet)

  ghost predicate Genuine(cfg: Config, o: Origin) {
    o.sequence < U64_MAX
    && SealPacket(cfg.(nodeId := o.nodeId), o.epoch, o.sequence, o.timestampMs, o.plaintext, o.userAad) == Ok(o.packet)
  }

  function OriginAad(cfg: Config, o: Origin): Bytes {
    var aad := AadV3(FlagsFor(o.userAad), o.nodeId, o.epoch, o.sequence, o.timestampMs, cfg.contextHash, o.userAad);
    if aad.Ok? then aad.value else []
  }

  function OriginEntry(cfg: Config, o: Origin): Sealing {
    Sealing(PacketKey(cfg, o.nodeId, o.epoch, o.sequence, o.timestampMs), o.packet.nonce, OriginAad(cfg, o),
            o.plaintext, o.packet.ciphertext)
  }

  /** The authenticity assumption for one `open`: decryption succeeds only on a sealing of the mesh. */
  ghost predicate Authentic(cfg: Config, origins: set<Origin>, p: Packet, userAad: Bytes) {
    Authenticate(cfg, p, userAad).Ok? ==>
      exists o :: o in origins && Genuine(cfg, o)
        && OriginEntry(cfg, o) == Sealing(PacketKey(cfg, p.nodeId, p.epoch, p.sequence, p.timestampMs), p.nonce,
                                          AadV3(p.flags, p.nodeId, p.epoch, p.sequence, p.timestampMs,
                                                cfg.contextHash, userAad).value,
                                          Authenticate(cfg, p, userAad).value, p.ciphertext)
  }

  /** What a node seals, every node of the mesh decrypts, whatever its own id and drift. */
  lemma SealedAuthenticates(cfg: Config, o: Origin)
    requires cfg.aead.Sound() && Genuine(cfg, o)
    ensures Authenticate(cfg, o.packet, o.userAad) == Ok(o.plaintext)
    ensures o.packet.version == WIRE_VERSION_V3 && KeyOf(o.packet) == (o.nodeId, o.epoch)
    ensures o.packet.sequence == o.sequence && o.packet.timestampMs == o.timestampMs
  {
    hide AadV3;
    var aad := AadV3(FlagsFor(o.userAad), o.nodeId, o.epoch, o.sequence, o.timestampMs, cfg.contextHash, o.userAad);
    var key := PacketKey(cfg, o.nodeId, o.epoch, o.sequence, o.timestampMs);
    assert cfg.aead.enc(key, o.packet.nonce, aad.value, o.plaintext) == Some(o.packet.ciphertext);
  }

  /** What opens carries the node id, epoch, sequence, timestamp and plaintext it was sealed with. */
  lemma OpenedOrigin(cfg: Config, origins: set<Origin>, p: Packet, userAad: Bytes) returns (o: Origin)
    requires Authentic(cfg, origins, p, userAad) && Authenticate(cfg, p, userAad).Ok?
    ensures o in origins && Genuine(cfg, o) && p.sequence < U64_MAX
    ensures p.nodeId == o.nodeId && p.epoch == o.epoch && p.sequence == o.sequence && p.timestampMs == o.timestampMs
    ensures p.flags == o.packet.flags && p.nonce == o.packet.nonce && p.ciphertext == o.packet.ciphertext
    ensures Authenticate(cfg, p, userAad) == Ok(o.plaintext) && (HasAad(p.flags) ==> userAad == o.userAad)
    ensures p.version == WIRE_VERSION_V3 ==> p == o.packet
  {
    hide AadV3, PacketKey, PacketNonce, FlagsFor;
    o :| o in origins && Genuine(cfg, o)
        && OriginEntry(cfg, o) == Sealing(PacketKey(cfg, p.nodeId, p.epoch, p.sequence, p.timestampMs), p.nonce,
                                          AadV3(p.flags, p.nodeId, p.epoch, p.sequence, p.timestampMs,
                                                cfg.contextHash, userAad).value,
                                          Authenticate(cfg, p, userAad).value, p.ciphertext);
    AadV3Injective(p.flags, p.nodeId, p.epoch, p.sequence, p.timestampMs, cfg.contextHash, userAad,
                   FlagsFor(o.userAad), o.nodeId, o.epoch, o.sequence, o.timestampMs, cfg.contextHash, o.userAad);
  }

  // --------------------------------------------------------------------------
  // Sealing as one thread at a time does it
  // --------------------------------------------------------------------------

  /** The ticket counter wraps like the source's fetch-add. */
  function Ticket(n: Node): (Node, u64) {
    (n.(txSeq := (n.txSeq + 1) % U64_LIMIT), n.txSeq)
  }

  function SealRealtime(cfg: Config, n: Node, plaintext: Bytes, userAad: Bytes, now: u64): (r: (Node, Result<Packet>)) {
    var (n', sequence) := Ticket(n);
    if sequence == U64_MAX then (n', Err(Cifrado))
    else
      var p := SealPacket(cfg, n.epoch, sequence, now, plaintext, userAad);
      if p.Err? then (n', p) else (n'.(rx := Folded(cfg, n'.rx, p.value)), p)
  }

  /** The plaintext leaves the node only if the second section agrees. */
  function Outcome(verdict: Result<()>, plaintext: Result<Bytes>): Result<Bytes> {
    if verdict.Err? then Err(verdict.error) else plaintext
  }

  /** When a seal succeeds, and all it leaves behind: a ticket drawn in any case, the packet folded into the hash on
      success only, the peers untouched. */
  lemma SealOutcome(cfg: Config, n: Node, plaintext: Bytes, userAad: Bytes, now: u64)
    ensures var (n', r) := SealRealtime(cfg, n, plaintext, userAad, now);
            && n'.epoch == n.epoch && n'.txSeq == (n.txSeq + 1) % U64_LIMIT && n'.rx.peers == n.rx.peers
            && n'.rx.integrity == (if r.Ok? then Xor(n.rx.integrity, cfg.hash(DigestInput(r.value)))
                                   else n.rx.integrity)
            && (r.Ok? <==> && n.txSeq != U64_MAX && |userAad| < U32_LIMIT
                           && Encrypts(cfg, n.epoch, n.txSeq, now, plaintext, userAad).Some?)
            && (r.Ok? ==> SealedAs(cfg, r.value, plaintext, userAad)
                          && (r.value.epoch, r.value.sequence, r.value.timestampMs) == (n.epoch, n.txSeq, now))
            && (r.Err? ==>
                  r.error == if n.txSeq != U64_MAX && |userAad| >= U32_LIMIT then AadDemasiadoLargo else Cifrado)
  {
    hide DigestInput, Xor, PacketInfo, AadV3;
  }

  // --------------------------------------------------------------------------
  // What a sealed packet is
  // --------------------------------------------------------------------------

  /** The encryption of a message under what HKDF gives for node, epoch, sequence and time. */
  function Encrypts(cfg: Config, epoch: u64, sequence: u64, now: u64, plaintext: Bytes, userAad: Bytes): Option<Bytes>
    requires |userAad| < U32_LIMIT
  {
    var okm := cfg.expand(PacketInfo(cfg.nodeId, epoch, sequence, now));
    var aad := AadV3(if userAad == [] then 0 else 1, cfg.nodeId, epoch, sequence, now, cfg.contextHash, userAad);
    cfg.aead.enc(okm[..32], okm[32..], aad.value, plaintext)
  }

  /** `p` is what this node seals for the message and the caller part. */
  ghost predicate SealedAs(cfg: Config, p: Packet, plaintext: Bytes, userAad: Bytes) {
    && p.version == WIRE_VERSION_V3 && p.nodeId == cfg.nodeId && p.flags == (if userAad == [] then 0 else 1)
    && p.nonce == PacketNonce(cfg, p.nodeId, p.epoch, p.sequence, p.timestampMs) && |userAad| < U32_LIMIT
    && Encrypts(cfg, p.epoch, p.sequence, p.timestampMs, plaintext, userAad) == Some(p.ciphertext)
  }

  lemma SealsWhat(cfg: Config, epoch: u64, sequence: u64, now: u64, plaintext: Bytes, userAad: Bytes)
    requires SealPacket(cfg, epoch, sequence, now, plaintext, userAad).Ok?
    ensures var p := SealPacket(cfg, epoch, sequence, now, plaintext, userAad).value;
            && (p.epoch, p.sequence, p.timestampMs) == (epoch, sequence, now)
            && SealedAs(cfg, p, plaintext, userAad)
  {
    hide PacketInfo, AadV3;
  }

  // --------------------------------------------------------------------------
  // Keys and nonces
  // --------------------------------------------------------------------------

  /** What HKDF expands for a packet determines its node, epoch, sequence and time. */
  lemma PacketInfoInjective(nodeId: u32, epoch: u64, sequence: u64, timestampMs: u64,
                            nodeId': u32, epoch': u64, sequence': u64, timestampMs': u64)
    requires PacketInfo(nodeId, epoch, sequence, timestampMs) == PacketInfo(nodeId', epoch', sequence', timestampMs')
    ensures nodeId == nodeId' && epoch == epoch' && sequence == sequence' && timestampMs == timestampMs'
  {
    var x, y := PacketInfo(nodeId, epoch, sequence, timestampMs), PacketInfo(nodeId', epoch', sequence', timestampMs');
    hide Be32, Be64;
    assert x[..4] == Be32(nodeId) && y[..4] == Be32(nodeId');
    assert x[4..12] == Be64(epoch) && y[4..12] == Be64(epoch');
    assert x[12..20] == Be64(sequence) && y[12..20] == Be64(sequence');
    assert x[20..28] == Be64(timestampMs) && y[20..28] == Be64(timestampMs');
  }

  function InfoOf(p: Packet): Bytes {
    PacketInfo(p.nodeId, p.epoch, p.sequence, p.timestampMs)
  }

  function KeyAndNonce(cfg: Config, p: Packet): (Bytes32, Nonce) {
    (PacketKey(cfg, p.nodeId, p.epoch, p.sequence, p.timestampMs),
     PacketNonce(cfg, p.nodeId, p.epoch, p.sequence, p.timestampMs))
  }

  /** Two packets get one key and nonce exactly when they agree in node, epoch, sequence and time, unless HKDF
      collides on the two. */
  lemma KeyAndNonceBind(cfg: Config, p: Packet, q: Packet)
    requires cfg.expand(InfoOf(p)) == cfg.expand(InfoOf(q)) ==> InfoOf(p) == InfoOf(q)
    ensures KeyAndNonce(cfg, p) == KeyAndNonce(cfg, q) <==>
            p.nodeId == q.nodeId && p.epoch == q.epoch && p.sequence == q.sequence && p.timestampMs == q.timestampMs
  {
    hide PacketInfo;
    var x, y := cfg.expand(InfoOf(p)), cfg.expand(InfoOf(q));
    if KeyAndNonce(cfg, p) == KeyAndNonce(cfg, q) {
      assert x == x[..32] + x[32..] && y == y[..32] + y[32..];
      PacketInfoInjective(p.nodeId, p.epoch, p.sequence, p.timestampMs, q.nodeId, q.epoch, q.sequence, q.timestampMs);
    }
  }

  // --------------------------------------------------------------------------
  // Refusals
  // --------------------------------------------------------------------------

  /** A packet sealed without a caller part opens with any; one sealed with a caller part opens with that one only, if
      the mesh sealed it just once. */
  lemma CallerPart(cfg: Config, origins: set<Origin>, o: Origin, userAad: Bytes)
    requires cfg.aead.Sound() && Genuine(cfg, o) && Authentic(cfg, origins, o.packet, userAad)
    requires forall other :: other in origins && other.packet == o.packet ==> other.userAad == o.userAad
    ensures o.packet.flags == (if o.userAad == [] then 0 else 1)
    ensures Authenticate(cfg, o.packet, userAad) ==
            if |userAad| >= U32_LIMIT then Err(AadDemasiadoLargo)
            else if o.userAad == [] || userAad == o.userAad then Ok(o.plaintext)
            else Err(Autenticacion)
  {
    SealedAuthenticates(cfg, o);
    SealsWhat(cfg.(nodeId := o.nodeId), o.epoch, o.sequence, o.timestampMs, o.plaintext, o.userAad);
    hide PacketKey, PacketNonce, SealedAs, SealPacket, AadV3, OriginEntry;
    var p := o.packet;
    if |userAad| >= U32_LIMIT {
    } else if o.userAad == [] {
      UnboundAad(p, cfg.contextHash, userAad);
      hide Genuine;
    } else if Authenticate(cfg, p, userAad).Ok? {
      var other := OpenedOrigin(cfg, origins, p, userAad);
    }
  }

  /** Clear flags keep the caller part out of the associated data. */
  lemma UnboundAad(p: Packet, contextHash: Bytes32, userAad: Bytes)
    requires |userAad| < U32_LIMIT && !HasAad(p.flags)
    ensures AadV3(p.flags, p.nodeId, p.epoch, p.sequence, p.timestampMs, contextHash, userAad)
         == AadV3(p.flags, p.nodeId, p.epoch, p.sequence, p.timestampMs, contextHash, [])
  {
    hide HeaderV3;
  }

  /** A packet that does not carry the nonce derived for it is refused, even if it would decrypt. */
  lemma WrongNonce(cfg: Config, p: Packet, userAad: Bytes)
    requires p.nonce != cfg.expand(InfoOf(p))[32..]
    ensures Authenticate(cfg, p, userAad) == Err(if |userAad| >= U32_LIMIT then AadDemasiadoLargo else Autenticacion)
  {
    hide AadV3, PacketInfo;
  }

  /** Any packet the mesh has not sealed is refused, changes nothing, and gets this error. */
  lemma StrangerRefused(cfg: Config, origins: set<Origin>, rx: Rx, p: Packet, userAad: Bytes, now: u64)
    requires Authentic(cfg, origins, p, userAad) && forall o :: o in origins ==> o.packet != p
    ensures AtomicOpen(cfg, rx, p, userAad, now) ==
            (rx, Err(if p.version != WIRE_VERSION_V3 then VersionNoSoportada(p.version)
                     else if now > p.timestampMs + cfg.maxDrift || p.timestampMs > now + cfg.maxDrift
                     then TiempoExpiradoOInvalido
                     else if CheckPeers(rx, p).Err? then CheckPeers(rx, p).error
                     else if |userAad| >= U32_LIMIT then AadDemasiadoLargo
                     else Autenticacion))
  {
    hide AadV3, PacketKey, PacketNonce, CheckPeers, Accept;
    if p.version == WIRE_VERSION_V3 && Authenticate(cfg, p, userAad).Ok? {
      var o := OpenedOrigin(cfg, origins, p, userAad);
    }
  }
}
