/** The journal as the source has it: one object that chains frames, and the loop that recovers a log. */
module WalObject {
  import opened Words
  import opened Primitives
  import opened PacketCodec
  import opened WalJournal

  lemma PrependPrepend(ps: seq<Packet>, p: Packet, m: nat, n: nat, r: Result<Report>)
    ensures Prepend(ps, m, Prepend([p], n, r)) == Prepend(ps + [p], m + n, r)
  {
    if r.Ok? {
      assert ps + ([p] + r.value.packets) == (ps + [p]) + r.value.packets;
    }
  }

  lemma PrependNothing(r: Result<Report>)
    ensures Prepend([], 0, r) == r
  {
    if r.Ok? {
      assert [] + r.value.packets == r.value.packets;
    }
  }

  /** Recovery of the rest of a byte string, in terms of positions in the whole. */
  lemma RecoverAt(hash: Hash, prev: Bytes32, b: Bytes, offset: nat)
    requires offset < |b|
    ensures var (r, remaining) := (RecoverFrom(hash, prev, b[offset..]), |b| - offset);
            if remaining < OVERHEAD then r == Ok(Report([], prev, 0, true))
            else if b[offset..offset + 4] != Magic() then r == Err(PaqueteCorrupto)
            else
              var len := ReadBe32(b[offset + 4..offset + 8]);
              if remaining < OVERHEAD + len then r == Ok(Report([], prev, 0, true))
              else
                var body := b[offset + 40..offset + 40 + len];
                if b[offset + 8..offset + 40] != prev then r == Err(IntegridadContextoCorrupta)
                else if b[offset + 40 + len..offset + OVERHEAD + len] != FrameHash(hash, prev, body)
                then r == Err(IntegridadContextoCorrupta)
                else if FromBytes(body).Err? then r == Err(FromBytes(body).error)
                else r == Prepend([FromBytes(body).value], OVERHEAD + len,
                                  RecoverFrom(hash, FrameHash(hash, prev, body), b[offset + OVERHEAD + len..]))
  {
    hide Magic, ReadBe32, FrameHash, FromBytes, Prepend;
    var left := b[offset..];
    if |left| >= OVERHEAD {
      assert left[..4] == b[offset..offset + 4] && left[4..8] == b[offset + 4..offset + 8]
             && left[8..40] == b[offset + 8..offset + 40];
      var len := ReadBe32(left[4..8]);
      if |left| >= OVERHEAD + len {
        assert left[40..40 + len] == b[offset + 40..offset + 40 + len];
        assert left[40 + len..72 + len] == b[offset + 40 + len..offset + 72 + len];
        assert left[72 + len..] == b[offset + 72 + len..];
      }
    }
  }

  class ChronoWalJournal {
    const hash: Hash
    var headSha256: Bytes32
    var framesCount: u64

    ghost function State(): Journal
      reads this
    {
      Journal(headSha256, framesCount)
    }

    constructor (hash: Hash)
      ensures this.hash == hash && State() == Journal(ZERO32, 0)
    {
      this.hash := hash;
      headSha256, framesCount := ZERO32, 0;
    }

    constructor FromHead(hash: Hash, head: Bytes32, framesCount: u64)
      ensures this.hash == hash && State() == Journal(head, framesCount)
    {
      this.hash := hash;
      this.headSha256, this.framesCount := head, framesCount;
    }

    method EncodeAppendFrame(p: Packet) returns (r: Result<Bytes>)
      modifies this
      ensures (State(), r) == AppendFrame(hash, old(State()), p)
    {
      hide Be32, FrameHash, ToBytes;
      var body := ToBytes(p);
      if |body| >= U32_LIMIT {
        return Err(AadDemasiadoLargo);
      }
      var frameSha := FrameHash(hash, headSha256, body);
      var frame := Magic();
      frame := frame + Be32(|body|);
      frame := frame + headSha256;
      frame := frame + body;
      frame := frame + frameSha;
      headSha256 := frameSha;
      framesCount := SaturatingNext(framesCount);
      r := Ok(frame);
    }

    static method RecoverFromBytes(hash: Hash, b: Bytes) returns (r: Result<Report>)
      ensures r == RecoverFrom(hash, ZERO32, b)
    {
      hide Magic, ReadBe32, FrameHash, FromBytes, RecoverFrom;
      var offset, truncatedTail := 0, false;
      var expectedPrev: Bytes32 := ZERO32;
      var packets: seq<Packet> := [];
      assert b[0..] == b;
      PrependNothing(RecoverFrom(hash, ZERO32, b));
      while offset < |b|
        invariant 0 <= offset <= |b| && !truncatedTail
        invariant RecoverFrom(hash, ZERO32, b) == Prepend(packets, offset, RecoverFrom(hash, expectedPrev, b[offset..]))
      {
        RecoverAt(hash, expectedPrev, b, offset);
        var remaining := |b| - offset;
        if remaining < OVERHEAD {
          truncatedTail := true;
          break;
        }
        if b[offset..offset + 4] != Magic() {
          return Err(PaqueteCorrupto);
        }
        var len := ReadBe32(b[offset + 4..offset + 8]);
        var total := OVERHEAD + len;
        if remaining < total {
          truncatedTail := true;
          break;
        }
        var prevSha, body := b[offset + 8..offset + 40], b[offset + 40..offset + 40 + len];
        var storedSha := b[offset + 40 + len..offset + total];
        if prevSha != expectedPrev {
          return Err(IntegridadContextoCorrupta);
        }
        var computedSha := FrameHash(hash, expectedPrev, body);
        if storedSha != computedSha {
          return Err(IntegridadContextoCorrupta);
        }
        var packet := FromBytes(body);
        if packet.Err? {
          return Err(packet.error);
        }
        PrependPrepend(packets, packet.value, offset, total, RecoverFrom(hash, computedSha, b[offset + total..]));
        packets := packets + [packet.value];
        expectedPrev := computedSha;
        offset := offset + total;
      }
      if !truncatedTail {
        RecoverEmpty(hash, expectedPrev);
        assert b[offset..] == [];
      }
      assert packets + [] == packets;
      r := Ok(Report(packets, expectedPrev, offset, truncatedTail));
    }
  }
}
