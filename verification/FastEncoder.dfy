/**
  How the greedy compressor writes its sequences under its three output budgets: none, a limit
  that makes it fail, and a buffer to fill with as much of the source as possible.
*/
module FastEncoder {
  import opened Bytes
  import opened BlockFormat
  import opened BlockWriter
  import opened HcEncoder

  datatype Limit = NotLimited | LimitedOutput | FillOutput

  /** Without a limit the output buffer holds the worst case. */
  ghost predicate Budget(n: nat, limit: Limit, capacity: nat) {
    n <= MAX_INPUT_SIZE && (limit.NotLimited? ==> n + n / 255 + 16 <= capacity)
  }

  /** A filled buffer always has room for last literals that respect the end-of-block rules. */
  ghost predicate FillRoom(limit: Limit, ss: seq<Seqn>, op: nat, capacity: nat) {
    limit.FillOutput? ==>
      && 1 <= capacity
      && (ss == [] ==> op == 0)
      && (ss != [] ==> op + 1 + LASTLITERALS <= capacity && (MFLIMIT <= ss[|ss| - 1].mlen || op + 9 <= capacity))
  }

  /** Sequences complete up to `anchor`, their bytes up to `op`. */
  ghost predicate Written(h: bytes, src: bytes, dst: bytes, anchor: nat, op: nat, ss: seq<Seqn>, limit: Limit) {
    Emitted(h, src, dst, anchor, op, ss) && FillRoom(limit, ss, op, |dst|) && Budget(|src|, limit, |dst|)
  }

  /** And behind them the token and literals of the next one, up to `ip`. */
  ghost predicate HeadWritten(h: bytes, src: bytes, dst: bytes, anchor: nat, token: nat, ss: seq<Seqn>, limit: Limit,
                              ip: nat, op: nat)
  {
    && Written(h, src, dst, anchor, token, ss, limit)
    && anchor <= ip <= |src|
    && op == token + 1 + ExtensionSize(ip - anchor) + (ip - anchor) <= |dst|
    && dst[..op] == dst[..token] + EncodeLiterals(src[anchor..ip], 0)
  }

  /** What a step leads to: it is done, the limit is reached, or the last literals come now. */
  datatype Fit = Done | Full | Rewind

  lemma {:induction false} WrittenStart(h: bytes, src: bytes, dst: bytes, limit: Limit)
    requires Budget(|src|, limit, |dst|) && (limit.FillOutput? ==> 1 <= |dst|)
    ensures Written(h, src, dst, 0, 0, [], limit)
  {
    hide Emitted;
    ParsedStart(h, src, dst);
  }

  /** Where `op` is at most, in terms of the source bytes covered. */
  lemma WrittenBound(h: bytes, src: bytes, dst: bytes, anchor: nat, op: nat, ss: seq<Seqn>, limit: Limit)
    requires Written(h, src, dst, anchor, op, ss, limit)
    ensures op <= anchor + anchor / 255 && anchor <= |src| && op <= |dst| && Budget(|src|, limit, |dst|)
  {
    hide ParseOk, EncodeSeqns;
  }

  /** Only the bytes before `op` count. */
  lemma {:induction false} WrittenKept(h: bytes, src: bytes, was: bytes, now: bytes, anchor: nat, op: nat,
      ss: seq<Seqn>, limit: Limit)
    requires Written(h, src, was, anchor, op, ss, limit) && |now| == |was| && op <= |was| && now[..op] == was[..op]
    ensures Written(h, src, now, anchor, op, ss, limit)
  {
    hide Parsed, EncodeSeqns;
  }

  // ----- Literals -----

  /** The room that the tests on the budget guarantee for token, length and literals. */
  lemma LiteralRoom(n: nat, anchor: nat, token: nat, litLength: nat, capacity: nat, limit: Limit)
    requires Budget(n, limit, capacity) && anchor + litLength + MFLIMIT <= n && token <= anchor + anchor / 255
    requires limit.LimitedOutput? ==> token + 1 + litLength + (2 + 1 + LASTLITERALS) + litLength / 255 <= capacity
    requires limit.FillOutput? ==>
      token + 1 + (litLength + 240) / 255 + litLength + 2 + 1 + MFLIMIT - MINMATCH <= capacity
    ensures token + 1 + ExtensionSize(litLength) + CopyRoom(litLength, true) <= capacity
    ensures token + 1 + ExtensionSize(litLength) + litLength + 2 <= capacity
  {
    if limit.NotLimited? {
      SeqnRoom(anchor, anchor + litLength, 4);
      assert (anchor + litLength + 4) / 255 <= n / 255;
    }
  }

  /** "Encode Literals" */
  method PutLiterals(ghost h: bytes, src: bytes, dst: array<byte>, anchor: nat, ip: nat, token: nat, limit: Limit,
                     ghost ss: seq<Seqn>)
    returns (fit: Fit, op: nat)
    requires Written(h, src, dst[..], anchor, token, ss, limit) && anchor <= ip && ip + MFLIMIT <= |src|
    modifies dst
    ensures fit.Done? ==> HeadWritten(h, src, dst[..], anchor, token, ss, limit, ip, op)
    ensures fit.Full? ==> limit.LimitedOutput? && !WorstCase(|src|, dst.Length)
    ensures fit.Full? ==> NoRoom(token, ip - anchor, LASTLITERALS, dst.Length)
    ensures fit.Rewind? ==> limit.FillOutput? && Written(h, src, dst[..], anchor, token, ss, limit) && op == token
    ensures fit.Rewind? ==> NoRoom(token, ip - anchor, MFLIMIT - MINMATCH, dst.Length)
  {
    hide Written, EncodeLiterals, ExtensionSize, CopyRoom, NoRoom;
    WrittenBound(h, src, dst[..], anchor, token, ss, limit);
    var litLength := ip - anchor;
    op := token + 1;
    if limit.LimitedOutput? && op + litLength + (2 + 1 + LASTLITERALS) + litLength / 255 > dst.Length {
      LiteralsFull(|src|, anchor, token, litLength, dst.Length);
      LiteralsNoRoom(token, litLength, dst.Length);
      return Full, op;
    }
    if limit.FillOutput?
       && op + (litLength + 240) / 255 + litLength + 2 + 1 + MFLIMIT - MINMATCH > dst.Length {
      FullExtension(litLength);
      NoRoomAt(token, litLength, MFLIMIT - MINMATCH, dst.Length);
      return Rewind, token;
    }
    LiteralRoom(|src|, anchor, token, litLength, dst.Length, limit);
    ghost var was := dst[..];
    op := WriteLiterals(dst, token, src, anchor, ip, true);
    Prefix(was, dst[..], token, EncodeLiterals(src[anchor..ip], 0), op);
    WrittenKept(h, src, was, dst[..], anchor, token, ss, limit);
    fit := Done;
  }

  lemma Prefix(was: bytes, now: bytes, n: nat, more: bytes, op: nat)
    requires n <= |was| == |now| && op <= |now| && now[..op] == was[..n] + more
    ensures now[..n] == was[..n] && now[..op] == now[..n] + more
  {
    assert now[..n] == now[..op][..n];
  }

  lemma LiteralsFull(n: nat, anchor: nat, token: nat, litLength: nat, capacity: nat)
    requires anchor + litLength + MFLIMIT <= n && token <= anchor + anchor / 255
    requires token + 1 + litLength + (2 + 1 + LASTLITERALS) + litLength / 255 > capacity
    ensures !WorstCase(n, capacity)
  {
    assert anchor / 255 + litLength / 255 <= (anchor + litLength) / 255;
  }

  // ----- Offset and match length -----

  /** Whether offset and match length fit; a match too long for a buffer to fill is reduced. */
  method FitMatch(n: nat, op: nat, matchCode: nat, capacity: nat, limit: Limit, ghost anchor: nat, ghost ip: nat)
    returns (fit: Fit, newMatchCode: nat)
    requires Budget(n, limit, capacity) && ip + MINMATCH + matchCode + LASTLITERALS <= n
    requires op <= capacity && op <= ip + ip / 255 + 2
    requires limit.FillOutput? ==> op + 2 + 1 + MFLIMIT - MINMATCH <= capacity
    ensures fit.Done? || fit.Full?
    ensures fit.Full? ==> limit.LimitedOutput? && !WorstCase(n, capacity)
    ensures fit.Full? ==> op + 2 + ExtensionSize(matchCode) + LastSize(LASTLITERALS) > capacity
    ensures fit.Done? && newMatchCode < matchCode ==>
      op + 2 + ExtensionSize(newMatchCode + 1) + LastSize(LASTLITERALS) > capacity
    ensures fit.Done? ==>
      && newMatchCode <= matchCode && (newMatchCode < matchCode ==> limit.FillOutput? && newMatchCode >= 15)
      && op + 2 + (newMatchCode + 240) / 255 + 3 <= capacity
      && (limit.FillOutput? ==>
            op + 2 + ExtensionSize(newMatchCode) + 1 + LASTLITERALS <= capacity
            && (MFLIMIT <= newMatchCode + MINMATCH || op + 2 + ExtensionSize(newMatchCode) + 9 <= capacity))
  {
    newMatchCode := matchCode;
    var op1 := op + 2;
    FullExtension(matchCode);
    if !limit.NotLimited? && op1 + (1 + LASTLITERALS) + (matchCode + 240) / 255 > capacity {
      if limit.FillOutput? {
        newMatchCode := 15 - 1 + (capacity - op1 - 1 - LASTLITERALS) * 255;
        Reduced(matchCode, capacity - op1 - 1 - LASTLITERALS);
      } else {
        MatchFull(n, op, matchCode, capacity, ip);
        return Full, 0;
      }
    } else {
      MatchFits(n, op, matchCode, capacity, limit, ip);
    }
    fit := Done;
  }

  lemma Reduced(matchCode: nat, k: int)
    requires 3 <= k < (matchCode + 240) / 255
    ensures 15 <= 14 + k * 255 < matchCode
    ensures ExtensionSize(14 + k * 255) == k && (14 + k * 255 + 240) / 255 == k
    ensures ExtensionSize(14 + k * 255 + 1) == k + 1
  {
  }

  lemma MatchFull(n: nat, op: nat, matchCode: nat, capacity: nat, ip: nat)
    requires ip + MINMATCH + matchCode + LASTLITERALS <= n && op <= ip + ip / 255 + 2
    requires op + 2 + (1 + LASTLITERALS) + (matchCode + 240) / 255 > capacity
    ensures !WorstCase(n, capacity)
  {
    assert ip / 255 + matchCode / 255 <= (ip + matchCode) / 255;
    assert (matchCode + 240) / 255 <= matchCode / 255 + 1;
  }

  lemma MatchFits(n: nat, op: nat, matchCode: nat, capacity: nat, limit: Limit, ip: nat)
    requires Budget(n, limit, capacity) && ip + MINMATCH + matchCode + LASTLITERALS <= n && op <= ip + ip / 255 + 2
    requires limit.NotLimited? || op + 2 + (1 + LASTLITERALS) + (matchCode + 240) / 255 <= capacity
    requires limit.FillOutput? ==> op + 2 + 1 + MFLIMIT - MINMATCH <= capacity
    ensures op + 2 + (matchCode + 240) / 255 + 3 <= capacity
    ensures ExtensionSize(matchCode) <= (matchCode + 240) / 255
    ensures limit.FillOutput? ==>
              MFLIMIT <= matchCode + MINMATCH || op + 2 + ExtensionSize(matchCode) + 9 <= capacity
  {
    if limit.NotLimited? {
      assert ip / 255 + matchCode / 255 <= (ip + matchCode) / 255 <= n / 255;
      assert (matchCode + 240) / 255 <= matchCode / 255 + 1;
    }
  }

  /** LZ4_write32(op, 0xFFFFFFFF) */
  method Write32(dst: array<byte>, op: nat)
    requires op + 4 <= dst.Length
    modifies dst
    ensures dst[..op] == old(dst[..op])
    ensures dst[op] == 255 && dst[op + 1] == 255 && dst[op + 2] == 255 && dst[op + 3] == 255
  {
    dst[op], dst[op + 1], dst[op + 2], dst[op + 3] := 255, 255, 255, 255;
  }

  /** The additional bytes of a match length, stored four at a time; `len` is already diminished by 15. */
  method WriteMatchBytes(dst: array<byte>, op0: nat, len: nat) returns (op: nat)
    requires op0 + len / 255 + 1 + 3 <= dst.Length
    modifies dst
    ensures op == op0 + len / 255 + 1
    ensures dst[..op] == old(dst[..op0]) + Extension(len + RUN_MASK)
  {
    hide Repeat;
    op := op0;
    var matchCode := len;
    ghost var was := dst[..op0];
    Write32(dst, op);
    RepeatNone();
    assert dst[..op] == was + Repeat(255, 0);
    while matchCode >= 4 * 255
      invariant op0 <= op && matchCode == len - 255 * (op - op0) && matchCode >= 0
      invariant op + 4 <= dst.Length
      invariant dst[..op] == was + Repeat(255, op - op0)
      invariant dst[op] == 255 && dst[op + 1] == 255 && dst[op + 2] == 255 && dst[op + 3] == 255
    {
      RepeatMore(was, dst[..], op, op - op0, 4);
      op := op + 4;
      Write32(dst, op);
      matchCode := matchCode - 4 * 255;
    }
    var q := matchCode / 255;
    RepeatMore(was, dst[..], op, op - op0, q);
    op := op + q;
    dst[op] := matchCode % 255;
    assert op - op0 == len / 255 && matchCode % 255 == len % 255;
    assert dst[..op + 1] == dst[..op] + [matchCode % 255];
    op := op + 1;
    ExtensionIs(len);
  }

  lemma RepeatNone()
    ensures Repeat(255, 0) == []
  {
  }

  lemma RepeatMore(was: bytes, now: bytes, op: nat, n: nat, q: nat)
    requires op + q <= |now| && now[..op] == was + Repeat(255, n)
    requires forall i :: op <= i < op + q ==> now[i] == 255
    ensures now[..op + q] == was + Repeat(255, n + q)
  {
    assert Repeat(255, n + q) == Repeat(255, n) + now[op..op + q];
    assert now[..op + q] == now[..op] + now[op..op + q];
  }

  lemma ExtensionIs(len: nat)
    ensures Extension(len + RUN_MASK) == Repeat(255, len / 255) + [len % 255]
  {
  }

  /** "Encode Offset", "Encode MatchLength" */
  method PutMatch(ghost h: bytes, src: bytes, dst: array<byte>, anchor: nat, ip: nat, token: nat, op0: nat, offset: nat,
                  ml: nat, limit: Limit, ghost ss: seq<Seqn>)
    returns (op: nat)
    requires HeadWritten(h, src, dst[..], anchor, token, ss, limit, ip, op0) && MINMATCH <= ml
    requires TrueMatch(h, src, ip, offset, ml) && ip + MFLIMIT <= |src| && ip + ml + LASTLITERALS <= |src|
    requires op0 + 2 + (ml - MINMATCH + 240) / 255 + 3 <= dst.Length
    requires limit.FillOutput? ==>
      && op0 + 2 + ExtensionSize(ml - MINMATCH) + 1 + LASTLITERALS <= dst.Length
      && (MFLIMIT <= ml || op0 + 2 + ExtensionSize(ml - MINMATCH) + 9 <= dst.Length)
    modifies dst
    ensures Written(h, src, dst[..], ip + ml, op, ss + [SeqnAt(src, anchor, ip, offset, ml)], limit)
    ensures op + 3 <= dst.Length && op == op0 + 2 + ExtensionSize(ml - MINMATCH)
  {
    hide Emitted, EncodeSeqn, EncodeLiterals, LE16, TrueMatch, Extension, ExtensionSize, Token;
    ghost var was, lits := dst[..], src[anchor..ip];
    assert 1 <= offset <= DISTANCE_MAX by { OffsetRange(h, src, ip, offset, ml); }
    WriteOffset(dst, op0, offset);
    op := op0 + 2;
    var matchCode := ml - MINMATCH;
    assert dst[..op] == was[..token] + EncodeLiterals(lits, 0) + LE16(offset);
    AddToToken(dst, token, op, was[..token], lits, LE16(offset), matchCode);
    if matchCode >= RUN_MASK {
      LongCode(matchCode);
      op := WriteMatchBytes(dst, op, matchCode - RUN_MASK);
    } else {
      ShortCode(matchCode);
    }
    SequenceLayout(was[..token], lits, offset, ml, dst[..op]);
    EmittedNext(h, src, was, dst[..], anchor, token, ss, ip, offset, ml, op);
    ghost var s := SeqnAt(src, anchor, ip, offset, ml);
    assert (ss + [s])[|ss + [s]| - 1] == s;
  }

  lemma OffsetRange(h: bytes, src: bytes, ip: nat, offset: nat, ml: nat)
    requires TrueMatch(h, src, ip, offset, ml)
    ensures 1 <= offset <= DISTANCE_MAX
  {
  }

  lemma LongCode(mc: nat)
    requires mc >= RUN_MASK
    ensures ExtensionSize(mc) == (mc - RUN_MASK) / 255 + 1 && (mc + 240) / 255 == (mc - RUN_MASK) / 255 + 1
  {
  }

  lemma ShortCode(mc: nat)
    requires mc < RUN_MASK
    ensures ExtensionSize(mc) == 0
  {
  }

  // ----- Last literals -----

  /** The literals that fill a room of `r` bytes, token and length bytes included. */
  function FillLiterals(r: nat): (n: nat)
    requires 1 <= r
  {
    r - 1 - (r - 1 + 241) / 256
  }

  lemma FillExactly(r: nat, n: nat)
    requires 1 <= r && n + 1 + (n + 240) / 255 > r
    ensures var l := FillLiterals(r); l <= n && 1 + ExtensionSize(l) + l <= r
    ensures FillLiterals(r) < n && r <= LastSize(FillLiterals(r)) + 1
    ensures 6 <= r ==> FillLiterals(r) >= 5
    ensures 9 <= r ==> FillLiterals(r) >= 8
  {
    var q := (r + 240) / 256;
    var l := FillLiterals(r);
    assert l == r - 1 - q;
    assert r + 240 <= 256 * q + 255;
    assert l + 240 <= 255 * q + 254;
    assert (l + 240) / 255 <= q;
  }

  /** A block of the first `c` bytes, when enough of them are literals behind the last match. */
  lemma {:induction false} PrefixBlock(h: bytes, src: bytes, was: bytes, now: bytes, anchor: nat, op: nat,
      ss: seq<Seqn>, op': nat, c: nat)
    requires Emitted(h, src, was, anchor, op, ss) && anchor <= c <= |src|
    requires ss != [] ==> LASTLITERALS <= c - anchor && MFLIMIT <= ss[|ss| - 1].mlen + (c - anchor)
    requires op' <= |now| && now[..op'] == was[..op] + EncodeLiterals(src[anchor..c], 0)
    ensures IsBlockOf(h, src[..c], now[..op'])
  {
    hide ParseOk, Expand, EncodeSeqns, EncodeLiterals;
    var last := src[anchor..c];
    assert h + src[..anchor] + last == h + src[..c];
    assert IsParse(h, src[..c], now[..op'], ss, last);
  }

  /** "Encode Last Literals". The block holds the first `consumed` bytes of the source, all of them
      unless the output is to be filled. */
  method PutLastLiterals(ghost h: bytes, src: bytes, dst: array<byte>, anchor: nat, op0: nat, limit: Limit,
      ghost ss: seq<Seqn>)
    returns (result: nat, consumed: nat)
    requires Written(h, src, dst[..], anchor, op0, ss, limit)
    modifies dst
    ensures result > 0 ==>
      && result <= dst.Length && consumed <= |src| && IsBlockOf(h, src[..consumed], dst[..result])
      && result <= |src| + |src| / 255 + 2
    ensures !limit.FillOutput? && result > 0 ==> consumed == |src|
    ensures limit.FillOutput? ==> result > 0
    ensures result == 0 ==> limit.LimitedOutput? && !WorstCase(|src|, dst.Length)
    ensures var size := op0 + LastSize(|src| - anchor);
      if size <= dst.Length || limit.NotLimited? then result == size && consumed == |src|
      else if limit.LimitedOutput? then result == 0
      else consumed < |src| && dst.Length <= result + 1
  {
    hide Emitted, EncodeLiterals, IsBlockOf, FillLiterals, ExtensionSize;
    WrittenBound(h, src, dst[..], anchor, op0, ss, limit);
    ghost var was := dst[..];
    var lastRun := |src| - anchor;
    EndRule(h, src, was, anchor, op0, ss);
    LastRoom(|src|, anchor, op0, lastRun, dst.Length);
    FullExtension(lastRun);
    if !limit.NotLimited? && op0 + lastRun + 1 + (lastRun + 255 - RUN_MASK) / 255 > dst.Length {
      if limit.FillOutput? {
        FillExactly(dst.Length - op0, lastRun);
        lastRun := FillLiterals(dst.Length - op0);
      } else {
        return 0, 0;
      }
    }
    RunSize(lastRun);
    var op := WriteLiterals(dst, op0, src, anchor, anchor + lastRun, false);
    PrefixBlock(h, src, was, dst[..], anchor, op0, ss, op, anchor + lastRun);
    result, consumed := op, anchor + lastRun;
    ShorterRun(lastRun, |src| - anchor);
  }

  lemma EndRule(h: bytes, src: bytes, dst: bytes, anchor: nat, op: nat, ss: seq<Seqn>)
    requires Emitted(h, src, dst, anchor, op, ss)
    ensures ss != [] ==> anchor + LASTLITERALS <= |src| && anchor + MFLIMIT <= |src| + ss[|ss| - 1].mlen
    ensures ss != [] ==> MINMATCH <= ss[|ss| - 1].mlen
  {
    hide Expand, EncodeSeqns, ParseLength;
  }

  lemma LastRoom(n: nat, anchor: nat, op: nat, lastRun: nat, capacity: nat)
    requires lastRun == n - anchor && anchor <= n && op <= anchor + anchor / 255
    ensures op + 1 + ExtensionSize(lastRun) + lastRun <= n + n / 255 + 2
    ensures n + n / 255 + 16 <= capacity ==> op + lastRun + 1 + (lastRun + 255 - RUN_MASK) / 255 <= capacity
  {
    SeqnRoom(anchor, n, 4);
    assert anchor / 255 + lastRun / 255 <= n / 255;
    assert (lastRun + 240) / 255 <= lastRun / 255 + 1;
  }

  lemma RunSize(lastRun: nat)
    ensures ExtensionSize(lastRun) <= (lastRun + 255 - RUN_MASK) / 255
  {
  }

  lemma ShorterRun(a: nat, b: nat)
    requires a <= b
    ensures ExtensionSize(a) <= ExtensionSize(b)
  {
  }
}
