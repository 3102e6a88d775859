/**
  LZ4_decompress_generic over a buffer: the fast loop, the tail loop and their jumps into each
  other. Every step leaves the outcome of `BlockDecoderSpec` unchanged, so the result is that
  outcome whether or not the fast loop is compiled in.
*/
module BlockDecoder {
  import opened Bytes
  import opened BlockFormat
  import opened BlockDecoderSpec
  import opened WildCopy

  const FASTLOOP_SAFE_DISTANCE := 64

  datatype DictMode = NoDict | WithPrefix64k | UsingExtDict

  /** The arguments of a call, apart from the buffer. The prefix lies in the buffer from
      `lowPrefix` on; `lowPrefix` may be one below the buffer in mode `WithPrefix64k`. */
  datatype Call = Call(src: bytes, partial: bool, mode: DictMode, lowPrefix: int, dict: bytes, oend: nat)
  {
    function Lo(): nat {
      Max(lowPrefix, 0)
    }

    function Cfg(): Config
      requires Lo() <= oend
    {
      Config(|dict| + oend - Lo(), |dict|, partial)
    }
  }

  /** The output position is in range, and mode `WithPrefix64k` has its 64 KB - 1 of prefix. */
  predicate OpOk(k: Call, op: nat) {
    && k.Lo() <= op <= k.oend
    && (k.mode != UsingExtDict ==> k.dict == [])
    && (k.mode == WithPrefix64k ==> WINDOW - 1 <= op - k.Lo())
    && (k.mode != WithPrefix64k ==> 0 <= k.lowPrefix)
  }

  /** Everything a match may refer to at output position `op`. */
  ghost function Hist(k: Call, s: bytes, op: nat): (h: bytes)
    requires k.Lo() <= op <= |s|
    ensures |h| == |k.dict| + op - k.Lo()
  {
    k.dict + s[k.Lo()..op]
  }

  // ----- Labels -----

  datatype Label =
    | AtStart(ip: nat)
    | AtLiterals(token: byte, ip: nat, ll: nat)
    | AtMatchLength(token: byte, ip: nat, offset: nat)
    | AtMatchCopy(ip: nat, offset: nat, ml: nat)
    | Finished
    | Failed(ip: nat)

  predicate LabelOk(src: bytes, l: Label) {
    match l
    case AtStart(ip) => ip < |src|
    case AtLiterals(_, ip, _) => ip <= |src|
    case AtMatchLength(_, ip, offset) => ip < |src| && offset < WINDOW
    case AtMatchCopy(ip, offset, ml) => ip < |src| && offset < WINDOW && MINMATCH <= ml
    case Finished => true
    case Failed(_) => true
  }

  ghost function Resume(src: bytes, c: Config, l: Label, h: bytes): Outcome
    requires LabelOk(src, l) && InRange(c, h)
  {
    match l
    case AtStart(ip) => Start(src, c, ip, h)
    case AtLiterals(token, ip, ll) => Literals(src, c, token, ip, ll, h)
    case AtMatchLength(token, ip, offset) => MatchLength(src, c, token, ip, offset, h)
    case AtMatchCopy(ip, offset, ml) => MatchCopy(src, c, ip, offset, ml, h)
    case Finished => Decoded(h)
    case Failed(ip) => Malformed(ip)
  }

  /** The state is on its way to `goal`, which may be unspecified. */
  ghost predicate Tracks(k: Call, s: bytes, op: nat, l: Label, goal: Outcome) {
    && OpOk(k, op) && k.oend <= |s|
    && LabelOk(k.src, l)
    && ((l.AtMatchLength? || l.AtMatchCopy?) && !k.partial ==> op + MFLIMIT <= k.oend)
    && (goal.Unspecified? || Resume(k.src, k.Cfg(), l, Hist(k, s, op)) == goal)
  }

  // ----- History lemmas -----

  lemma {:induction false} HistLiterals(k: Call, was: bytes, now: bytes, op: nat, ip: nat, n: nat, top: nat)
    requires k.Lo() <= op && op + n <= |now| && ip + n <= |k.src|
    requires Outside(was, now, op, top)
    requires forall p :: op <= p < op + n ==> now[p] == k.src[p - op + ip]
    ensures Hist(k, now, op + n) == Hist(k, was, op) + k.src[ip..ip + n]
  {
    var lo := k.Lo();
    assert now[lo..op] == was[lo..op];
    assert now[op..op + n] == k.src[ip..ip + n];
    assert now[lo..op + n] == now[lo..op] + now[op..op + n];
  }

  lemma {:induction false} HistMatch(k: Call, was: bytes, now: bytes, op: nat, cpy: nat, offset: nat, top: nat)
    requires k.Lo() <= op && MatchCopied(was, now, op, cpy, offset, top)
    requires offset <= op - k.Lo()
    ensures Hist(k, now, cpy) == CopyMatch(Hist(k, was, op), offset, cpy - op)
  {
    var lo := k.Lo();
    var h, r := Hist(k, was, op), Hist(k, now, cpy);
    assert forall i :: 0 <= i < |h| ==> r[i] == h[i];
    forall i | |h| <= i < |r| ensures r[i] == if offset == 0 then 0 else r[i - offset] {
      var p := i - |k.dict| + lo;
      assert r[i] == now[p];
      assert r[i - offset] == now[p - offset];
    }
    CopyMatchUnique(h, offset, r);
  }

  /** A match that starts in the external dictionary and may run on into the prefix. */
  lemma {:induction false} HistExtMatch(k: Call, was: bytes, now: bytes, op: nat, cpy: nat, offset: nat, top: nat)
    requires k.Lo() <= op <= cpy <= |now| && Outside(was, now, op, top)
    requires op - k.Lo() < offset <= |k.dict| + op - k.Lo()
    requires var inDict := offset - (op - k.Lo());
             && (forall p :: op <= p < cpy && p < op + inDict ==> now[p] == k.dict[|k.dict| - inDict + p - op])
             && (forall p :: op + inDict <= p < cpy ==> now[p] == now[p - offset])
    ensures Hist(k, now, cpy) == CopyMatch(Hist(k, was, op), offset, cpy - op)
  {
    var lo := k.Lo();
    var h, r := Hist(k, was, op), Hist(k, now, cpy);
    assert forall i :: 0 <= i < |h| ==> r[i] == h[i];
    forall i | |h| <= i < |r| ensures r[i] == r[i - offset] {
      var p := i - |k.dict| + lo;
      assert r[i] == now[p];
      if i - offset < |k.dict| {
        assert r[i - offset] == k.dict[i - offset];
      } else {
        assert r[i - offset] == now[p - offset];
      }
    }
    CopyMatchUnique(h, offset, r);
  }

  // ----- Reading a field -----

  /** read_variable_length */
  method ReadVariableLength(src: bytes, ip0: nat, ilimit: int, initialCheck: bool) returns (f: Field)
    requires ip0 <= |src| && ilimit < |src|
    requires initialCheck || ip0 < |src|
    ensures f == ReadLength(src, ip0, ilimit, initialCheck)
  {
    if initialCheck && ip0 >= ilimit {
      return Overrun(ip0);
    }
    var ip, length: nat := ip0, 0;
    var s: int := 255;
    while s == 255
      invariant ip <= |src|
      invariant s == 255 ==> ip < |src| && ReadMore(src, ip0, ilimit, 0) == ReadMore(src, ip, ilimit, length)
      invariant s != 255 ==> ReadMore(src, ip0, ilimit, 0) == Length(length, ip)
      decreases |src| - ip, s == 255
    {
      s := src[ip];
      ip := ip + 1;
      length := length + s;
      if ip > ilimit {
        return Overrun(ip);
      }
    }
    f := Length(length, ip);
  }

  // ----- The start of a sequence in the fast loop -----

  /** In the fast loop a short sequence goes to its match length, shortcut or not. */
  lemma {:induction false} StartFast(src: bytes, c: Config, ip: nat, h: bytes)
    requires ip < |src| && InRange(c, h) && |h| + FASTLOOP_SAFE_DISTANCE <= c.limit
    requires src[ip] / 16 != RUN_MASK && ip + 1 + SHORT_INPUT < |src|
    ensures var ll := src[ip] / 16;
            Start(src, c, ip, h) ==
            MatchLength(src, c, src[ip], ip + ll + 3, ReadLE16(src, ip + 1 + ll), h + src[ip + 1..ip + 1 + ll])
  {
    hide Literals, MatchLength, MatchCopy;
    var ll := src[ip] / 16;
    var h1, offset := h + src[ip + 1..ip + 1 + ll], ReadLE16(src, ip + 1 + ll);
    if ShortMatch(src[ip], offset, |h1| - c.ext) {
      ShortMatchLength(src, c, src[ip], ip + ll + 3, offset, h1);
    }
  }

  lemma {:induction false} ShortMatchLength(src: bytes, c: Config, token: byte, ip: nat, offset: nat, h: bytes)
    requires ip < |src| && InRange(c, h) && offset < WINDOW
    requires ShortMatch(token, offset, |h| - c.ext)
    requires |h| + token % 16 + MINMATCH + SAFEGUARD <= c.limit
    ensures MatchLength(src, c, token, ip, offset, h)
         == Start(src, c, ip, CopyMatch(h, offset, token % 16 + MINMATCH))
  {
    hide Start, CopyMatch;
  }

  /** A token with a long literal run. */
  lemma {:induction false} StartLong(src: bytes, c: Config, ip: nat, h: bytes)
    requires ip < |src| && InRange(c, h) && src[ip] / 16 == RUN_MASK
    ensures match ReadLength(src, ip + 1, |src| - RUN_MASK, true)
            case Overrun(at) => Start(src, c, ip, h) == Malformed(at)
            case Length(addl, next) => Start(src, c, ip, h) == Literals(src, c, src[ip], next, RUN_MASK + addl, h)
  {
    hide Literals, MatchLength, ReadLength;
  }

  /** A token with a short literal run, off the shortcut. */
  lemma {:induction false} StartPlain(src: bytes, c: Config, ip: nat, h: bytes)
    requires ip < |src| && InRange(c, h) && src[ip] / 16 != RUN_MASK && !Shortcut(src, c, ip, |h|)
    ensures Start(src, c, ip, h) == Literals(src, c, src[ip], ip + 1, src[ip] / 16, h)
  {
    hide Literals, MatchLength, ReadLength;
  }

  lemma {:induction false} LiteralsGoOn(src: bytes, c: Config, token: byte, ip: nat, ll: nat, h: bytes)
    requires InRange(c, h)
    requires |h| + ll + MFLIMIT <= c.limit && ip + ll + 2 + 1 + LASTLITERALS <= |src|
    ensures Literals(src, c, token, ip, ll, h)
         == MatchLength(src, c, token, ip + ll + 2, ReadLE16(src, ip + ll), h + src[ip..ip + ll])
  {
    hide MatchLength;
  }

  /** After the literals of a sequence have been copied: on to its match. */
  lemma {:induction false} TrackLiterals(k: Call, was: bytes, now: bytes, op: nat, token: byte, ip: nat, n: nat,
      goal: Outcome)
    requires OpOk(k, op) && op + n <= k.oend <= |now| && ip + n + 2 < |k.src|
    requires !k.partial ==> op + n + MFLIMIT <= k.oend
    requires Outside(was, now, op, k.oend)
    requires forall p :: op <= p < op + n ==> now[p] == k.src[p - op + ip]
    requires goal.Unspecified? ||
             MatchLength(k.src, k.Cfg(), token, ip + n + 2, ReadLE16(k.src, ip + n),
               Hist(k, was, op) + k.src[ip..ip + n]) == goal
    ensures Tracks(k, now, op + n, AtMatchLength(token, ip + n + 2, ReadLE16(k.src, ip + n)), goal)
  {
    hide MatchLength, Hist;
    HistLiterals(k, was, now, op, ip, n, k.oend);
  }

  /** From the start of a sequence to the end of its literals, in the fast loop. */
  method FastLiterals(k: Call, buf: array<byte>, ip0: nat, op0: nat, ghost goal: Outcome)
    returns (l: Label, op: nat)
    requires Tracks(k, buf[..], op0, AtStart(ip0), goal) && op0 + FASTLOOP_SAFE_DISTANCE <= k.oend
    modifies buf
    ensures Tracks(k, buf[..], op, l, goal)
    ensures op0 <= op && Outside(old(buf[..]), buf[..], op0, k.oend)
    ensures l.AtMatchLength? || l.AtLiterals? || l.Failed?
    ensures l.AtMatchLength? ==> ip0 < l.ip
    ensures l.AtLiterals? ==> ip0 < l.ip
  {
    hide Start, Literals, MatchLength, MatchCopy, ReadLength;
    ghost var c, h := k.Cfg(), Hist(k, buf[..], op0);
    var token := k.src[ip0];
    var ip := ip0 + 1;
    var length := token / 16;
    if length == RUN_MASK {
      StartLong(k.src, c, ip0, h);
      var f := ReadVariableLength(k.src, ip, |k.src| - RUN_MASK, true);
      if f.Overrun? {
        return Failed(f.at), op0;
      }
      l, op := FastLongLiterals(k, buf, token, f.next, length + f.value, op0, goal);
    } else if ip > |k.src| - (16 + 1) {
      StartPlain(k.src, c, ip0, h);
      return AtLiterals(token, ip, length), op0;
    } else {
      StartFast(k.src, c, ip0, h);
      ghost var was := buf[..];
      MemcpyFrom(buf, op0, k.src, ip, 16);
      TrackLiterals(k, was, buf[..], op0, token, ip, length, goal);
      op := op0 + length;
      l := AtMatchLength(token, ip + length + 2, ReadLE16(k.src, ip + length));
    }
  }

  method FastLongLiterals(k: Call, buf: array<byte>, token: byte, ip: nat, length: nat, op0: nat, ghost goal: Outcome)
    returns (l: Label, op: nat)
    requires Tracks(k, buf[..], op0, AtLiterals(token, ip, length), goal) && op0 + 32 <= k.oend
    modifies buf
    ensures Tracks(k, buf[..], op, l, goal)
    ensures op0 <= op && Outside(old(buf[..]), buf[..], op0, k.oend)
    ensures l.AtMatchLength? || l == AtLiterals(token, ip, length)
    ensures l.AtMatchLength? ==> ip < l.ip
  {
    hide Start, Literals, MatchLength, MatchCopy;
    var cpy := op0 + length;
    if cpy > k.oend - 32 || ip + length > |k.src| - 32 {
      return AtLiterals(token, ip, length), op0;
    }
    ghost var was := buf[..];
    WildCopy32From(buf, op0, k.src, ip, cpy);
    LiteralsGoOn(k.src, k.Cfg(), token, ip, length, Hist(k, was, op0));
    TrackLiterals(k, was, buf[..], op0, token, ip, length, goal);
    op := cpy;
    l := AtMatchLength(token, ip + length + 2, ReadLE16(k.src, ip + length));
  }

  // ----- Copying a match -----

  lemma {:induction false} MatchLengthLong(src: bytes, c: Config, token: byte, ip: nat, offset: nat, h: bytes)
    requires ip < |src| && InRange(c, h) && offset < WINDOW && token % 16 == RUN_MASK
    ensures match ReadLength(src, ip, |src| - LASTLITERALS + 1, false)
            case Overrun(at) => MatchLength(src, c, token, ip, offset, h) == Malformed(at)
            case Length(addl, next) =>
              MatchLength(src, c, token, ip, offset, h)
                == MatchCopy(src, c, next, offset, RUN_MASK + addl + MINMATCH, h)
  {
    hide MatchCopy, ReadLength;
  }

  lemma {:induction false} MatchLengthShort(src: bytes, c: Config, token: byte, ip: nat, offset: nat, h: bytes)
    requires ip < |src| && InRange(c, h) && offset < WINDOW && token % 16 != RUN_MASK
    ensures MatchLength(src, c, token, ip, offset, h) == MatchCopy(src, c, ip, offset, token % 16 + MINMATCH, h)
  {
    hide MatchCopy;
  }

  lemma {:induction false} MatchCopyFarFromEnd(src: bytes, c: Config, ip: nat, offset: nat, ml: nat, h: bytes)
    requires ip < |src| && InRange(c, h)
    requires |h| + ml + SAFEGUARD <= c.limit
    ensures offset > |h| ==> MatchCopy(src, c, ip, offset, ml, h) == Malformed(ip)
    ensures offset <= |h| ==> MatchCopy(src, c, ip, offset, ml, h) == Start(src, c, ip, CopyMatch(h, offset, ml))
  {
    hide Start, CopyMatch;
  }

  lemma {:induction false} TrackMatch(k: Call, was: bytes, now: bytes, op: nat, ip: nat, offset: nat, ml: nat,
      goal: Outcome)
    requires OpOk(k, op) && op + ml <= k.oend <= |now| && ip < |k.src| && offset <= op - k.Lo()
    requires MatchCopied(was, now, op, op + ml, offset, k.oend)
    requires goal.Unspecified? || Start(k.src, k.Cfg(), ip, CopyMatch(Hist(k, was, op), offset, ml)) == goal
    ensures Tracks(k, now, op + ml, AtStart(ip), goal)
  {
    hide Start, CopyMatch, Hist, MatchCopied;
    HistMatch(k, was, now, op, op + ml, offset, k.oend);
  }

  /** Part of a match of length `n` has been copied from the external dictionary on. */
  ghost predicate ExtCopied(k: Call, was: bytes, now: bytes, op: nat, offset: nat, n: nat) {
    && k.Lo() <= op && op + n <= |now| && Outside(was, now, op, k.oend)
    && op - k.Lo() < offset <= |k.dict| + op - k.Lo()
    && var inDict := offset - (op - k.Lo());
       && (forall p :: op <= p < op + n && p < op + inDict ==> now[p] == k.dict[|k.dict| - inDict + p - op])
       && (forall p :: op + inDict <= p < op + n ==> now[p] == now[p - offset])
  }

  lemma {:induction false} TrackExtMatch(k: Call, was: bytes, now: bytes, op: nat, ip: nat, offset: nat, ml: nat,
      goal: Outcome)
    requires OpOk(k, op) && op + ml <= k.oend <= |now| && ip < |k.src|
    requires ExtCopied(k, was, now, op, offset, ml)
    requires goal.Unspecified? || Start(k.src, k.Cfg(), ip, CopyMatch(Hist(k, was, op), offset, ml)) == goal
    ensures Tracks(k, now, op + ml, AtStart(ip), goal)
  {
    hide Start, CopyMatch, Hist;
    HistExtMatch(k, was, now, op, op + ml, offset, k.oend);
  }

  /** A match that starts in the external dictionary. */
  method CopyFromDict(k: Call, buf: array<byte>, op0: nat, offset: nat, length: nat)
    requires OpOk(k, op0) && k.mode == UsingExtDict && op0 + length <= k.oend <= buf.Length
    requires op0 - k.Lo() < offset <= |k.dict| + op0 - k.Lo()
    modifies buf
    ensures ExtCopied(k, old(buf[..]), buf[..], op0, offset, length)
  {
    var fromEnd := k.lowPrefix - (op0 - offset);   // lowPrefix - match
    if length <= fromEnd {
      MemcpyFrom(buf, op0, k.dict, |k.dict| - fromEnd, length);
    } else {
      var copySize := fromEnd;
      var restSize := length - copySize;
      MemcpyFrom(buf, op0, k.dict, |k.dict| - copySize, copySize);
      label Dict:
      var op := op0 + copySize;
      CopyFromPrefix(k, buf, op, restSize);
      assert forall p :: 0 <= p < op ==> buf[p] == old@Dict(buf[p]);
    }
  }

  /** The rest of such a match, from the start of the prefix. */
  method CopyFromPrefix(k: Call, buf: array<byte>, op0: nat, restSize: nat)
    requires 0 <= k.lowPrefix < op0 && op0 + restSize <= k.oend <= buf.Length
    modifies buf
    ensures forall p :: op0 <= p < op0 + restSize ==> buf[p] == buf[p - (op0 - k.lowPrefix)]
    ensures forall p :: 0 <= p < buf.Length && (p < op0 || op0 + restSize <= p) ==> buf[p] == old(buf[p])
  {
    if restSize > op0 - k.lowPrefix {
      var op, endOfMatch, copyFrom := op0, op0 + restSize, k.lowPrefix;
      while op < endOfMatch
        invariant op0 <= op <= endOfMatch && copyFrom == op - (op0 - k.lowPrefix)
        invariant forall p :: op0 <= p < op ==> buf[p] == buf[p - (op0 - k.lowPrefix)]
        invariant forall p :: 0 <= p < buf.Length && (p < op0 || op <= p) ==> buf[p] == old(buf[p])
      {
        buf[op] := buf[copyFrom];
        op, copyFrom := op + 1, copyFrom + 1;
      }
    } else {
      Memcpy(buf, op0, k.lowPrefix, restSize);
    }
  }

  /** Error : offset outside buffers */
  predicate OffsetOutside(k: Call, op: nat, offset: nat) {
    |k.dict| < WINDOW && op - offset + |k.dict| < k.lowPrefix
  }

  /** The check of the offset, skipped for dictionaries of 64 KB and more, is exact. */
  lemma OffsetCheck(k: Call, op: nat, offset: nat)
    requires OpOk(k, op) && offset < WINDOW
    ensures OffsetOutside(k, op, offset) <==> |k.dict| + op - k.Lo() < offset
    ensures k.mode == WithPrefix64k ==> offset <= op - k.Lo()
    ensures k.mode != UsingExtDict && !OffsetOutside(k, op, offset) ==> offset <= op - k.Lo()
  {
  }

  /** From the match length field to the end of the copy, in the fast loop. */
  method FastMatch(k: Call, buf: array<byte>, token: byte, ip0: nat, offset: nat, op0: nat, ghost goal: Outcome)
    returns (l: Label, op: nat)
    requires Tracks(k, buf[..], op0, AtMatchLength(token, ip0, offset), goal)
    modifies buf
    ensures Tracks(k, buf[..], op, l, goal)
    ensures op0 <= op && Outside(old(buf[..]), buf[..], op0, k.oend)
    ensures l.AtStart? ==> op + FASTLOOP_SAFE_DISTANCE <= k.oend && ip0 <= l.ip
    ensures l.AtStart? || l.AtMatchCopy? || l.Failed?
  {
    hide Start, MatchLength, MatchCopy, CopyMatch, ReadLength, Hist;
    ghost var c, h := k.Cfg(), Hist(k, buf[..], op0);
    op := op0;
    var ip := ip0;
    var length := token % 16;
    if length == RUN_MASK {
      MatchLengthLong(k.src, c, token, ip, offset, h);
      var f := ReadVariableLength(k.src, ip, |k.src| - LASTLITERALS + 1, false);
      if f.Overrun? {
        return Failed(f.at), op;
      }
      ip, length := f.next, length + f.value + MINMATCH;
      OffsetCheck(k, op, offset);
      if OffsetOutside(k, op, offset) {
        MatchCopyBad(k.src, c, ip, offset, length, h);
        return Failed(ip), op;
      }
      if op + length >= k.oend - FASTLOOP_SAFE_DISTANCE {
        return AtMatchCopy(ip, offset, length), op;
      }
    } else {
      MatchLengthShort(k.src, c, token, ip, offset, h);
      length := length + MINMATCH;
      if op + length >= k.oend - FASTLOOP_SAFE_DISTANCE {
        return AtMatchCopy(ip, offset, length), op;
      }
      if k.mode == WithPrefix64k || op - offset >= k.lowPrefix {
        if offset >= 8 {
          FastCopy18(k, buf, op, ip, offset, length, goal);
          op := op + length;
          return AtStart(ip), op;
        }
      }
    }
    l, op := FastCopy(k, buf, op, ip, offset, length, goal);
  }

  lemma {:induction false} MatchCopyBad(src: bytes, c: Config, ip: nat, offset: nat, ml: nat, h: bytes)
    requires ip < |src| && InRange(c, h) && offset > |h|
    ensures MatchCopy(src, c, ip, offset, ml, h) == Malformed(ip)
  {
    hide Start, CopyMatch;
  }

  method FastCopy18(k: Call, buf: array<byte>, op: nat, ip: nat, offset: nat, length: nat, ghost goal: Outcome)
    requires Tracks(k, buf[..], op, AtMatchCopy(ip, offset, length), goal)
    requires length <= 18 && op + length + FASTLOOP_SAFE_DISTANCE < k.oend
    requires 8 <= offset && (k.mode == WithPrefix64k || op - offset >= k.lowPrefix)
    modifies buf
    ensures Tracks(k, buf[..], op + length, AtStart(ip), goal)
    ensures Outside(old(buf[..]), buf[..], op, k.oend)
  {
    hide Start, MatchCopy, CopyMatch, Hist;
    ghost var was := buf[..];
    OffsetCheck(k, op, offset);
    Copy18(buf, op, offset);
    MatchCopyFarFromEnd(k.src, k.Cfg(), ip, offset, length, Hist(k, was, op));
    TrackMatch(k, was, buf[..], op, ip, offset, length, goal);
  }

  /** The remaining copies of the fast loop. */
  method FastCopy(k: Call, buf: array<byte>, op0: nat, ip: nat, offset: nat, length: nat, ghost goal: Outcome)
    returns (l: Label, op: nat)
    requires Tracks(k, buf[..], op0, AtMatchCopy(ip, offset, length), goal)
    requires op0 + length + FASTLOOP_SAFE_DISTANCE < k.oend
    modifies buf
    ensures Tracks(k, buf[..], op, l, goal)
    ensures op0 <= op && Outside(old(buf[..]), buf[..], op0, k.oend)
    ensures l == AtStart(ip) || l.Failed?
    ensures l.AtStart? ==> op + FASTLOOP_SAFE_DISTANCE <= k.oend
  {
    hide Start, MatchCopy, CopyMatch, Hist, MatchCopied, ExtCopied;
    ghost var was := buf[..];
    MatchCopyFarFromEnd(k.src, k.Cfg(), ip, offset, length, Hist(k, was, op0));
    OffsetCheck(k, op0, offset);
    if OffsetOutside(k, op0, offset) {
      return Failed(ip), op0;
    }
    op := op0 + length;
    l := AtStart(ip);
    if k.mode == UsingExtDict && op0 - offset < k.lowPrefix {
      CopyFromDict(k, buf, op0, offset, length);
      TrackExtMatch(k, was, buf[..], op0, ip, offset, length, goal);
      assert Outside(was, buf[..], op0, k.oend) by { ExtOutside(k, was, buf[..], op0, offset, length); }
    } else {
      FastCopyWithin(k, buf, op0, op, offset);
      TrackMatch(k, was, buf[..], op0, ip, offset, length, goal);
      MatchOutside(was, buf[..], op0, op, offset, k.oend);
    }
  }

  lemma ExtOutside(k: Call, was: bytes, now: bytes, op: nat, offset: nat, n: nat)
    requires ExtCopied(k, was, now, op, offset, n)
    ensures Outside(was, now, op, k.oend)
  {
  }

  lemma MatchOutside(was: bytes, now: bytes, op: nat, cpy: nat, offset: nat, top: nat)
    requires MatchCopied(was, now, op, cpy, offset, top)
    ensures Outside(was, now, op, top)
  {
  }

  method FastCopyWithin(k: Call, buf: array<byte>, op: nat, cpy: nat, offset: nat)
    requires k.oend <= buf.Length && offset <= op && op + MINMATCH <= cpy && cpy + FASTLOOP_SAFE_DISTANCE < k.oend
    modifies buf
    ensures MatchCopied(old(buf[..]), buf[..], op, cpy, offset, k.oend)
  {
    if offset < 16 {
      CopyUsingOffset(buf, op, cpy, offset);
    } else {
      WildCopy32(buf, op, op - offset, cpy);
    }
  }

  // ----- The tail loop -----

  /** The shortcut of the tail loop. */
  lemma {:induction false} StartShortcut(src: bytes, c: Config, ip: nat, h: bytes)
    requires ip < |src| && InRange(c, h) && Shortcut(src, c, ip, |h|)
    ensures var ll := src[ip] / 16;
            var offset := ReadLE16(src, ip + 1 + ll);
            var h1 := h + src[ip + 1..ip + 1 + ll];
            if ShortMatch(src[ip], offset, |h1| - c.ext) then
              Start(src, c, ip, h) == Start(src, c, ip + ll + 3, CopyMatch(h1, offset, src[ip] % 16 + MINMATCH))
            else
              Start(src, c, ip, h) == MatchLength(src, c, src[ip], ip + ll + 3, offset, h1)
  {
    hide Literals, MatchLength, CopyMatch;
  }

  /** The start of a sequence in the tail loop. */
  method TailStart(k: Call, buf: array<byte>, ip0: nat, op0: nat, ghost goal: Outcome)
    returns (l: Label, op: nat)
    requires Tracks(k, buf[..], op0, AtStart(ip0), goal)
    modifies buf
    ensures Tracks(k, buf[..], op, l, goal)
    ensures op0 <= op && Outside(old(buf[..]), buf[..], op0, k.oend)
    ensures l.Failed? || ((l.AtStart? || l.AtLiterals? || l.AtMatchLength?) && l.ip > ip0)
  {
    hide Start, Literals, MatchLength, MatchCopy, CopyMatch, ReadLength, Hist;
    ghost var c, h := k.Cfg(), Hist(k, buf[..], op0);
    op := op0;
    var token := k.src[ip0];
    var ip := ip0 + 1;
    var length := token / 16;
    var shortiend, shortoend := |k.src| - 14 - 2, k.oend - 14 - 18;
    if length != RUN_MASK && ip < shortiend && op <= shortoend {
      l, op := TailShortcut(k, buf, ip0, op0, goal);
    } else if length == RUN_MASK {
      StartLong(k.src, c, ip0, h);
      var f := ReadVariableLength(k.src, ip, |k.src| - RUN_MASK, true);
      if f.Overrun? {
        return Failed(f.at), op;
      }
      l := AtLiterals(token, f.next, length + f.value);
    } else {
      StartPlain(k.src, c, ip0, h);
      l := AtLiterals(token, ip, length);
    }
  }

  method TailShortcut(k: Call, buf: array<byte>, ip0: nat, op0: nat, ghost goal: Outcome)
    returns (l: Label, op: nat)
    requires Tracks(k, buf[..], op0, AtStart(ip0), goal)
    requires Shortcut(k.src, k.Cfg(), ip0, |k.dict| + op0 - k.Lo())
    modifies buf
    ensures Tracks(k, buf[..], op, l, goal)
    ensures op0 <= op && Outside(old(buf[..]), buf[..], op0, k.oend)
    ensures (l.AtStart? || l.AtMatchLength?) && l.ip > ip0
  {
    hide Start, MatchLength, CopyMatch, Hist;
    ghost var c, h := k.Cfg(), Hist(k, buf[..], op0);
    ghost var was := buf[..];
    var token := k.src[ip0];
    var ip, length: nat := ip0 + 1, token / 16;
    StartShortcut(k.src, c, ip0, h);
    MemcpyFrom(buf, op0, k.src, ip, 16);
    HistLiterals(k, was, buf[..], op0, ip, length, k.oend);
    op, ip := op0 + length, ip + length;
    length := token % 16;
    var offset := ReadLE16(k.src, ip);
    ip := ip + 2;
    if length != RUN_MASK && offset >= 8 && (k.mode == WithPrefix64k || op - offset >= k.lowPrefix) {
      ghost var mid := buf[..];
      OffsetCheck(k, op, offset);
      Copy18(buf, op, offset);
      TrackMatch(k, mid, buf[..], op, ip, offset, length + MINMATCH, goal);
      op := op + length + MINMATCH;
      l := AtStart(ip);
    } else {
      l := AtMatchLength(token, ip, offset);
    }
  }

  lemma {:induction false} LiteralsNearEnd(src: bytes, c: Config, token: byte, ip: nat, ll: nat, h: bytes)
    requires ip <= |src| && InRange(c, h)
    requires |h| + ll > c.limit - MFLIMIT || ip + ll > |src| - (2 + 1 + LASTLITERALS)
    ensures var o := Literals(src, c, token, ip, ll, h);
            if c.partial then
              var l1 := if ip + ll > |src| then |src| - ip else ll;
              var l2 := if |h| + l1 > c.limit then c.limit - |h| else l1;
              var h1 := h + src[ip..ip + l2];
              if |h1| == c.limit || ip + l2 >= |src| - 2 then o == Decoded(h1)
              else o == MatchLength(src, c, token, ip + l2 + 2, ReadLE16(src, ip + l2), h1)
            else if ip + ll != |src| || |h| + ll > c.limit then o == Malformed(ip)
            else o == Decoded(h + src[ip..ip + ll])
  {
    hide MatchLength;
  }

  /** safe_literal_copy in the tail loop */
  method TailLiterals(k: Call, buf: array<byte>, token: byte, ip: nat, length: nat, op0: nat, ghost goal: Outcome)
    returns (l: Label, op: nat)
    requires Tracks(k, buf[..], op0, AtLiterals(token, ip, length), goal)
    modifies buf
    ensures Tracks(k, buf[..], op, l, goal)
    ensures op0 <= op && Outside(old(buf[..]), buf[..], op0, k.oend)
    ensures l.Finished? || l.Failed? || (l.AtMatchLength? && l.ip > ip)
  {
    hide Start, Literals, MatchLength, MatchCopy, CopyMatch, Hist;
    var cpy := op0 + length;
    if cpy > k.oend - MFLIMIT || ip + length > |k.src| - (2 + 1 + LASTLITERALS) {
      l, op := TailLastLiterals(k, buf, token, ip, length, op0, goal);
    } else {
      ghost var was := buf[..];
      LiteralsGoOn(k.src, k.Cfg(), token, ip, length, Hist(k, was, op0));
      WildCopy8From(buf, op0, k.src, ip, cpy);
      TrackLiterals(k, was, buf[..], op0, token, ip, length, goal);
      op := cpy;
      l := AtMatchLength(token, ip + length + 2, ReadLE16(k.src, ip + length));
    }
  }

  /** Literals close to the end of the input or of the output. */
  method TailLastLiterals(k: Call, buf: array<byte>, token: byte, ip: nat, length0: nat, op0: nat, ghost goal: Outcome)
    returns (l: Label, op: nat)
    requires Tracks(k, buf[..], op0, AtLiterals(token, ip, length0), goal)
    requires op0 + length0 > k.oend - MFLIMIT || ip + length0 > |k.src| - (2 + 1 + LASTLITERALS)
    modifies buf
    ensures Tracks(k, buf[..], op, l, goal)
    ensures op0 <= op && Outside(old(buf[..]), buf[..], op0, k.oend)
    ensures l.Finished? || l.Failed? || (l.AtMatchLength? && l.ip > ip)
  {
    hide Start, Literals, MatchLength, MatchCopy, CopyMatch, Hist;
    LiteralsNearEnd(k.src, k.Cfg(), token, ip, length0, Hist(k, buf[..], op0));
    ghost var was := buf[..];
    var length := length0;
    var cpy := op0 + length;
    if k.partial {
      if ip + length > |k.src| {
        length := |k.src| - ip;
        cpy := op0 + length;
      }
      if cpy > k.oend {
        cpy := k.oend;
        length := k.oend - op0;
      }
    } else if ip + length != |k.src| || cpy > k.oend {
      return Failed(ip), op0;
    }
    MemcpyFrom(buf, op0, k.src, ip, length);
    HistLiterals(k, was, buf[..], op0, ip, length, k.oend);
    op := op0 + length;
    if !k.partial || cpy == k.oend || ip + length >= |k.src| - 2 {
      l := Finished;
    } else {
      l := AtMatchLength(token, ip + length + 2, ReadLE16(k.src, ip + length));
    }
  }

  /** _copy_match: the match length field in the tail loop. */
  method TailMatchLength(k: Call, s: bytes, token: byte, ip: nat, offset: nat, op: nat, ghost goal: Outcome)
    returns (l: Label)
    requires Tracks(k, s, op, AtMatchLength(token, ip, offset), goal)
    ensures Tracks(k, s, op, l, goal)
    ensures l.Failed? || (l.AtMatchCopy? && l.ip >= ip)
  {
    hide Start, MatchLength, MatchCopy, ReadLength, Hist;
    ghost var c, h := k.Cfg(), Hist(k, s, op);
    var length := token % 16;
    if length == RUN_MASK {
      MatchLengthLong(k.src, c, token, ip, offset, h);
      var f := ReadVariableLength(k.src, ip, |k.src| - LASTLITERALS + 1, false);
      if f.Overrun? {
        return Failed(f.at);
      }
      l := AtMatchCopy(f.next, offset, length + f.value + MINMATCH);
    } else {
      MatchLengthShort(k.src, c, token, ip, offset, h);
      l := AtMatchCopy(ip, offset, length + MINMATCH);
    }
  }

  lemma {:induction false} MatchCopyExt(src: bytes, c: Config, ip: nat, offset: nat, ml: nat, h: bytes)
    requires ip < |src| && InRange(c, h) && |h| - c.ext < offset <= |h|
    ensures |h| + ml <= c.limit - LASTLITERALS ==>
              MatchCopy(src, c, ip, offset, ml, h) == Start(src, c, ip, CopyMatch(h, offset, ml))
    ensures |h| + ml > c.limit - LASTLITERALS && c.partial ==>
              MatchCopy(src, c, ip, offset, ml, h) == Start(src, c, ip, CopyMatch(h, offset, Min(ml, c.limit - |h|)))
    ensures |h| + ml > c.limit - LASTLITERALS && !c.partial ==>
              MatchCopy(src, c, ip, offset, ml, h) == Malformed(ip)
  {
    hide Start, CopyMatch;
  }

  lemma {:induction false} MatchCopyPrefix(src: bytes, c: Config, ip: nat, offset: nat, ml: nat, h: bytes)
    requires ip < |src| && InRange(c, h) && offset <= |h| - c.ext
    ensures !(c.partial && |h| + ml > c.limit - SAFEGUARD) ==>
              if |h| + ml > c.limit - LASTLITERALS then MatchCopy(src, c, ip, offset, ml, h) == Malformed(ip)
              else MatchCopy(src, c, ip, offset, ml, h) == Start(src, c, ip, CopyMatch(h, offset, ml))
    ensures c.partial && |h| + ml > c.limit - SAFEGUARD ==>
              if offset == 0 then MatchCopy(src, c, ip, offset, ml, h) == Unspecified
              else
                var h1 := CopyMatch(h, offset, Min(ml, c.limit - |h|));
                if |h1| == c.limit then MatchCopy(src, c, ip, offset, ml, h) == Decoded(h1)
                else MatchCopy(src, c, ip, offset, ml, h) == Start(src, c, ip, h1)
  {
    hide Start, CopyMatch;
  }

  /** safe_match_copy in the tail loop */
  method TailMatchCopy(k: Call, buf: array<byte>, ip: nat, offset: nat, length0: nat, op0: nat, ghost goal: Outcome)
    returns (l: Label, op: nat)
    requires Tracks(k, buf[..], op0, AtMatchCopy(ip, offset, length0), goal)
    modifies buf
    ensures Tracks(k, buf[..], op, l, goal)
    ensures op0 <= op && Outside(old(buf[..]), buf[..], op0, k.oend)
    ensures l.Finished? || l.Failed? || l == AtStart(ip)
  {
    hide Start, MatchCopy, CopyMatch, Hist, ExtCopied;
    ghost var c, h := k.Cfg(), Hist(k, buf[..], op0);
    ghost var was := buf[..];
    OffsetCheck(k, op0, offset);
    if OffsetOutside(k, op0, offset) {
      MatchCopyBad(k.src, c, ip, offset, length0, h);
      return Failed(ip), op0;
    }
    if k.mode == UsingExtDict && op0 - offset < k.lowPrefix {
      MatchCopyExt(k.src, c, ip, offset, length0, h);
      var length := length0;
      if op0 + length > k.oend - LASTLITERALS {
        if !k.partial {
          return Failed(ip), op0;
        }
        length := Min(length, k.oend - op0);
      }
      CopyFromDict(k, buf, op0, offset, length);
      TrackExtMatch(k, was, buf[..], op0, ip, offset, length, goal);
      ExtOutside(k, was, buf[..], op0, offset, length);
      op := op0 + length;
      l := AtStart(ip);
    } else {
      l, op := TailCopyWithin(k, buf, ip, offset, length0, op0, goal);
    }
  }

  /** Copy of a match within the block. */
  method TailCopyWithin(k: Call, buf: array<byte>, ip: nat, offset: nat, length: nat, op0: nat, ghost goal: Outcome)
    returns (l: Label, op: nat)
    requires Tracks(k, buf[..], op0, AtMatchCopy(ip, offset, length), goal)
    requires offset <= op0 - k.Lo()
    modifies buf
    ensures Tracks(k, buf[..], op, l, goal)
    ensures op0 <= op && Outside(old(buf[..]), buf[..], op0, k.oend)
    ensures l.Finished? || l.Failed? || l == AtStart(ip)
  {
    hide Start, MatchCopy, CopyMatch, Hist, MatchCopied;
    ghost var was := buf[..];
    MatchCopyPrefix(k.src, k.Cfg(), ip, offset, length, Hist(k, was, op0));
    var cpy := op0 + length;
    if k.partial && cpy > k.oend - SAFEGUARD {
      var mlen := Min(length, k.oend - op0);
      CopyPartialMatch(buf, op0, offset, mlen, k.oend);
      op := op0 + mlen;
      if offset > 0 {
        HistMatch(k, was, buf[..], op0, op, offset, k.oend);
      }
      l := if op == k.oend then Finished else AtStart(ip);
    } else {
      if cpy > k.oend - LASTLITERALS {
        var _ := First8(buf, op0, offset);
        MatchOutside(was, buf[..], op0, op0 + 8, offset, op0 + 8);
        return Failed(ip), op0;
      }
      TailCopy(buf, op0, cpy, offset, k.oend);
      TrackMatch(k, was, buf[..], op0, ip, offset, length, goal);
      MatchOutside(was, buf[..], op0, cpy, offset, k.oend);
      op := cpy;
      l := AtStart(ip);
    }
  }

  /** The copy at the end of a partial decoding. */
  method CopyPartialMatch(buf: array<byte>, op0: nat, offset: nat, mlen: nat, oend: nat)
    requires offset <= op0 && op0 + mlen <= oend <= buf.Length
    modifies buf
    ensures Outside(old(buf[..]), buf[..], op0, oend)
    ensures offset > 0 ==> MatchCopied(old(buf[..]), buf[..], op0, op0 + mlen, offset, oend)
  {
    var m := op0 - offset;
    if m + mlen > op0 {
      var op, copyEnd := op0, op0 + mlen;
      while op < copyEnd
        invariant op0 <= op <= copyEnd && m == op - offset
        invariant offset > 0 ==> forall p :: op0 <= p < op ==> buf[p] == buf[p - offset]
        invariant forall p :: 0 <= p < buf.Length && (p < op0 || op <= p) ==> buf[p] == old(buf[p])
      {
        buf[op] := buf[m];
        op, m := op + 1, m + 1;
      }
    } else {
      Memcpy(buf, op0, m, mlen);
    }
  }

  // ----- The whole call -----

  /** The fast loop: it can only be left by a jump into the tail loop or to the error exit. */
  method FastLoop(k: Call, buf: array<byte>, op0: nat, ghost goal: Outcome) returns (l: Label, op: nat)
    requires Tracks(k, buf[..], op0, AtStart(0), goal) && op0 + FASTLOOP_SAFE_DISTANCE <= k.oend
    modifies buf
    ensures Tracks(k, buf[..], op, l, goal)
    ensures op0 <= op && Outside(old(buf[..]), buf[..], op0, k.oend)
    ensures l.AtLiterals? || l.AtMatchCopy? || l.Failed?
  {
    hide Resume, Hist;
    l, op := AtStart(0), op0;
    while l.AtStart?
      invariant Tracks(k, buf[..], op, l, goal)
      invariant op0 <= op && Outside(old(buf[..]), buf[..], op0, k.oend)
      invariant l.AtStart? || l.AtLiterals? || l.AtMatchCopy? || l.Failed?
      invariant l.AtStart? ==> op + FASTLOOP_SAFE_DISTANCE <= k.oend
      decreases if l.AtStart? then |k.src| + 1 - l.ip else 0
    {
      l, op := FastLiterals(k, buf, l.ip, op, goal);
      if l.AtMatchLength? {
        l, op := FastMatch(k, buf, l.token, l.ip, l.offset, op, goal);
      }
    }
  }

  /** What is left to do at a label. */
  ghost function Measure(src: bytes, l: Label): (nat, nat) {
    match l
    case AtStart(ip) => (Left(src, ip), 0)
    case AtLiterals(_, ip, _) => (Left(src, ip), 3)
    case AtMatchLength(_, ip, _) => (Left(src, ip), 2)
    case AtMatchCopy(ip, _, _) => (Left(src, ip), 1)
    case _ => (0, 0)
  }

  ghost function Left(src: bytes, ip: nat): nat {
    if ip <= |src| then |src| - ip + 1 else 1
  }

  method TailLoop(k: Call, buf: array<byte>, l0: Label, op0: nat, ghost goal: Outcome) returns (l: Label, op: nat)
    requires Tracks(k, buf[..], op0, l0, goal)
    modifies buf
    ensures Tracks(k, buf[..], op, l, goal)
    ensures op0 <= op && Outside(old(buf[..]), buf[..], op0, k.oend)
    ensures l.Finished? || l.Failed?
  {
    hide Resume, Hist;
    l, op := l0, op0;
    while !l.Finished? && !l.Failed?
      invariant Tracks(k, buf[..], op, l, goal)
      invariant op0 <= op && Outside(old(buf[..]), buf[..], op0, k.oend)
      decreases Measure(k.src, l).0, Measure(k.src, l).1
    {
      match l
      case AtStart(ip) => l, op := TailStart(k, buf, ip, op, goal);
      case AtLiterals(token, ip, ll) => l, op := TailLiterals(k, buf, token, ip, ll, op, goal);
      case AtMatchLength(token, ip, offset) => l := TailMatchLength(k, buf[..], token, ip, offset, op, goal);
      case AtMatchCopy(ip, offset, ml) => l, op := TailMatchCopy(k, buf, ip, offset, ml, op, goal);
      case _ =>
    }
  }

  /** LZ4_decompress_generic. The output buffer is `buf[dst..dst + outputSize]`; `fastLoop` tells
      whether LZ4_FAST_DEC_LOOP is compiled in. */
  method DecompressGeneric(src: bytes, buf: array<byte>, dst: nat, outputSize: nat, partial: bool,
                           mode: DictMode, lowPrefix: int, dict: bytes, fastLoop: bool)
    returns (result: int)
    requires dst + outputSize <= buf.Length && lowPrefix <= dst
    requires mode != UsingExtDict ==> dict == []
    requires if mode == WithPrefix64k then lowPrefix == dst - WINDOW && dst >= WINDOW - 1 else lowPrefix >= 0
    modifies buf
    ensures Outside(old(buf[..]), buf[..], dst, dst + outputSize)
    ensures var hist := dict + old(buf[Max(lowPrefix, 0)..dst]);
            var o := Decompress(src, hist, |dict|, outputSize, partial);
            !o.Unspecified? ==>
              && result == ReturnValue(o, hist)
              && (o.Decoded? ==> 0 <= result <= outputSize && dict + buf[Max(lowPrefix, 0)..dst + result] == o.history)
  {
    hide Start, Resume;
    if outputSize == 0 {
      if partial { return 0; }
      return if |src| == 1 && src[0] == 0 then 0 else -1;
    }
    if |src| == 0 { return -1; }
    var k := Call(src, partial, mode, lowPrefix, dict, dst + outputSize);
    ghost var hist := Hist(k, buf[..], dst);
    ghost var goal := Start(src, k.Cfg(), 0, hist);
    ResumeStart(src, k.Cfg(), 0, hist);
    var l, op := AtStart(0), dst;
    if fastLoop && outputSize >= FASTLOOP_SAFE_DISTANCE {
      l, op := FastLoop(k, buf, op, goal);
    }
    l, op := TailLoop(k, buf, l, op, goal);
    ResumeEnd(src, k.Cfg(), l, Hist(k, buf[..], op));
    result := if l.Failed? then -(l.ip as int) - 1 else op - dst;
  }

  lemma ResumeStart(src: bytes, c: Config, ip: nat, h: bytes)
    requires ip < |src| && InRange(c, h)
    ensures Resume(src, c, AtStart(ip), h) == Start(src, c, ip, h)
  {
    hide Start;
  }

  lemma ResumeEnd(src: bytes, c: Config, l: Label, h: bytes)
    requires InRange(c, h) && (l.Finished? || l.Failed?)
    ensures Resume(src, c, l, h) == if l.Finished? then Decoded(h) else Malformed(l.ip)
  {
  }
}
