/**
  The decoding entry points: LZ4_decompress_safe and LZ4_decompress_safe_usingDict, full and
  partial, which choose a layout of the history by where the dictionary lies and how long it is.
*/
module BlockApi {
  import opened Bytes
  import opened BlockFormat
  import opened BlockDecoderSpec
  import opened BlockDecoder
  import opened WildCopy
  import opened BlockRoundTrip

  // ----- Only the last 64 KB - 1 of a contiguous history matter -----

  /** An outcome with `x` in front of the history. */
  function Shift(x: bytes, o: Outcome): Outcome {
    match o
    case Decoded(h) => Decoded(x + h)
    case Malformed(pos) => Malformed(pos)
    case Unspecified => Unspecified
  }

  /** The same output buffer behind a longer prefix; no external dictionary. */
  ghost predicate Longer(x: bytes, c: Config, c': Config) {
    c.ext == 0 && c'.ext == 0 && c'.partial == c.partial && c'.limit == c.limit + |x|
  }

  lemma {:induction false} ShiftCopy(x: bytes, h: bytes, offset: nat, n: nat)
    requires offset <= |h|
    ensures CopyMatch(x + h, offset, n) == x + CopyMatch(h, offset, n)
  {
    hide CopyMatch;
    var r := x + CopyMatch(h, offset, n);
    assert forall i :: |x + h| <= i < |r| ==> r[i] == if offset == 0 then 0 else r[i - offset];
    CopyMatchUnique(x + h, offset, r);
  }

  lemma {:induction false} ShiftStart(src: bytes, x: bytes, c: Config, c': Config, ip: nat, h: bytes)
    requires ip < |src| && InRange(c, h) && Longer(x, c, c') && WINDOW - 1 <= |h|
    ensures Start(src, c', ip, x + h) == Shift(x, Start(src, c, ip, h))
    decreases |src| - ip, 0
  {
    hide Start, Literals, MatchLength, CopyMatch, ReadLength;
    var token, ll := src[ip], src[ip] / 16;
    if Shortcut(src, c, ip, |h|) {
      StartShortcut(src, c, ip, h);
      StartShortcut(src, c', ip, x + h);
      var h1, offset := h + src[ip + 1..ip + 1 + ll], ReadLE16(src, ip + 1 + ll);
      assert x + h + src[ip + 1..ip + 1 + ll] == x + h1;
      if ShortMatch(token, offset, |h1|) {
        ShiftCopy(x, h1, offset, token % 16 + MINMATCH);
        ShiftStart(src, x, c, c', ip + ll + 3, CopyMatch(h1, offset, token % 16 + MINMATCH));
      } else {
        ShiftMatchLength(src, x, c, c', token, ip + ll + 3, offset, h1);
      }
    } else if ll == RUN_MASK {
      StartLong(src, c, ip, h);
      StartLong(src, c', ip, x + h);
      var f := ReadLength(src, ip + 1, |src| - RUN_MASK, true);
      if f.Length? {
        ShiftLiterals(src, x, c, c', token, f.next, RUN_MASK + f.value, h);
      }
    } else {
      StartPlain(src, c, ip, h);
      StartPlain(src, c', ip, x + h);
      ShiftLiterals(src, x, c, c', token, ip + 1, ll, h);
    }
  }

  lemma {:induction false} ShiftLiterals(src: bytes, x: bytes, c: Config, c': Config, token: byte, ip: nat, ll: nat,
      h: bytes)
    requires ip <= |src| && InRange(c, h) && Longer(x, c, c') && WINDOW - 1 <= |h|
    ensures Literals(src, c', token, ip, ll, x + h) == Shift(x, Literals(src, c, token, ip, ll, h))
    decreases |src| - ip, 3
  {
    hide Start, Literals, MatchLength;
    if |h| + ll > c.limit - MFLIMIT || ip + ll > |src| - (2 + 1 + LASTLITERALS) {
      LiteralsNearEnd(src, c, token, ip, ll, h);
      LiteralsNearEnd(src, c', token, ip, ll, x + h);
      var l1 := if ip + ll > |src| then |src| - ip else ll;
      var l2 := if |h| + l1 > c.limit then c.limit - |h| else l1;
      assert x + h + src[ip..ip + l2] == x + (h + src[ip..ip + l2]);
      if c.partial && |h| + l2 != c.limit && ip + l2 < |src| - 2 {
        ShiftMatchLength(src, x, c, c', token, ip + l2 + 2, ReadLE16(src, ip + l2), h + src[ip..ip + l2]);
      }
    } else {
      LiteralsGoOn(src, c, token, ip, ll, h);
      LiteralsGoOn(src, c', token, ip, ll, x + h);
      assert x + h + src[ip..ip + ll] == x + (h + src[ip..ip + ll]);
      ShiftMatchLength(src, x, c, c', token, ip + ll + 2, ReadLE16(src, ip + ll), h + src[ip..ip + ll]);
    }
  }

  lemma {:induction false} ShiftMatchLength(src: bytes, x: bytes, c: Config, c': Config, token: byte, ip: nat,
      offset: nat, h: bytes)
    requires ip < |src| && InRange(c, h) && Longer(x, c, c') && offset < WINDOW && WINDOW - 1 <= |h|
    ensures MatchLength(src, c', token, ip, offset, x + h) == Shift(x, MatchLength(src, c, token, ip, offset, h))
    decreases |src| - ip, 2
  {
    hide Start, MatchLength, MatchCopy, ReadLength;
    if token % 16 == RUN_MASK {
      MatchLengthLong(src, c, token, ip, offset, h);
      MatchLengthLong(src, c', token, ip, offset, x + h);
      var f := ReadLength(src, ip, |src| - LASTLITERALS + 1, false);
      if f.Length? {
        ShiftMatchCopy(src, x, c, c', f.next, offset, RUN_MASK + f.value + MINMATCH, h);
      }
    } else {
      MatchLengthShort(src, c, token, ip, offset, h);
      MatchLengthShort(src, c', token, ip, offset, x + h);
      ShiftMatchCopy(src, x, c, c', ip, offset, token % 16 + MINMATCH, h);
    }
  }

  lemma {:induction false} ShiftMatchCopy(src: bytes, x: bytes, c: Config, c': Config, ip: nat, offset: nat, ml: nat,
      h: bytes)
    requires ip < |src| && InRange(c, h) && Longer(x, c, c') && offset < WINDOW && WINDOW - 1 <= |h|
    ensures MatchCopy(src, c', ip, offset, ml, x + h) == Shift(x, MatchCopy(src, c, ip, offset, ml, h))
    decreases |src| - ip, 1
  {
    hide Start, MatchCopy, CopyMatch;
    MatchCopyPrefix(src, c, ip, offset, ml, h);
    MatchCopyPrefix(src, c', ip, offset, ml, x + h);
    var n := Min(ml, c.limit - |h|);
    ShiftCopy(x, h, offset, n);
    ShiftStart(src, x, c, c', ip, CopyMatch(h, offset, n));
  }

  /** A contiguous history may be cut to its last 64 KB - 1 without any visible effect. */
  lemma {:induction false} LastWindow(src: bytes, x: bytes, t: bytes, cap: nat, partial: bool)
    requires WINDOW - 1 <= |t|
    ensures Decompress(src, x + t, 0, cap, partial) == Shift(x, Decompress(src, t, 0, cap, partial))
  {
    hide Start;
    if cap > 0 && |src| > 0 {
      ShiftStart(src, x, Config(|t| + cap, 0, partial), Config(|x + t| + cap, 0, partial), 0, t);
    }
  }

  // ----- The entry points -----

  /** Where the dictionary of a call lies: right before the output, or elsewhere. */
  datatype Dictionary = Adjacent(size: nat) | Elsewhere(content: bytes)

  ghost function History(d: Dictionary, buf: bytes, dst: nat): bytes
    requires dst <= |buf| && (d.Adjacent? ==> d.size <= dst)
  {
    match d
    case Adjacent(size) => buf[dst - size..dst]
    case Elsewhere(content) => content
  }

  function ExtSize(d: Dictionary): nat {
    match d
    case Adjacent(_) => 0
    case Elsewhere(content) => |content|
  }

  /** A call of the generic decoder, its result read off the buffer. */
  method Decode(src: bytes, buf: array<byte>, dst: nat, cap: nat, partial: bool,
                mode: DictMode, lowPrefix: int, dict: bytes, fastLoop: bool)
    returns (result: int)
    requires dst + cap <= buf.Length && lowPrefix <= dst
    requires mode != UsingExtDict ==> dict == []
    requires if mode == WithPrefix64k then lowPrefix == dst - WINDOW && dst >= WINDOW - 1 else lowPrefix >= 0
    modifies buf
    ensures Outside(old(buf[..]), buf[..], dst, dst + cap)
    ensures var hist := dict + old(buf[Max(lowPrefix, 0)..dst]);
            var o := Decompress(src, hist, |dict|, cap, partial);
            !o.Unspecified? ==> Returns(o, hist, result, buf[..], dst, cap)
  {
    hide Decompress;
    ghost var was := buf[..];
    var lo := Max(lowPrefix, 0);
    ghost var hist := dict + buf[lo..dst];
    result := DecompressGeneric(src, buf, dst, cap, partial, mode, lowPrefix, dict, fastLoop);
    assert buf[lo..dst] == was[lo..dst];
    if 0 <= result <= cap {
      assert buf[lo..dst + result] == buf[lo..dst] + buf[dst..dst + result];
      assert dict + buf[lo..dst + result] == hist + buf[dst..dst + result];
    }
  }

  /** The value returned and the bytes left at `dst` are the ones of `o`. */
  ghost predicate Returns(o: Outcome, hist: bytes, result: int, now: bytes, dst: nat, cap: nat) {
    match o
    case Decoded(h) => 0 <= result <= cap && dst + result <= |now| && h == hist + now[dst..dst + result]
    case Malformed(pos) => result == -(pos as int) - 1
    case Unspecified => true
  }

  lemma ReturnsShift(x: bytes, o: Outcome, hist: bytes, result: int, now: bytes, dst: nat, cap: nat)
    ensures Returns(Shift(x, o), x + hist, result, now, dst, cap) <==> Returns(o, hist, result, now, dst, cap)
  {
    if 0 <= result <= cap && dst + result <= |now| {
      var out := now[dst..dst + result];
      assert x + hist + out == x + (hist + out);
      if o.Decoded? && x + o.history == x + (hist + out) {
        assert (x + o.history)[|x|..] == o.history;
        assert (x + (hist + out))[|x|..] == hist + out;
      }
    }
  }

  /** The history that mode `WithPrefix64k` sees gives the same result as the whole dictionary. */
  lemma {:induction false} Prefix64k(src: bytes, s: bytes, dst: nat, size: nat, cap: nat, partial: bool,
                                     result: int, now: bytes)
    requires WINDOW - 1 <= size <= dst <= |s|
    requires var hist := s[Max(dst - WINDOW, 0)..dst];
             var o := Decompress(src, hist, 0, cap, partial);
             !o.Unspecified? ==> Returns(o, hist, result, now, dst, cap)
    ensures var hist := s[dst - size..dst];
            var o := Decompress(src, hist, 0, cap, partial);
            !o.Unspecified? ==> Returns(o, hist, result, now, dst, cap)
  {
    hide Decompress, Returns;
    var lo := Max(dst - WINDOW, 0);
    var seen, whole := s[lo..dst], s[dst - size..dst];
    if dst - size <= lo {
      var x := s[dst - size..lo];
      assert whole == x + seen;
      LastWindow(src, x, seen, cap, partial);
      ReturnsShift(x, Decompress(src, seen, 0, cap, partial), seen, result, now, dst, cap);
    } else {
      var x := s[lo..dst - size];
      assert seen == x + whole;
      LastWindow(src, x, whole, cap, partial);
      ReturnsShift(x, Decompress(src, whole, 0, cap, partial), whole, result, now, dst, cap);
    }
  }

  /** LZ4_decompress_safe_usingDict and LZ4_decompress_safe_partial_usingDict, with their dispatch
      on the place and the size of the dictionary. */
  method DecompressSafeUsingDict(src: bytes, buf: array<byte>, dst: nat, cap: nat, partial: bool,
                                 d: Dictionary, fastLoop: bool)
    returns (result: int)
    requires dst + cap <= buf.Length && (d.Adjacent? ==> d.size <= dst)
    modifies buf
    ensures Outside(old(buf[..]), buf[..], dst, dst + cap)
    ensures var hist := History(d, old(buf[..]), dst);
            var o := Decompress(src, hist, ExtSize(d), cap, partial);
            !o.Unspecified? ==> Returns(o, hist, result, buf[..], dst, cap)
  {
    hide Decompress, Returns, Outside;
    ghost var was := buf[..];
    var dictSize := if d.Adjacent? then d.size else |d.content|;
    assert [] + was[dst..dst] == [];
    if dictSize == 0 {
      result := Decode(src, buf, dst, cap, partial, NoDict, dst, [], fastLoop);
    } else if d.Adjacent? {
      if dictSize >= WINDOW - 1 {
        result := Decode(src, buf, dst, cap, partial, WithPrefix64k, dst - WINDOW, [], fastLoop);
        assert [] + was[Max(dst - WINDOW, 0)..dst] == was[Max(dst - WINDOW, 0)..dst];
        Prefix64k(src, was, dst, dictSize, cap, partial, result, buf[..]);
      } else {
        result := Decode(src, buf, dst, cap, partial, NoDict, dst - dictSize, [], fastLoop);
        assert [] + was[dst - dictSize..dst] == was[dst - dictSize..dst];
      }
    } else {
      result := Decode(src, buf, dst, cap, partial, UsingExtDict, dst, d.content, fastLoop);
      assert d.content + was[dst..dst] == d.content;
    }
  }

  /** LZ4_decompress_safe, LZ4_decompress_safe_partial: a conforming block comes back as its content,
      or in a partial decoding as the first bytes of it. */
  method DecompressConforming(ghost h: bytes, ghost ss: seq<Seqn>, ghost last: bytes, src: bytes, buf: array<byte>,
      dst: nat,
                              cap: nat, partial: bool, d: Dictionary, fastLoop: bool)
    returns (result: nat)
    requires dst + cap <= buf.Length && (d.Adjacent? ==> d.size <= dst)
    requires h == History(d, buf[..], dst)
    requires Conforming(|h|, ss, last) && src == EncodeBlock(|h|, ss, last)
    requires partial || |Content(h, ss, last)| <= |h| + cap
    modifies buf
    ensures Outside(old(buf[..]), buf[..], dst, dst + cap)
    ensures result == Min(|Content(h, ss, last)| - |h|, cap) && result <= cap
    ensures buf[dst..dst + result] == Content(h, ss, last)[|h|..|h| + result]
  {
    hide Decompress, ParseOk, EncodeBlock, Content;
    RoundTrip(h, ss, last, ExtSize(d), cap, partial);
    var r := DecompressSafeUsingDict(src, buf, dst, cap, partial, d, fastLoop);
    result := r;
    ghost var c := Content(h, ss, last);
    ghost var out := buf[dst..dst + r];
    assert c[..|h| + r] == h + out;
    assert c[|h|..|h| + r] == c[..|h| + r][|h|..] == out;
  }
}
