/** What a decoder has to keep of the history of linked blocks: its last 64 KB. */
module FrameHistory {
  import opened Bytes
  import opened BlockFormat
  import opened BlockDecoderSpec
  import opened BlockApi
  import opened BlockWriter
  import opened FrameFormat

  /** `d` ends like the history `h`, over 64 KB or the whole of `h` if it is shorter. */
  ghost predicate Covers(d: bytes, h: bytes) {
    var n := Min(KB64, |h|);
    n <= |d| <= |h| && d[|d| - n..] == h[|h| - n..]
  }

  lemma CoversSelf(h: bytes)
    ensures Covers(h, h)
  {
  }

  lemma {:induction false} CoversAppend(d: bytes, h: bytes, x: bytes)
    requires Covers(d, h)
    ensures Covers(d + x, h + x)
  {
    var n, m := Min(KB64, |h|), Min(KB64, |h + x|);
    var a, b := d[|d| - n..], h[|h| - n..];
    EndOfSum(d, x, a, m);
    EndOfSum(h, x, b, m);
  }

  lemma EndOfSum(s: bytes, x: bytes, a: bytes, m: nat)
    requires |a| <= |s| && a == s[|s| - |a|..] && m <= |a + x|
    ensures (s + x)[|s + x| - m..] == (a + x)[|a + x| - m..]
  {
    var p, q := (s + x)[|s + x| - m..], (a + x)[|a + x| - m..];
    assert s == s[..|s| - |a|] + a;
    assert |p| == |q|;
    forall i | 0 <= i < |p| ensures p[i] == q[i] {
    }
  }

  /** Dropping bytes from the front is harmless while the last 64 KB remain. */
  lemma {:induction false} CoversDrop(d: bytes, h: bytes, k: nat)
    requires Covers(d, h) && k <= |d| && Min(KB64, |h|) <= |d| - k
    ensures Covers(d[k..], h)
  {
    var n := Min(KB64, |h|);
    assert d[k..][|d| - k - n..] == d[|d| - n..];
  }

  lemma {:induction false} CoversLast(d: bytes, h: bytes, part: bytes)
    requires Covers(d, h) && |part| <= |d| && part == d[|d| - |part|..] && Min(KB64, |h|) <= |part|
    ensures Covers(part, h)
  {
    hide Covers;
    CoversDrop(d, h, |d| - |part|);
  }

  /** A string that ends like `d` over enough bytes will do instead of `d`. */
  lemma {:induction false} CoversOther(d: bytes, e: bytes, h: bytes, m: nat)
    requires Covers(d, h) && m <= |d| && m <= |e| <= |h| && Min(KB64, |h|) <= m
    requires e[|e| - m..] == d[|d| - m..]
    ensures Covers(e, h)
  {
    var n := Min(KB64, |h|);
    assert e[|e| - n..] == e[|e| - m..][m - n..];
    assert d[|d| - n..] == d[|d| - m..][m - n..];
  }

  /** The end of the history itself. */
  lemma {:induction false} CoversEnd(e: bytes, h: bytes)
    requires |e| <= |h| && h[|h| - |e|..] == e && Min(KB64, |h|) <= |e|
    ensures Covers(e, h)
  {
    CoversSelf(h);
    CoversDrop(h, h, |h| - |e|);
  }

  lemma {:induction false} CoversByTail(e: bytes, h: bytes, m: nat)
    requires Min(KB64, |h|) <= m <= |e| <= |h| && e[|e| - m..] == h[|h| - m..]
    ensures Covers(e, h)
  {
    CoversSelf(h);
    CoversOther(h, e, h, m);
  }

  /** Replacing the front of a dictionary extended by `x` by nothing. */
  lemma {:induction false} CoversKept(d: bytes, h: bytes, x: bytes, p: nat)
    requires Covers(d, h) && p <= |d| && Min(KB64, |h + x|) <= p + |x|
    ensures Covers(d[|d| - p..] + x, h + x)
  {
    hide Covers;
    CoversAppend(d, h, x);
    assert (d + x)[|d| - p..] == d[|d| - p..] + x;
    CoversDrop(d + x, h + x, |d| - p);
  }

  /** Within the last 64 KB, the dictionary is the history. */
  lemma {:induction false} CoversSlice(d: bytes, h: bytes, lo: nat, hi: nat)
    requires Covers(d, h) && lo <= hi <= Min(KB64, |h|)
    ensures hi <= |d| && d[|d| - hi..|d| - lo] == h[|h| - hi..|h| - lo]
  {
    var n := Min(KB64, |h|);
    SubEnd(d, n, hi, lo);
    SubEnd(h, n, hi, lo);
  }

  lemma SubEnd(s: bytes, n: nat, hi: nat, lo: nat)
    requires lo <= hi <= n <= |s|
    ensures s[|s| - n..][n - hi..n - lo] == s[|s| - hi..|s| - lo]
  {
    var a, b := s[|s| - n..][n - hi..n - lo], s[|s| - hi..|s| - lo];
    assert |a| == |b|;
    forall i | 0 <= i < |a| ensures a[i] == b[i] {
    }
  }

  lemma FrontFits(h: nat, start: nat, b: nat, front: nat, c: nat)
    requires start <= b && start <= h && front <= h - start && c == Min(Max(0, KB64 - b), front)
    ensures start + c <= h && (c == 0 || start + c <= Min(KB64, h))
    ensures Min(KB64, h - start) <= front ==> Min(KB64, h - start + b) <= c + b
  {
  }

  lemma SplitEnd(s: bytes, m: nat, n: nat)
    requires n <= m <= |s|
    ensures s[|s| - m..] == s[|s| - m..|s| - n] + s[|s| - n..]
  {
  }

  /** The last `c` bytes of history put in front of a block of which `start` bytes are already
      part of the history `h`: once the whole block is history, the buffer `e` covers it. */
  lemma {:induction false} CoversFront(d: bytes, h: bytes, start: nat, b: bytes, e: bytes, c: nat, all: bytes)
    requires Covers(d, h) && start <= |b| && start <= |h| && h[|h| - start..] == b[..start]
    requires all == h + b[start..]
    requires |b| <= |e| && e[|e| - |b|..] == b
    requires Min(KB64, |h| - start) <= |e| - |b| <= |h| - start
    requires c == Min(Max(0, KB64 - |b|), |e| - |b|)
    ensures |all| == |h| - start + |b|
    ensures c == 0 ==> Covers(e, all)
    ensures c > 0 ==> start + c <= |d|
    ensures c > 0 && e[|e| - |b| - c..|e| - |b|] == d[|d| - start - c..|d| - start] ==> Covers(e, all)
  {
    hide Covers;
    var m := c + |b|;
    FrontFits(|h|, start, |b|, |e| - |b|, c);
    AllIs(h, start, b, all, c);
    if c == 0 {
      CoversByTail(e, all, m);
    } else {
      CoversSlice(d, h, start, start + c);
      if e[|e| - |b| - c..|e| - |b|] == d[|d| - start - c..|d| - start] {
        SplitEnd(e, m, |b|);
        SplitEnd(all, m, |b|);
        CoversByTail(e, all, m);
      }
    }
  }

  lemma AllIs(h: bytes, start: nat, b: bytes, all: bytes, c: nat)
    requires start <= |b| && start <= |h| && h[|h| - start..] == b[..start] && all == h + b[start..]
    requires start + c <= |h|
    ensures |all| == |h| - start + |b| && all[|all| - |b|..] == b
    ensures all[|all| - c - |b|..|all| - |b|] == h[|h| - start - c..|h| - start]
  {
    var before := h[..|h| - start];
    assert h == before + b[..start] && b == b[..start] + b[start..];
    assert all == before + b;
  }

  // ----- Matches reach no further than 64 KB -----

  lemma {:induction false} ParseElsewhere(n: nat, n': nat, ss: seq<Seqn>)
    requires ParseOk(n, ss) && (n <= n' || DISTANCE_MAX <= n')
    ensures ParseOk(n', ss)
    decreases |ss|
  {
    if ss != [] {
      ParseElsewhere(n, n', ss[..|ss| - 1]);
    }
  }

  lemma {:induction false} EncodeElsewhere(n: nat, n': nat, ss: seq<Seqn>)
    requires ParseOk(n, ss) && ParseOk(n', ss)
    ensures EncodeSeqns(n, ss) == EncodeSeqns(n', ss)
    decreases |ss|
  {
    hide EncodeSeqn;
    if ss != [] {
      EncodeElsewhere(n, n', ss[..|ss| - 1]);
    }
  }

  lemma {:induction false} ApplyShift(x: bytes, h: bytes, s: Seqn)
    requires SeqnOk(s, |h|)
    ensures ApplySeqn(x + h, s) == x + ApplySeqn(h, s)
  {
    hide CopyMatch;
    assert x + h + s.literals == x + (h + s.literals);
    ShiftCopy(x, h + s.literals, s.offset, s.mlen);
  }

  lemma {:induction false} ExpandShift(x: bytes, h: bytes, ss: seq<Seqn>)
    requires ParseOk(|h|, ss)
    ensures ParseOk(|x + h|, ss) && Expand(x + h, ss) == x + Expand(h, ss)
    decreases |ss|
  {
    hide ApplySeqn, SeqnOk;
    ParseElsewhere(|h|, |x + h|, ss);
    if ss != [] {
      ExpandShift(x, h, ss[..|ss| - 1]);
      ExpandStep(h, ss);
      ExpandStep(x + h, ss);
      ApplyShift(x, Expand(h, ss[..|ss| - 1]), ss[|ss| - 1]);
    }
  }

  lemma {:induction false} ExpandStep(h: bytes, ss: seq<Seqn>)
    requires ss != [] && ParseOk(|h|, ss)
    ensures ParseOk(|h|, ss[..|ss| - 1])
    ensures SeqnOk(ss[|ss| - 1], |Expand(h, ss[..|ss| - 1])|)
    ensures Expand(h, ss) == ApplySeqn(Expand(h, ss[..|ss| - 1]), ss[|ss| - 1])
  {
    hide ApplySeqn, SeqnOk;
  }

  lemma {:induction false} BlockShiftUp(x: bytes, h: bytes, c: bytes, b: bytes)
    requires IsBlockOf(h, c, b)
    ensures IsBlockOf(x + h, c, b)
  {
    hide ParseOk, Expand, EncodeSeqns, EncodeLiterals, EndOk;
    var ss, last :| IsParse(h, c, b, ss, last);
    ExpandShift(x, h, ss);
    EncodeElsewhere(|h|, |x + h|, ss);
    assert x + Expand(h, ss) + last == x + (Expand(h, ss) + last);
    assert x + h + c == x + (h + c);
    assert IsParse(x + h, c, b, ss, last);
  }

  lemma {:induction false} BlockShiftDown(x: bytes, h: bytes, c: bytes, b: bytes)
    requires IsBlockOf(x + h, c, b) && DISTANCE_MAX <= |h|
    ensures IsBlockOf(h, c, b)
  {
    hide ParseOk, Expand, EncodeSeqns, EncodeLiterals, EndOk;
    var ss, last :| IsParse(x + h, c, b, ss, last);
    ParseElsewhere(|x + h|, |h|, ss);
    ExpandShift(x, h, ss);
    EncodeElsewhere(|h|, |x + h|, ss);
    var e := Expand(h, ss) + last;
    assert x + e == x + Expand(h, ss) + last;
    assert x + h + c == x + (h + c);
    assert (x + e)[|x|..] == e && (x + (h + c))[|x|..] == h + c;
    assert IsParse(h, c, b, ss, last);
  }

  /** A block of linked history is a block after whatever covers that history. */
  lemma {:induction false} BlockKeeps(d: bytes, h: bytes, c: bytes, b: bytes)
    requires Covers(d, h) && IsBlockOf(h, c, b)
    ensures IsBlockOf(d, c, b)
  {
    hide IsBlockOf;
    if |h| <= KB64 {
      assert d == d[|d| - |h|..] && h == h[0..];
    } else {
      var w := h[|h| - KB64..];
      assert h == h[..|h| - KB64] + w;
      assert d == d[..|d| - KB64] + w;
      BlockShiftDown(h[..|h| - KB64], w, c, b);
      BlockShiftUp(d[..|d| - KB64], w, c, b);
    }
  }

  /** A compressed block has at least a token, so that its size is not an end mark. */
  lemma {:induction false} BlockNotEmpty(h: bytes, c: bytes, b: bytes)
    requires IsBlockOf(h, c, b)
    ensures |b| >= 1
  {
    hide Conforming, Content, EncodeSeqns, Extension;
    var ss, last :| IsParse(h, c, b, ss, last);
  }

  // ----- A full decoding is always specified -----

  lemma {:induction false} FullStart(src: bytes, c: Config, ip: nat, h: bytes)
    requires ip < |src| && InRange(c, h) && !c.partial
    ensures !Start(src, c, ip, h).Unspecified?
    decreases |src| - ip, 0
  {
    hide CopyMatch, MatchLength, Literals, ReadLength;
    var token, ll := src[ip], src[ip] / 16;
    if Shortcut(src, c, ip, |h|) {
      var h1, offset := h + src[ip + 1..ip + 1 + ll], ReadLE16(src, ip + 1 + ll);
      if ShortMatch(token, offset, |h1| - c.ext) {
        FullStart(src, c, ip + ll + 3, CopyMatch(h1, offset, token % 16 + MINMATCH));
      } else {
        FullMatchLength(src, c, token, ip + ll + 3, offset, h1);
      }
    } else if ll == RUN_MASK {
      var f := ReadLength(src, ip + 1, |src| - RUN_MASK, true);
      if f.Length? {
        FullLiterals(src, c, token, f.next, RUN_MASK + f.value, h);
      }
    } else {
      FullLiterals(src, c, token, ip + 1, ll, h);
    }
  }

  lemma {:induction false} FullLiterals(src: bytes, c: Config, token: byte, ip: nat, ll: nat, h: bytes)
    requires ip <= |src| && InRange(c, h) && !c.partial
    ensures !Literals(src, c, token, ip, ll, h).Unspecified?
    decreases |src| - ip, 3
  {
    hide MatchLength;
    if |h| + ll <= c.limit - MFLIMIT && ip + ll <= |src| - (2 + 1 + LASTLITERALS) {
      FullMatchLength(src, c, token, ip + ll + 2, ReadLE16(src, ip + ll), h + src[ip..ip + ll]);
    }
  }

  lemma {:induction false} FullMatchLength(src: bytes, c: Config, token: byte, ip: nat, offset: nat, h: bytes)
    requires ip < |src| && InRange(c, h) && offset < WINDOW && !c.partial
    ensures !MatchLength(src, c, token, ip, offset, h).Unspecified?
    decreases |src| - ip, 2
  {
    hide MatchCopy, ReadLength;
    if token % 16 == RUN_MASK {
      var f := ReadLength(src, ip, |src| - LASTLITERALS + 1, false);
      if f.Length? {
        FullCopy(src, c, f.next, offset, RUN_MASK + f.value + MINMATCH, h);
      }
    } else {
      FullCopy(src, c, ip, offset, token % 16 + MINMATCH, h);
    }
  }

  lemma {:induction false} FullCopy(src: bytes, c: Config, ip: nat, offset: nat, ml: nat, h: bytes)
    requires ip < |src| && InRange(c, h) && !c.partial
    ensures !MatchCopy(src, c, ip, offset, ml, h).Unspecified?
    decreases |src| - ip, 1
  {
    hide Start, CopyMatch;
    if offset <= |h| && |h| + ml <= c.limit - LASTLITERALS {
      FullStart(src, c, ip, CopyMatch(h, offset, ml));
    }
  }

  lemma {:induction false} FullSpecified(src: bytes, hist: bytes, ext: nat, cap: nat)
    requires ext <= |hist|
    ensures !Decompress(src, hist, ext, cap, false).Unspecified?
  {
    hide Start;
    if cap > 0 && |src| > 0 {
      FullStart(src, Config(|hist| + cap, ext, false), 0, hist);
    }
  }
}
