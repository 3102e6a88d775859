/**
  What the decoder accepts. Not only conforming blocks: offset 0, fewer than five last literals and any
  low nibble in the last token pass. But a decoding that succeeds has always read a list of sequences and
  a last run of literals, nothing less and nothing else, and its output is what they expand to; and every
  such block that keeps the end-of-block rules is accepted.
*/
module BlockAcceptance {
  import opened Bytes
  import opened BlockFormat
  import opened BlockDecoderSpec
  import opened BlockDecoder
  import opened BlockRoundTrip
  import opened BlockWriter
  import opened DictLayout
  import opened DictLayoutPartial

  // ----- Blocks as the decoder reads them -----

  /** A sequence after `n` bytes of history; its offset may be 0. */
  predicate ReadableSeqn(s: Seqn, n: nat) {
    s.offset <= DISTANCE_MAX && s.offset <= n + |s.literals| && MINMATCH <= s.mlen
  }

  predicate Readable(n: nat, ss: seq<Seqn>)
    decreases |ss|
  {
    ss == [] || (ReadableSeqn(ss[0], n) && Readable(n + |ss[0].literals| + ss[0].mlen, ss[1..]))
  }

  /** History `h` extended by the sequences, first one first. */
  function Unfold(h: bytes, ss: seq<Seqn>): (r: bytes)
    requires Readable(|h|, ss)
    ensures h <= r
    decreases |ss|
  {
    if ss == [] then h
    else
      var h1 := CopyMatch(h + ss[0].literals, ss[0].offset, ss[0].mlen);
      assert h <= h + ss[0].literals <= h1;
      Unfold(h1, ss[1..])
  }

  function SeqnsBytes(n: nat, ss: seq<Seqn>): bytes
    requires Readable(n, ss)
    decreases |ss|
  {
    if ss == [] then [] else EncodeSeqn(ss[0]) + SeqnsBytes(n + |ss[0].literals| + ss[0].mlen, ss[1..])
  }

  /** The last token: the length of the run in the high nibble, anything in the low one. */
  function RunStart(ll: nat, low: nat): (s: bytes)
    requires low < 16
    ensures |s| == 1 + ExtensionSize(ll)
  {
    [16 * Nibble(ll) + low] + Extension(ll)
  }

  /** `src` reads as the sequences `ss` and the last literals after history `h`, and stands for `r`. */
  ghost predicate Reads(src: bytes, h: bytes, ss: seq<Seqn>, last: bytes, low: nat, r: bytes) {
    && low < 16 && Readable(|h|, ss)
    && src == SeqnsBytes(|h|, ss) + (RunStart(|last|, low) + last)
    && r == Unfold(h, ss) + last
  }

  /** A block in the sense of the decoder: `src` stands for `r` after history `h`. */
  ghost predicate StandsFor(src: bytes, h: bytes, r: bytes) {
    exists ss, last, low :: Reads(src, h, ss, last, low, r)
  }

  // ----- Length fields -----

  lemma {:induction false} MoreIsRepeat(src: bytes, ip: nat, ilimit: int, acc: nat)
    requires ip < |src| && ilimit < |src| && ReadMore(src, ip, ilimit, acc).Length?
    ensures var f := ReadMore(src, ip, ilimit, acc); var q := f.next - ip - 1;
      && f.next <= |src| && acc + 255 * q <= f.value < acc + 255 * q + 255
      && src[ip..f.next] == Repeat(255, q) + [f.value - acc - 255 * q]
    decreases |src| - ip
  {
    var f := ReadMore(src, ip, ilimit, acc);
    if src[ip] == 255 {
      MoreIsRepeat(src, ip + 1, ilimit, acc + 255);
      var q := f.next - ip - 2;
      assert src[ip..f.next] == [255] + src[ip + 1..f.next];
      assert Repeat(255, q + 1) == [255] + Repeat(255, q);
    } else {
      assert src[ip..ip + 1] == Repeat(255, 0) + [src[ip]];
    }
  }

  /** A length field that can be read is the one that the encoder writes for its value. */
  lemma {:induction false} LengthIsExtension(src: bytes, ip: nat, ilimit: int, check: bool)
    requires ip <= |src| && ilimit < |src| && (check || ip < |src|) && ReadLength(src, ip, ilimit, check).Length?
    ensures var f := ReadLength(src, ip, ilimit, check);
      f.next <= |src| && src[ip..f.next] == Extension(RUN_MASK + f.value)
  {
    MoreIsRepeat(src, ip, ilimit, 0);
    var f := ReadLength(src, ip, ilimit, check);
    var q := f.next - ip - 1;
    var n := RUN_MASK + f.value;
    assert (n - RUN_MASK) / 255 == q && (n - RUN_MASK) % 255 == f.value - 255 * q;
  }

  // ----- One sequence -----

  /** The decoder at `ip` with history `h` on its way to `r`: it ends in a run of `ll` literals, of which
      it copies `lits`, or takes a sequence, of which it copies `cut` bytes of the match. */
  datatype Move = Ends(lits: bytes, ll: nat, low: nat) | Takes(s: Seqn, cut: nat)

  /** The literals of the last run are all there, or the output is full, or the input has no more. */
  ghost predicate EndsWell(src: bytes, c: Config, at: nat, lits: bytes, ll: nat, r: bytes) {
    && |lits| <= ll && |r| <= c.limit
    && if c.partial then |r| == c.limit || ((|lits| == ll || at == |src|) && |src| <= at + 2)
       else |lits| == ll && at == |src|
  }

  ghost predicate Moves(src: bytes, c: Config, ip: nat, h: bytes, r: bytes, m: Move)
    requires ip < |src|
  {
    match m
    case Ends(lits, ll, low) =>
      && low < 16 && At(src, ip, RunStart(ll, low) + lits) && r == h + lits
      && EndsWell(src, c, ip + 1 + ExtensionSize(ll) + |lits|, lits, ll, r)
    case Takes(s, cut) =>
      && ReadableSeqn(s, |h|) && At(src, ip, EncodeSeqn(s)) && cut <= s.mlen
      && var next, h1 := ip + |EncodeSeqn(s)|, CopyMatch(h + s.literals, s.offset, cut);
         && next < |src| && InRange(c, h1) && (cut == s.mlen || (c.partial && |h1| == c.limit))
         && (Start(src, c, next, h1) == Decoded(r) || (c.partial && |h1| == c.limit && r == h1))
  }

  lemma NibblesOf(token: byte, ll: nat, ml: nat)
    requires Nibble(ll) == token / 16 && Nibble(ml) == token % 16
    ensures token == Token(ll, ml)
  {
  }

  lemma {:induction false} AtJoin(src: bytes, ip: nat, a: bytes, b: bytes)
    requires At(src, ip, a) && At(src, ip + |a|, b)
    ensures At(src, ip, a + b)
  {
    assert src[ip..ip + |a| + |b|] == src[ip..ip + |a|] + src[ip + |a|..ip + |a| + |b|];
  }

  lemma {:induction false} OffsetBytes(src: bytes, ip: nat)
    requires ip + 2 <= |src|
    ensures ReadLE16(src, ip) < WINDOW && At(src, ip, LE16(ReadLE16(src, ip)))
  {
    var lo: int, hi: int := src[ip], src[ip + 1];
    assert LE16(ReadLE16(src, ip)) == [lo, hi];
  }

  /** From the match length on. `ll` literals have been read from `p - ll - 2` on. */
  lemma {:induction false} MatchMoves(src: bytes, c: Config, ip: nat, h: bytes, ll: nat, p: nat, offset: nat, r: bytes)
      returns (m: Move)
    requires ip < |src| && InRange(c, h) && p < |src| && ll + 2 <= p && Nibble(ll) == src[ip] / 16
    requires ip + 1 + ExtensionSize(ll) + ll + 2 == p && At(src, ip + 1, Extension(ll))
    requires offset == ReadLE16(src, p - 2) && |h| + ll <= c.limit
    requires var h1 := h + src[p - 2 - ll..p - 2]; MatchLength(src, c, src[ip], p, offset, h1) == Decoded(r)
    ensures m.Takes? && Moves(src, c, ip, h, r, m)
  {
    hide Start, MatchLength, MatchCopy, CopyMatch, Extension, ReadLength, EncodeSeqn;
    var token, lits := src[ip], src[p - 2 - ll..p - 2];
    var h1 := h + lits;
    var next, ml := p, token % 16;
    if ml == RUN_MASK {
      MatchLengthLong(src, c, token, p, offset, h1);
      var f := ReadLength(src, p, |src| - LASTLITERALS + 1, false);
      LengthIsExtension(src, p, |src| - LASTLITERALS + 1, false);
      next, ml := f.next, RUN_MASK + f.value;
    } else {
      MatchLengthShort(src, c, token, p, offset, h1);
    }
    NibblesOf(token, ll, ml);
    var s := Seqn(lits, offset, ml + MINMATCH);
    SeqnBytes(src, ip, s, next);
    var cut := CopyMoves(src, c, next, offset, ml + MINMATCH, h1, r);
    m := Takes(s, cut);
  }

  lemma {:induction false} SeqnBytes(src: bytes, ip: nat, s: Seqn, next: nat)
    requires MINMATCH <= s.mlen && s.offset < WINDOW
    requires ip < |src| && src[ip] == Token(|s.literals|, s.mlen - MINMATCH)
    requires At(src, ip + 1, Extension(|s.literals|))
    requires var p := ip + 1 + ExtensionSize(|s.literals|);
      && At(src, p, s.literals)
      && p + |s.literals| + 2 <= next <= |src| && s.offset == ReadLE16(src, p + |s.literals|)
      && src[p + |s.literals| + 2..next] == Extension(s.mlen - MINMATCH)
    ensures At(src, ip, EncodeSeqn(s)) && ip + |EncodeSeqn(s)| == next
  {
    hide Extension, Token, LE16, ReadLE16;
    var t, e, lits := [Token(|s.literals|, s.mlen - MINMATCH)], Extension(|s.literals|), s.literals;
    OffsetBytes(src, ip + 1 + |e| + |lits|);
    AtFive(src, ip, t, e, lits, LE16(s.offset), Extension(s.mlen - MINMATCH));
  }

  lemma {:induction false} AtFive(src: bytes, ip: nat, a: bytes, b: bytes, c: bytes, d: bytes, e: bytes)
    requires At(src, ip, a) && At(src, ip + |a|, b) && At(src, ip + |a| + |b|, c)
    requires At(src, ip + |a| + |b| + |c|, d) && At(src, ip + |a| + |b| + |c| + |d|, e)
    ensures At(src, ip, a + b + c + d + e)
  {
    hide At;
    AtJoin(src, ip, a, b);
    AtJoin(src, ip, a + b, c);
    AtJoin(src, ip, a + b + c, d);
    AtJoin(src, ip, a + b + c + d, e);
  }

  /** The copy of a match on the way to `r`. */
  lemma {:induction false} CopyMoves(src: bytes, c: Config, ip: nat, offset: nat, ml: nat, h: bytes, r: bytes)
      returns (cut: nat)
    requires ip < |src| && InRange(c, h) && MatchCopy(src, c, ip, offset, ml, h) == Decoded(r)
    ensures offset <= |h| && cut <= ml
    ensures var h1 := CopyMatch(h, offset, cut);
      && InRange(c, h1) && (cut == ml || (c.partial && |h1| == c.limit))
      && (Start(src, c, ip, h1) == Decoded(r) || (c.partial && |h1| == c.limit && r == h1))
  {
    hide Start, CopyMatch;
    cut := if c.partial then Min(ml, c.limit - |h|) else ml;
  }

  /** A run of literals on the way to `r`. */
  lemma {:induction false} RunMoves(src: bytes, c: Config, ip: nat, h: bytes, ll: nat, p: nat, r: bytes)
      returns (m: Move)
    requires ip < |src| && InRange(c, h) && Nibble(ll) == src[ip] / 16
    requires ip + 1 + ExtensionSize(ll) == p <= |src| && At(src, ip + 1, Extension(ll))
    requires Literals(src, c, src[ip], p, ll, h) == Decoded(r)
    ensures Moves(src, c, ip, h, r, m)
  {
    hide Start, MatchLength, MatchCopy, CopyMatch, Extension;
    if |h| + ll > c.limit - MFLIMIT || p + ll > |src| - (2 + 1 + LASTLITERALS) {
      var n := if c.partial then Min(Min(ll, |src| - p), c.limit - |h|) else |src| - p;
      if c.partial && |h| + n < c.limit && p + n < |src| - 2 {
        m := MatchMoves(src, c, ip, h, ll, p + ll + 2, ReadLE16(src, p + ll), r);
      } else {
        m := Ends(src[p..p + n], ll, src[ip] % 16);
        assert [16 * Nibble(ll) + src[ip] % 16] == [src[ip]];
        RunBytes(src, ip, ll, src[p..p + n]);
      }
    } else {
      m := MatchMoves(src, c, ip, h, ll, p + ll + 2, ReadLE16(src, p + ll), r);
    }
  }

  lemma {:induction false} RunBytes(src: bytes, ip: nat, ll: nat, lits: bytes)
    requires ip < |src| && Nibble(ll) == src[ip] / 16 && At(src, ip + 1, Extension(ll))
    requires At(src, ip + 1 + ExtensionSize(ll), lits)
    ensures At(src, ip, RunStart(ll, src[ip] % 16) + lits)
  {
    hide Extension;
    var t := [16 * Nibble(ll) + src[ip] % 16];
    assert t == [src[ip]] && At(src, ip, t);
    AtJoin(src, ip, t, Extension(ll));
    AtJoin(src, ip, t + Extension(ll), lits);
  }

  lemma {:induction false} StartMoves(src: bytes, c: Config, ip: nat, h: bytes, r: bytes) returns (m: Move)
    requires ip < |src| && InRange(c, h) && Start(src, c, ip, h) == Decoded(r)
    ensures Moves(src, c, ip, h, r, m)
  {
    hide Start, MatchLength, MatchCopy, Literals, CopyMatch, ReadLength, Moves;
    var token, ll := src[ip], src[ip] / 16;
    if Shortcut(src, c, ip, |h|) {
      m := ShortcutMoves(src, c, ip, h, r);
    } else if ll == RUN_MASK {
      StartLong(src, c, ip, h);
      var f := ReadLength(src, ip + 1, |src| - RUN_MASK, true);
      LengthIsExtension(src, ip + 1, |src| - RUN_MASK, true);
      m := RunMoves(src, c, ip, h, RUN_MASK + f.value, f.next, r);
    } else {
      StartPlain(src, c, ip, h);
      assert At(src, ip + 1, Extension(ll));
      m := RunMoves(src, c, ip, h, ll, ip + 1, r);
    }
  }

  lemma {:induction false} ShortcutMoves(src: bytes, c: Config, ip: nat, h: bytes, r: bytes) returns (m: Move)
    requires ip < |src| && InRange(c, h) && Shortcut(src, c, ip, |h|) && Start(src, c, ip, h) == Decoded(r)
    ensures Moves(src, c, ip, h, r, m)
  {
    hide Start, MatchLength, MatchCopy, Literals, CopyMatch, EncodeSeqn;
    var token, ll := src[ip], src[ip] / 16;
    var p, offset, lits := ip + ll + 3, ReadLE16(src, ip + 1 + ll), src[ip + 1..ip + 1 + ll];
    StartShortcut(src, c, ip, h);
    assert At(src, ip + 1, Extension(ll));
    if ShortMatch(token, offset, |h + lits| - c.ext) {
      var ml := token % 16;
      NibblesOf(token, ll, ml);
      var s := Seqn(lits, offset, ml + MINMATCH);
      assert src[p..p] == Extension(ml);
      SeqnBytes(src, ip, s, p);
      m := Takes(s, s.mlen);
    } else {
      m := MatchMoves(src, c, ip, h, ll, p, offset, r);
    }
  }

  // ----- Whole blocks -----

  lemma {:induction false} AtEnd(src: bytes, ip: nat, e: bytes)
    requires At(src, ip, e) && ip + |e| == |src|
    ensures src[ip..] == e
  {
  }

  /** A full decoding that succeeds has read sequences and a last run up to the last byte of the input. */
  lemma {:induction false} SoundFrom(src: bytes, c: Config, ip: nat, h: bytes, r: bytes)
      returns (ss: seq<Seqn>, last: bytes, low: nat)
    requires ip < |src| && InRange(c, h) && !c.partial && Start(src, c, ip, h) == Decoded(r)
    ensures Reads(src[ip..], h, ss, last, low, r) && |r| <= c.limit
    decreases |src| - ip
  {
    hide Start, CopyMatch, EncodeSeqn, RunStart, Extension;
    var m := StartMoves(src, c, ip, h, r);
    match m {
      case Ends(lits, ll, nib) =>
        AtEnd(src, ip, RunStart(ll, nib) + lits);
        ss, last, low := [], lits, nib;
        assert RunStart(ll, nib) + lits == [] + (RunStart(ll, nib) + lits);
      case Takes(s, _) =>
        var next := ip + |EncodeSeqn(s)|;
        var h1 := CopyMatch(h + s.literals, s.offset, s.mlen);
        var tail;
        tail, last, low := SoundFrom(src, c, next, h1, r);
        ss := [s] + tail;
        assert ss[1..] == tail;
        assert src[ip..] == EncodeSeqn(s) + src[next..];
    }
  }

  /** Success means that there was a block: the bytes of some sequences and a last run, exactly, and the
      output is what they expand to. In particular no decoding of the empty input succeeds. */
  lemma {:induction false} DecodedWasBlock(src: bytes, hist: bytes, ext: nat, cap: nat, r: bytes)
    requires ext <= |hist| && Decompress(src, hist, ext, cap, false) == Decoded(r)
    ensures StandsFor(src, hist, r) && |r| <= |hist| + cap && 0 < |src|
  {
    hide Start, Reads;
    if cap == 0 {
      EmptyReads(src, hist);
    } else {
      var ss, last, low := SoundFrom(src, Config(|hist| + cap, ext, false), 0, hist, r);
      assert src[0..] == src;
    }
  }

  lemma {:induction false} EmptyReads(src: bytes, h: bytes)
    requires src == [0]
    ensures Reads(src, h, [], [], 0, h)
  {
    assert RunStart(0, 0) == [0];
    assert src == [] + (RunStart(0, 0) + []);
    assert h == h + [];
  }

  // ----- Partial decoding -----

  /** What a partial decoding has read: whole sequences, the match of the last one perhaps cut, and perhaps
      the beginning of a run. It ends because the output is full or the input has no more to offer. */
  ghost predicate ReadsPart(src: bytes, h: bytes, limit: nat, ss: seq<Seqn>, lits: bytes, ll: nat, low: nat, r: bytes) {
    && low < 16 && Readable(|h|, ss) && |lits| <= ll
    && var e := SeqnsBytes(|h|, ss);
       && e <= src && h <= r <= Unfold(h, ss) + lits && |r| <= limit
       && (lits != [] || |r| < limit ==> e + (RunStart(ll, low) + lits) <= src)
       && (|r| < limit ==>
             && r == Unfold(h, ss) + lits
             && var at := |e| + |RunStart(ll, low)| + |lits|;
                (|lits| == ll || at == |src|) && |src| <= at + 2)
  }

  ghost predicate StandsForPart(src: bytes, h: bytes, limit: nat, r: bytes) {
    exists ss, lits, ll, low :: ReadsPart(src, h, limit, ss, lits, ll, low, r)
  }

  lemma {:induction false} PartFrom(src: bytes, c: Config, ip: nat, h: bytes, r: bytes)
      returns (ss: seq<Seqn>, lits: bytes, ll: nat, low: nat)
    requires ip < |src| && InRange(c, h) && c.partial && Start(src, c, ip, h) == Decoded(r)
    ensures ReadsPart(src[ip..], h, c.limit, ss, lits, ll, low, r)
    decreases |src| - ip
  {
    hide Start, CopyMatch, EncodeSeqn, RunStart, Extension;
    var m := StartMoves(src, c, ip, h, r);
    match m {
      case Ends(run, n, nib) =>
        ss, lits, ll, low := [], run, n, nib;
        var e := RunStart(n, nib) + run;
        assert [] + e == e && e <= src[ip..];
      case Takes(s, cut) =>
        var next := ip + |EncodeSeqn(s)|;
        var h1 := CopyMatch(h + s.literals, s.offset, cut);
        assert src[ip..] == EncodeSeqn(s) + src[next..];
        if |h1| == c.limit {
          if r != h1 { StartFull(src, c, next, h1); }
          ss, lits, ll, low := [s], [], 0, 0;
          OneSeqn(h, s, cut);
        } else {
          var tail;
          tail, lits, ll, low := PartFrom(src, c, next, h1, r);
          ss := [s] + tail;
          PartNext(src[next..], h, c.limit, s, tail, lits, ll, low, r);
        }
    }
  }

  lemma {:induction false} OneSeqn(h: bytes, s: Seqn, cut: nat)
    requires ReadableSeqn(s, |h|) && cut <= s.mlen
    ensures Readable(|h|, [s]) && SeqnsBytes(|h|, [s]) == EncodeSeqn(s)
    ensures h <= CopyMatch(h + s.literals, s.offset, cut) <= Unfold(h, [s]) + []
  {
    hide CopyMatch, EncodeSeqn;
    var ss := [s];
    assert ss[1..] == [];
    var a := h + s.literals;
    CopyMatchPrefix(a, s.offset, cut, s.mlen);
    assert h <= a <= CopyMatch(a, s.offset, cut);
    var u := CopyMatch(a, s.offset, s.mlen);
    assert Unfold(u, ss[1..]) == u;
    assert EncodeSeqn(s) + [] == EncodeSeqn(s) && u + [] == u;
  }

  lemma {:induction false} PartNext(rest: bytes, h: bytes, limit: nat, s: Seqn, tail: seq<Seqn>, lits: bytes, ll: nat,
      low: nat, r: bytes)
    requires ReadableSeqn(s, |h|)
    requires ReadsPart(rest, CopyMatch(h + s.literals, s.offset, s.mlen), limit, tail, lits, ll, low, r)
    ensures ReadsPart(EncodeSeqn(s) + rest, h, limit, [s] + tail, lits, ll, low, r)
  {
    hide CopyMatch, EncodeSeqn, RunStart;
    var ss := [s] + tail;
    assert ss[1..] == tail;
    var h1 := CopyMatch(h + s.literals, s.offset, s.mlen);
    assert h <= h + s.literals <= h1;
    var e := SeqnsBytes(|h1|, tail);
    var t := RunStart(ll, low) + lits;
    assert EncodeSeqn(s) + e + t == EncodeSeqn(s) + (e + t);
  }

  /** A partial decoding that succeeds gives a prefix of what the sequences in the input expand to, and all
      of it unless the output is full. */
  lemma {:induction false} PartialWasBlock(src: bytes, hist: bytes, ext: nat, cap: nat, r: bytes)
    requires ext <= |hist| && Decompress(src, hist, ext, cap, true) == Decoded(r)
    ensures if cap == 0 then r == hist
            else StandsForPart(src, hist, |hist| + cap, r)
    ensures cap > 0 ==> 0 < |src|
  {
    hide Start, ReadsPart;
    if cap > 0 {
      var ss, lits, ll, low := PartFrom(src, Config(|hist| + cap, ext, true), 0, hist, r);
      assert src[0..] == src;
    }
  }

  /** The only decodings left open are partial ones of inputs that hold an offset of 0. */
  lemma {:induction false} SpecifiedUnless(src: bytes, hist: bytes, ext: nat, cap: nat, partial: bool)
    requires ext <= |hist|
    ensures Decompress(src, hist, ext, cap, partial).Unspecified? ==> partial && ZeroOffset(src, 0)
  {
    hide Start;
    if cap > 0 && |src| > 0 { ErrorStart(src, Config(|hist| + cap, ext, partial), 0, hist); }
  }

  // ----- The converse -----

  lemma {:induction false} UnfoldGrows(h: bytes, ss: seq<Seqn>)
    requires Readable(|h|, ss) && ss != []
    ensures |Unfold(h, ss)| >= |h| + ss[|ss| - 1].mlen
    decreases |ss|
  {
    hide CopyMatch;
    if |ss| > 1 {
      UnfoldGrows(CopyMatch(h + ss[0].literals, ss[0].offset, ss[0].mlen), ss[1..]);
    }
  }

  /** A sequence far enough from the end of input and output is taken, whatever its offset. */
  lemma {:induction false} TakesSeqn(src: bytes, c: Config, ip: nat, h: bytes, s: Seqn)
    requires InRange(c, h) && !c.partial && ReadableSeqn(s, |h|)
    requires At(src, ip, EncodeSeqn(s)) && ip + |EncodeSeqn(s)| + LASTLITERALS < |src|
    requires |h| + |s.literals| + MFLIMIT <= c.limit && |h| + |s.literals| + s.mlen + LASTLITERALS <= c.limit
    ensures ip < |src|
    ensures Start(src, c, ip, h)
         == Start(src, c, ip + |EncodeSeqn(s)|, CopyMatch(h + s.literals, s.offset, s.mlen))
  {
    hide Start, Literals, MatchLength, MatchCopy, CopyMatch, At, EncodeSeqn, EncodeLiterals, Extension, ReadLE16;
    var ll, ml, h1 := |s.literals|, s.mlen - MINMATCH, h + s.literals;
    var p := ip + 1 + ExtensionSize(ll);
    SeqnFields(src, ip, s);
    LiteralFields(src, ip, s.literals, ml);
    TokenNibbles(ll, ml);
    MatchField(src, c, ll, p + ll + 2, s.offset, ml, h1);
    if s.offset > |h1| - c.ext {
      MatchCopyExt(src, c, ip + |EncodeSeqn(s)|, s.offset, s.mlen, h1);
    } else {
      MatchCopyPrefix(src, c, ip + |EncodeSeqn(s)|, s.offset, s.mlen, h1);
    }
    if Shortcut(src, c, ip, |h|) {
      StartShort(src, c, ip, h, s.literals);
    } else {
      StartLiterals(src, c, ip, h, s.literals, ml);
      LiteralsThrough(src, c, Token(ll, ml), p, s.literals, h);
    }
  }

  lemma {:induction false} TakesRun(src: bytes, c: Config, ip: nat, h: bytes, last: bytes, low: nat)
    requires InRange(c, h) && !c.partial && low < 16 && |h| + |last| <= c.limit
    requires At(src, ip, RunStart(|last|, low) + last) && ip + |RunStart(|last|, low) + last| == |src|
    ensures ip < |src| && Start(src, c, ip, h) == Decoded(h + last)
  {
    hide Start, Literals, EncodeLiterals, At;
    RunIsLiterals(last, low);
    DecodeStop(src, c, ip, h, last, low);
    assert (h + last)[..|h| + |last|] == h + last;
  }

  lemma RunIsLiterals(last: bytes, low: nat)
    requires low < 16
    ensures RunStart(|last|, low) + last == EncodeLiterals(last, low)
  {
  }

  lemma {:induction false} AcceptFrom(src: bytes, c: Config, ip: nat, h: bytes, ss: seq<Seqn>, last: bytes, low: nat)
    requires InRange(c, h) && !c.partial && low < 16 && Readable(|h|, ss) && EndOk(ss, last)
    requires |Unfold(h, ss)| + |last| <= c.limit
    requires var b := SeqnsBytes(|h|, ss) + (RunStart(|last|, low) + last); At(src, ip, b) && ip + |b| == |src|
    ensures ip < |src| && Start(src, c, ip, h) == Decoded(Unfold(h, ss) + last)
    decreases |ss|
  {
    hide Start, CopyMatch, EncodeSeqn, RunStart, At;
    var run := RunStart(|last|, low) + last;
    if ss == [] {
      assert [] + run == run;
      TakesRun(src, c, ip, h, last, low);
    } else {
      var s, tail := ss[0], ss[1..];
      var h1 := CopyMatch(h + s.literals, s.offset, s.mlen);
      var rest := SeqnsBytes(|h1|, tail) + run;
      assert SeqnsBytes(|h|, ss) + run == EncodeSeqn(s) + rest;
      AtSplit(src, ip, EncodeSeqn(s), rest);
      if tail != [] {
        assert tail[|tail| - 1] == ss[|ss| - 1];
        UnfoldGrows(h1, tail);
      }
      TakesSeqn(src, c, ip, h, s);
      AcceptFrom(src, c, ip + |EncodeSeqn(s)|, h1, tail, last, low);
    }
  }

  /** Conversely, whatever reads as sequences and a last run by the end-of-block rules decodes to what it
      stands for, offsets of 0 and any low nibble of the last token included. */
  lemma {:induction false} BlockDecoded(src: bytes, hist: bytes, ext: nat, cap: nat, ss: seq<Seqn>, last: bytes,
      low: nat, r: bytes)
    requires Reads(src, hist, ss, last, low, r) && EndOk(ss, last) && ext <= |hist| && |r| <= |hist| + cap && 0 < cap
    ensures Decompress(src, hist, ext, cap, false) == Decoded(r)
  {
    hide Start, RunStart;
    assert src[0..|src|] == src;
    AcceptFrom(src, Config(|hist| + cap, ext, false), 0, hist, ss, last, low);
  }

  /** A block that a compressor has made is a block in this sense. */
  lemma {:induction false} BlockStandsFor(h: bytes, content: bytes, block: bytes)
    requires IsBlockOf(h, content, block)
    ensures StandsFor(block, h, h + content)
  {
    hide IsBlockOf, Decompress, StandsFor;
    BlockDecodes(h, content, block, 0, |content|, false);
    assert (h + content)[..|h| + |content|] == h + content;
    DecodedWasBlock(block, h, 0, |content|, h + content);
  }
}
