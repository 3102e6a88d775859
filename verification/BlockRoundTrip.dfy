/**
  Every block that respects the format is decoded to its content, in every dictionary
  layout; a partial decoding stops at exactly the requested prefix.
*/
module BlockRoundTrip {
  import opened Bytes
  import opened BlockFormat
  import opened BlockDecoderSpec

  /** `e` stands at position `ip` of `src`. */
  ghost predicate At(src: bytes, ip: nat, e: bytes) {
    ip + |e| <= |src| && src[ip..ip + |e|] == e
  }

  lemma {:induction false} AtSplit(src: bytes, ip: nat, a: bytes, b: bytes)
    requires At(src, ip, a + b)
    ensures At(src, ip, a)
    ensures At(src, ip + |a|, b)
  {
    var e := a + b;
    assert src[ip..ip + |e|][..|a|] == src[ip..ip + |a|];
    assert e[..|a|] == a;
    assert src[ip..ip + |e|][|a|..] == src[ip + |a|..ip + |a| + |b|];
    assert e[|a|..] == b;
  }

  // ----- Prefixes of a parse -----

  lemma {:induction false} ParsePrefix(h: bytes, ss: seq<Seqn>, i: nat)
    requires ParseOk(|h|, ss) && i <= |ss|
    ensures ParseOk(|h|, ss[..i])
    ensures ParseLength(ss[..i]) + MINMATCH * (|ss| - i) <= ParseLength(ss)
    ensures Expand(h, ss[..i]) <= Expand(h, ss)
    ensures EncodeSeqns(|h|, ss[..i]) <= EncodeSeqns(|h|, ss)
    decreases |ss|
  {
    hide ApplySeqn, EncodeSeqn;
    if i == |ss| {
      assert ss[..i] == ss;
    } else {
      var t := ss[..|ss| - 1];
      ParsePrefix(h, t, i);
      assert t[..i] == ss[..i];
    }
  }

  lemma {:induction false} ParseStep(h: bytes, ss: seq<Seqn>, i: nat)
    requires ParseOk(|h|, ss) && i < |ss|
    ensures ParseOk(|h|, ss[..i]) && ParseOk(|h|, ss[..i + 1])
    ensures SeqnOk(ss[i], |h| + ParseLength(ss[..i]))
    ensures Expand(h, ss[..i + 1]) == ApplySeqn(Expand(h, ss[..i]), ss[i])
    ensures EncodeSeqns(|h|, ss[..i + 1]) == EncodeSeqns(|h|, ss[..i]) + EncodeSeqn(ss[i])
  {
    hide ApplySeqn, EncodeSeqn, SeqnOk;
    ParsePrefix(h, ss, i);
    ParsePrefix(h, ss, i + 1);
    var t := ss[..i + 1];
    assert t[..|t| - 1] == ss[..i];
  }

  lemma {:induction false} ParseGrowth(h: bytes, ss: seq<Seqn>, i: nat)
    requires ParseOk(|h|, ss) && 1 <= i <= |ss|
    ensures ParseOk(|h|, ss[..i])
    ensures |Expand(h, ss[..i])| <= |Expand(h, ss)|
    ensures i < |ss| ==> |Expand(h, ss[..i])| + ss[|ss| - 1].mlen <= |Expand(h, ss)|
  {
    hide *;
    ParsePrefix(h, ss, i);
    if i < |ss| {
      ParseStep(h, ss, |ss| - 1);
      ParsePrefix(h, ss[..|ss| - 1], i);
      assert ss[..|ss| - 1][..i] == ss[..i];
      assert ss[..|ss|] == ss;
    }
  }

  lemma {:induction false} LastMatch(h: bytes, ss: seq<Seqn>, last: bytes)
    requires Conforming(|h|, ss, last) && ss != []
    ensures LASTLITERALS <= |last| && MFLIMIT <= ss[|ss| - 1].mlen + |last|
    ensures |Content(h, ss, last)| == |Expand(h, ss)| + |last|
    ensures ParseOk(|h|, ss)
  {
    hide ParseOk, Expand;
  }

  /** Where the matches of a conforming block lie relative to the end of its content. */
  lemma {:induction false} MatchPositions(h: bytes, ss: seq<Seqn>, last: bytes, i: nat)
    requires Conforming(|h|, ss, last) && i < |ss|
    ensures ParseOk(|h|, ss[..i]) && ParseOk(|h|, ss[..i + 1])
    ensures |Expand(h, ss[..i + 1])| + LASTLITERALS <= |Content(h, ss, last)|
    ensures |Expand(h, ss[..i])| + |ss[i].literals| + MFLIMIT <= |Content(h, ss, last)|
  {
    hide *;
    LastMatch(h, ss, last);
    ParseStep(h, ss, i);
    ParseGrowth(h, ss, i + 1);
  }

  // ----- One field -----

  lemma {:induction false} ReadRepeat(src: bytes, ip: nat, ilimit: int, q: nat, r: byte, acc: nat)
    requires At(src, ip, Repeat(255, q) + [r]) && r < 255
    requires ip + q + 1 <= ilimit < |src|
    ensures ReadMore(src, ip, ilimit, acc) == Length(acc + 255 * q + r, ip + q + 1)
    decreases q
  {
    AtSplit(src, ip, Repeat(255, q), [r]);
    if q == 0 {
      assert src[ip] == src[ip..ip + 1][0];
    } else {
      assert src[ip] == src[ip..ip + q][0];
      var e := Repeat(255, q - 1) + [r];
      assert Repeat(255, q) + [r] == [255] + e;
      AtSplit(src, ip, [255], e);
      ReadRepeat(src, ip + 1, ilimit, q - 1, r, acc + 255);
    }
  }

  /** The reader of a length field undoes its encoder. */
  lemma {:induction false} ReadExtension(src: bytes, ip: nat, ilimit: int, n: nat, check: bool)
    requires n >= RUN_MASK && At(src, ip, Extension(n))
    requires ip + ExtensionSize(n) <= ilimit < |src|
    ensures ReadLength(src, ip, ilimit, check) == Length(n - RUN_MASK, ip + ExtensionSize(n))
  {
    var q, r := (n - RUN_MASK) / 255, (n - RUN_MASK) % 255;
    ReadRepeat(src, ip, ilimit, q, r, 0);
    assert n - RUN_MASK == 255 * q + r;
  }

  // ----- One sequence -----

  lemma {:induction false} TokenNibbles(ll: nat, ml: nat)
    ensures Token(ll, ml) / 16 == Nibble(ll) && Token(ll, ml) % 16 == Nibble(ml)
  {
  }

  lemma {:induction false} LiteralFields(src: bytes, ip: nat, lits: bytes, ml: nat)
    requires At(src, ip, EncodeLiterals(lits, ml))
    ensures ip < |src| && src[ip] == Token(|lits|, ml)
    ensures At(src, ip + 1, Extension(|lits|))
    ensures At(src, ip + 1 + ExtensionSize(|lits|), lits)
  {
    hide Token, Extension, ExtensionSize;
    var token, e := Token(|lits|, ml), Extension(|lits|);
    AtSplit(src, ip, [token] + e, lits);
    AtSplit(src, ip, [token], e);
    assert src[ip] == src[ip..ip + 1][0];
  }

  /** From the token of a run of literals to the label that copies them. */
  lemma {:induction false} StartLiterals(src: bytes, c: Config, ip: nat, h: bytes, lits: bytes, ml: nat)
    requires InRange(c, h)
    requires At(src, ip, EncodeLiterals(lits, ml))
    requires !Shortcut(src, c, ip, |h|)
    ensures Start(src, c, ip, h)
         == Literals(src, c, Token(|lits|, ml), ip + 1 + ExtensionSize(|lits|), |lits|, h)
    ensures At(src, ip + 1 + ExtensionSize(|lits|), lits)
  {
    hide Literals, MatchLength, EncodeLiterals, Token;
    LiteralFields(src, ip, lits, ml);
    TokenNibbles(|lits|, ml);
    if |lits| >= RUN_MASK {
      ReadExtension(src, ip + 1, |src| - RUN_MASK, |lits|, true);
    }
  }

  /** Literals that are not cut, followed by a match. */
  lemma {:induction false} LiteralsThrough(src: bytes, c: Config, token: byte, ip: nat, lits: bytes, h: bytes)
    requires InRange(c, h) && At(src, ip, lits) && ip + |lits| + 2 + 1 + LASTLITERALS <= |src|
    requires |h| + |lits| < c.limit
    requires !c.partial ==> |h| + |lits| + MFLIMIT <= c.limit
    ensures Literals(src, c, token, ip, |lits|, h)
         == MatchLength(src, c, token, ip + |lits| + 2, ReadLE16(src, ip + |lits|), h + lits)
  {
    hide MatchLength;
  }

  /** Literals that end the output, in the last run or cut by a partial decoding. */
  lemma {:induction false} LiteralsStop(src: bytes, c: Config, token: byte, ip: nat, lits: bytes, h: bytes)
    requires InRange(c, h) && At(src, ip, lits)
    requires c.partial || |h| + |lits| <= c.limit
    requires ip + |lits| == |src| || (c.partial && c.limit <= |h| + |lits|)
    ensures Literals(src, c, token, ip, |lits|, h) == Decoded((h + lits)[..Min(|h| + |lits|, c.limit)])
  {
    hide MatchLength;
    var n := Min(|lits|, c.limit - |h|);
    assert src[ip..ip + n] == src[ip..ip + |lits|][..n] == lits[..n];
    assert (h + lits)[..|h| + n] == h + lits[..n];
    assert ip + |lits| == |src| ==> src[ip..] == src[ip..ip + |lits|];
  }

  /** From the match length field of a sequence to the copy. */
  lemma {:induction false} MatchField(src: bytes, c: Config, ll: nat, ip: nat, offset: nat, ml: nat, h: bytes)
    requires InRange(c, h) && offset < WINDOW
    requires At(src, ip, Extension(ml)) && ip + ExtensionSize(ml) + LASTLITERALS < |src|
    ensures MatchLength(src, c, Token(ll, ml), ip, offset, h)
         == MatchCopy(src, c, ip + ExtensionSize(ml), offset, ml + MINMATCH, h)
  {
    hide MatchCopy;
    TokenNibbles(ll, ml);
    if ml >= RUN_MASK {
      ReadExtension(src, ip, |src| - LASTLITERALS + 1, ml, false);
    }
  }

  /** The two outcomes of the shortcut. */
  lemma {:induction false} StartShort(src: bytes, c: Config, ip: nat, h: bytes, lits: bytes)
    requires ip < |src| && InRange(c, h) && Shortcut(src, c, ip, |h|)
    requires |lits| == src[ip] / 16 && At(src, ip + 1, lits)
    ensures var offset := ReadLE16(src, ip + 1 + |lits|);
            var next := ip + 1 + |lits| + 2;
            && InRange(c, h + lits)
            && if ShortMatch(src[ip], offset, |h + lits| - c.ext) then
                 && |h + lits| + src[ip] % 16 + MINMATCH <= c.limit
                 && Start(src, c, ip, h)
                 == Start(src, c, next, CopyMatch(h + lits, offset, src[ip] % 16 + MINMATCH))
               else
                 Start(src, c, ip, h) == MatchLength(src, c, src[ip], next, offset, h + lits)
  {
    hide Literals, MatchLength;
    assert src[ip + 1..ip + 1 + |lits|] == lits;
  }

  lemma {:induction false} ReadOffset(src: bytes, ip: nat, offset: nat)
    requires offset < WINDOW && At(src, ip, LE16(offset))
    ensures ReadLE16(src, ip) == offset
  {
    var s := src[ip..ip + 2];
    assert src[ip] == s[0] && src[ip + 1] == s[1];
  }

  /** The fields of an encoded sequence, in order. */
  lemma {:induction false} SeqnFields(src: bytes, ip: nat, s: Seqn)
    requires s.offset < WINDOW && MINMATCH <= s.mlen
    requires At(src, ip, EncodeSeqn(s))
    ensures At(src, ip, EncodeLiterals(s.literals, s.mlen - MINMATCH))
    ensures var p := ip + 1 + ExtensionSize(|s.literals|);
            && At(src, p, s.literals)
            && p + |s.literals| + 2 <= |src|
            && ReadLE16(src, p + |s.literals|) == s.offset
            && At(src, p + |s.literals| + 2, Extension(s.mlen - MINMATCH))
    ensures src[ip] == Token(|s.literals|, s.mlen - MINMATCH)
  {
    hide Token, Extension, EncodeLiterals;
    var ml := s.mlen - MINMATCH;
    var lits, off, ext := EncodeLiterals(s.literals, ml), LE16(s.offset), Extension(ml);
    AtSplit(src, ip, lits + off, ext);
    AtSplit(src, ip, lits, off);
    LiteralFields(src, ip, s.literals, ml);
    ReadOffset(src, ip + |lits|, s.offset);
  }

  /** The copy of a match that ends inside the output. */
  lemma {:induction false} CopyInside(src: bytes, c: Config, ip: nat, offset: nat, ml: nat, h: bytes)
    requires ip < |src| && InRange(c, h) && 1 <= offset <= |h|
    requires |h| + ml + LASTLITERALS <= c.limit
    ensures MatchCopy(src, c, ip, offset, ml, h) == Start(src, c, ip, CopyMatch(h, offset, ml))
  {
    hide Start;
  }

  /** The copy of a match in a partial decoding. */
  lemma {:induction false} CopyPartial(src: bytes, c: Config, ip: nat, offset: nat, ml: nat, h: bytes)
    requires ip < |src| && InRange(c, h) && 1 <= offset <= |h| && c.partial
    ensures var n := Min(ml, c.limit - |h|);
            var h1 := CopyMatch(h, offset, n);
            || MatchCopy(src, c, ip, offset, ml, h) == Start(src, c, ip, h1)
            || (|h1| == c.limit && MatchCopy(src, c, ip, offset, ml, h) == Decoded(h1))
  {
    hide Start, CopyMatch;
  }

  /** Decoding reaches the match copy of a sequence whose literals fit. */
  lemma {:induction false} ReachCopy(src: bytes, c: Config, ip: nat, h: bytes, s: Seqn)
    requires InRange(c, h) && SeqnOk(s, |h|)
    requires At(src, ip, EncodeSeqn(s)) && ip + |EncodeSeqn(s)| + LASTLITERALS < |src|
    requires |h| + |s.literals| < c.limit
    requires !c.partial ==> |h| + |s.literals| + MFLIMIT <= c.limit
    ensures var ip2 := ip + |EncodeSeqn(s)|;
            || Start(src, c, ip, h) == MatchCopy(src, c, ip2, s.offset, s.mlen, h + s.literals)
            || ( && |h| + |s.literals| + s.mlen <= c.limit
                 && Start(src, c, ip, h) == Start(src, c, ip2, ApplySeqn(h, s)))
  {
    hide Start, Literals, MatchLength, MatchCopy, CopyMatch, At, EncodeSeqn, EncodeLiterals, Extension, ReadLE16;
    var ll, ml := |s.literals|, s.mlen - MINMATCH;
    var p := ip + 1 + ExtensionSize(ll);
    SeqnFields(src, ip, s);
    TokenNibbles(ll, ml);
    MatchField(src, c, ll, p + ll + 2, s.offset, ml, h + s.literals);
    if Shortcut(src, c, ip, |h|) {
      StartShort(src, c, ip, h, s.literals);
    } else {
      StartLiterals(src, c, ip, h, s.literals, ml);
      LiteralsThrough(src, c, Token(ll, ml), p, s.literals, h);
    }
  }

  // ----- How a sequence ends -----

  /** The last run of literals, or any run at the end of a partial decoding. */
  lemma {:induction false} DecodeStop(src: bytes, c: Config, ip: nat, h: bytes, lits: bytes, ml: nat)
    requires InRange(c, h) && At(src, ip, EncodeLiterals(lits, ml))
    requires c.partial || |h| + |lits| <= c.limit
    requires ip + |EncodeLiterals(lits, ml)| == |src| || (c.partial && c.limit <= |h| + |lits|)
    ensures Start(src, c, ip, h) == Decoded((h + lits)[..Min(|h| + |lits|, c.limit)])
  {
    hide Start, Literals, Extension, EncodeLiterals, At, Token;
    LiteralFields(src, ip, lits, ml);
    TokenNibbles(|lits|, ml);
    StartLiterals(src, c, ip, h, lits, ml);
    LiteralsStop(src, c, Token(|lits|, ml), ip + 1 + ExtensionSize(|lits|), lits, h);
  }

  lemma {:induction false} CopyMatchPrefix(h: bytes, offset: nat, m: nat, n: nat)
    requires offset <= |h| && m <= n
    ensures CopyMatch(h, offset, m) == CopyMatch(h, offset, n)[..|h| + m]
  {
    hide CopyMatch;
    CopyMatchSplit(h, offset, m, n - m);
  }

  lemma {:induction false} DecodeWholeMatch(src: bytes, c: Config, ip: nat, h: bytes, offset: nat, ml: nat, d: bytes)
    requires ip < |src| && InRange(c, h) && 1 <= offset <= |h| && |h| + ml <= c.limit
    requires c.partial || |h| + ml + LASTLITERALS <= c.limit
    requires CopyMatch(h, offset, ml) <= d
    requires Start(src, c, ip, CopyMatch(h, offset, ml)) == Decoded(d[..Min(|d|, c.limit)])
    ensures MatchCopy(src, c, ip, offset, ml, h) == Decoded(d[..Min(|d|, c.limit)])
  {
    hide CopyMatch, Start, MatchCopy;
    if c.partial {
      CopyPartial(src, c, ip, offset, ml, h);
    } else {
      CopyInside(src, c, ip, offset, ml, h);
    }
  }

  lemma {:induction false} DecodeCutMatch(src: bytes, c: Config, ip: nat, h: bytes, offset: nat, ml: nat, lits: bytes,
      next: nat)
    requires c.partial && InRange(c, h) && 1 <= offset <= |h| && c.limit < |h| + ml
    requires At(src, ip, EncodeLiterals(lits, next))
    ensures MatchCopy(src, c, ip, offset, ml, h) == Decoded(CopyMatch(h, offset, ml)[..c.limit])
  {
    hide Start, MatchCopy, CopyMatch;
    var n := c.limit - |h|;
    var h1 := CopyMatch(h, offset, n);
    CopyPartial(src, c, ip, offset, ml, h);
    DecodeStop(src, c, ip, h1, lits, next);
    assert (h1 + lits)[..c.limit] == h1;
    CopyMatchPrefix(h, offset, n, ml);
  }

  // ----- The whole block -----

  /** `src` is the block of a conforming parse. */
  ghost predicate Encoded(src: bytes, h: bytes, ss: seq<Seqn>, last: bytes) {
    Conforming(|h|, ss, last) && src == EncodeBlock(|h|, ss, last)
  }

  /** Position of sequence `i` of an encoded block. */
  ghost function Position(h: bytes, ss: seq<Seqn>, i: nat): nat
    requires ParseOk(|h|, ss) && i <= |ss|
  {
    ParsePrefix(h, ss, i);
    |EncodeSeqns(|h|, ss[..i])|
  }

  lemma {:induction false} PrefixAt(src: bytes, a: bytes, b: bytes)
    requires a + b <= src
    ensures At(src, |a|, b)
  {
    assert src[..|a + b|] == a + b;
    assert src[|a|..|a| + |b|] == src[..|a + b|][|a|..];
  }

  lemma {:induction false} EncodedParts(src: bytes, h: bytes, ss: seq<Seqn>, last: bytes, i: nat)
    requires Encoded(src, h, ss, last) && i <= |ss|
    ensures ParseOk(|h|, ss) && ParseOk(|h|, ss[..i])
    ensures EncodeSeqns(|h|, ss[..i]) <= src
    ensures |EncodeSeqns(|h|, ss[..i])| + 1 + |last| <= |src|
  {
    hide EndOk, ParseOk, EncodeSeqns;
    ParsePrefix(h, ss, i);
  }

  lemma {:induction false} SeqnPlace(src: bytes, h: bytes, ss: seq<Seqn>, last: bytes, i: nat)
    requires Encoded(src, h, ss, last) && i < |ss|
    ensures ParseOk(|h|, ss) && SeqnOk(ss[i], |h| + ParseLength(ss[..i]))
    ensures At(src, Position(h, ss, i), EncodeSeqn(ss[i]))
    ensures Position(h, ss, i + 1) == Position(h, ss, i) + |EncodeSeqn(ss[i])|
    ensures Position(h, ss, i + 1) + LASTLITERALS < |src|
  {
    hide ParseOk, ParseLength, EncodeSeqns, EncodeSeqn, Encoded, At, Position;
    LastRunSize(src, h, ss, last);
    EncodedParts(src, h, ss, last, i + 1);
    ParseStep(h, ss, i);
    PrefixAt(src, EncodeSeqns(|h|, ss[..i]), EncodeSeqn(ss[i]));
    PositionIs(h, ss, i);
    PositionIs(h, ss, i + 1);
  }

  lemma {:induction false} PositionIs(h: bytes, ss: seq<Seqn>, i: nat)
    requires ParseOk(|h|, ss) && i <= |ss|
    ensures ParseOk(|h|, ss[..i])
    ensures Position(h, ss, i) == |EncodeSeqns(|h|, ss[..i])|
  {
    hide ParseOk, EncodeSeqns;
    ParsePrefix(h, ss, i);
  }

  lemma {:induction false} LastRunSize(src: bytes, h: bytes, ss: seq<Seqn>, last: bytes)
    requires Encoded(src, h, ss, last) && ss != []
    ensures ParseOk(|h|, ss) && LASTLITERALS <= |last|
  {
    hide ParseOk, EncodeBlock;
  }

  lemma {:induction false} LastAt(src: bytes, h: bytes, ss: seq<Seqn>, last: bytes)
    requires Encoded(src, h, ss, last)
    ensures ParseOk(|h|, ss)
    ensures At(src, Position(h, ss, |ss|), EncodeLiterals(last, 0))
    ensures Position(h, ss, |ss|) + |EncodeLiterals(last, 0)| == |src|
  {
    hide EndOk, ParseOk, EncodeSeqns, EncodeLiterals, At;
    ParsePrefix(h, ss, |ss|);
    assert ss[..|ss|] == ss;
    PrefixAt(src, EncodeSeqns(|h|, ss), EncodeLiterals(last, 0));
  }

  /** What follows the match of sequence `i`: the next run of literals. */
  lemma {:induction false} RunAt(src: bytes, h: bytes, ss: seq<Seqn>, last: bytes, i: nat)
    returns (lits: bytes, ml: nat)
    requires Encoded(src, h, ss, last) && i <= |ss|
    ensures ParseOk(|h|, ss)
    ensures At(src, Position(h, ss, i), EncodeLiterals(lits, ml))
  {
    hide At, EncodeSeqn, EncodeLiterals, Position, ParseOk, Encoded;
    if i == |ss| {
      LastAt(src, h, ss, last);
      lits, ml := last, 0;
    } else {
      SeqnPlace(src, h, ss, last, i);
      SeqnFields(src, Position(h, ss, i), ss[i]);
      lits, ml := ss[i].literals, ss[i].mlen - MINMATCH;
    }
  }

  /** The decoder has the history `Expand(h, ss[..i])` at sequence `i`: it goes on to produce the
      rest of the content, up to the limit. */
  ghost predicate DecodesFrom(src: bytes, c: Config, h: bytes, ss: seq<Seqn>, last: bytes, i: nat)
    requires ParseOk(|h|, ss) && i <= |ss|
  {
    ParsePrefix(h, ss, i);
    var d := Content(h, ss, last);
    var ip, hi := Position(h, ss, i), Expand(h, ss[..i]);
    ip < |src| && InRange(c, hi) && Start(src, c, ip, hi) == Decoded(d[..Min(|d|, c.limit)])
  }

  lemma {:induction false} ContentPrefix(h: bytes, ss: seq<Seqn>, last: bytes, i: nat)
    requires ParseOk(|h|, ss) && i < |ss|
    ensures ParseOk(|h|, ss[..i]) && ParseOk(|h|, ss[..i + 1])
    ensures SeqnOk(ss[i], |Expand(h, ss[..i])|)
    ensures Expand(h, ss[..i + 1])
         == CopyMatch(Expand(h, ss[..i]) + ss[i].literals, ss[i].offset, ss[i].mlen)
    ensures Expand(h, ss[..i]) + ss[i].literals <= Expand(h, ss[..i + 1]) <= Content(h, ss, last)
  {
    hide ParseOk, Expand, CopyMatch, ParseLength, EncodeSeqns, EncodeSeqn;
    ParseStep(h, ss, i);
    ParsePrefix(h, ss, i + 1);
    var a, b, d := Expand(h, ss[..i]), Expand(h, ss[..i + 1]), Expand(h, ss);
    assert d <= Content(h, ss, last);
    assert b == ApplySeqn(a, ss[i]);
  }

  lemma {:induction false} DecodeFrom(src: bytes, c: Config, h: bytes, ss: seq<Seqn>, last: bytes, i: nat)
    requires Encoded(src, h, ss, last) && i <= |ss|
    requires ParseOk(|h|, ss) && ParseOk(|h|, ss[..i])
    requires InRange(c, Expand(h, ss[..i]))
    requires c.partial || |Content(h, ss, last)| <= c.limit
    ensures DecodesFrom(src, c, h, ss, last, i)
    decreases |ss| - i
  {
    hide Position, ParseOk, Expand, CopyMatch, Start, MatchCopy, At, EncodeSeqn, EncodeLiterals, EncodeSeqns, Encoded;
    ParsePrefix(h, ss, i);
    if i == |ss| {
      assert ss[..i] == ss;
      LastAt(src, h, ss, last);
      DecodeStop(src, c, Position(h, ss, i), Expand(h, ss), last, 0);
    } else {
      SeqnPlace(src, h, ss, last, i);
      ContentPrefix(h, ss, last, i);
      var hi, s := Expand(h, ss[..i]), ss[i];
      if c.limit <= |hi| + |s.literals| {
        DecodeCutLiterals(src, c, h, ss, last, i);
      } else {
        DecodeMatch(src, c, h, ss, last, i);
      }
    }
  }

  lemma {:induction false} DecodeCutLiterals(src: bytes, c: Config, h: bytes, ss: seq<Seqn>, last: bytes, i: nat)
    requires Encoded(src, h, ss, last) && i < |ss| && c.partial
    requires ParseOk(|h|, ss) && ParseOk(|h|, ss[..i])
    requires InRange(c, Expand(h, ss[..i]))
    requires c.limit <= |Expand(h, ss[..i])| + |ss[i].literals|
    ensures DecodesFrom(src, c, h, ss, last, i)
  {
    hide Position, ParseOk, Expand, CopyMatch, Start, At, EncodeSeqn, EncodeLiterals, EncodeSeqns, Encoded;
    var hi, s := Expand(h, ss[..i]), ss[i];
    ContentPrefix(h, ss, last, i);
    SeqnPlace(src, h, ss, last, i);
    SeqnFields(src, Position(h, ss, i), s);
    DecodeStop(src, c, Position(h, ss, i), hi, s.literals, s.mlen - MINMATCH);
  }

  lemma {:induction false} MatchFits(src: bytes, c: Config, h: bytes, ss: seq<Seqn>, last: bytes, i: nat)
    requires Encoded(src, h, ss, last) && i < |ss|
    requires |Content(h, ss, last)| <= c.limit
    ensures ParseOk(|h|, ss[..i]) && ParseOk(|h|, ss[..i + 1])
    ensures |Expand(h, ss[..i + 1])| + LASTLITERALS <= c.limit
    ensures |Expand(h, ss[..i])| + |ss[i].literals| + MFLIMIT <= c.limit
  {
    hide Conforming, Expand, ParseOk, EncodeBlock;
    MatchPositions(h, ss, last, i);
  }

  lemma {:induction false} DecodeMatch(src: bytes, c: Config, h: bytes, ss: seq<Seqn>, last: bytes, i: nat)
    requires Encoded(src, h, ss, last) && i < |ss|
    requires ParseOk(|h|, ss) && ParseOk(|h|, ss[..i])
    requires InRange(c, Expand(h, ss[..i])) && |Expand(h, ss[..i])| + |ss[i].literals| < c.limit
    requires c.partial || |Content(h, ss, last)| <= c.limit
    ensures DecodesFrom(src, c, h, ss, last, i)
    decreases |ss| - i, 0
  {
    hide Position, ParseOk, Expand, CopyMatch, Start, MatchCopy, At, EncodeSeqn, EncodeLiterals, EncodeSeqns, Encoded;
    var d := Content(h, ss, last);
    var hi, s := Expand(h, ss[..i]), ss[i];
    var ip2 := Position(h, ss, i + 1);
    SeqnPlace(src, h, ss, last, i);
    ContentPrefix(h, ss, last, i);
    if !c.partial {
      MatchFits(src, c, h, ss, last, i);
    }
    ReachCopy(src, c, Position(h, ss, i), hi, s);
    if |hi| + |s.literals| + s.mlen <= c.limit {
      DecodeFrom(src, c, h, ss, last, i + 1);
      DecodeWholeMatch(src, c, ip2, hi + s.literals, s.offset, s.mlen, d);
    } else {
      var lits, ml := RunAt(src, h, ss, last, i + 1);
      DecodeCutMatch(src, c, ip2, hi + s.literals, s.offset, s.mlen, lits, ml);
    }
  }

  lemma {:induction false} DecodeFromStart(src: bytes, c: Config, h: bytes, ss: seq<Seqn>, last: bytes)
    requires Encoded(src, h, ss, last) && InRange(c, h)
    requires ParseOk(|h|, ss)
    requires c.partial || |Content(h, ss, last)| <= c.limit
    ensures 0 < |src|
    ensures var d := Content(h, ss, last);
            Start(src, c, 0, h) == Decoded(d[..Min(|d|, c.limit)])
  {
    hide Start, CopyMatch, EncodeLiterals, Encoded;
    assert ss[..0] == [];
    DecodeFrom(src, c, h, ss, last, 0);
  }

  lemma {:induction false} EmptyRun(last: bytes)
    requires last == []
    ensures EncodeLiterals(last, 0) == [0]
  {
    hide Extension;
    NoExtension(|last|);
    assert [0] + [] + last == [0];
  }

  lemma NoExtension(n: nat)
    requires n < RUN_MASK
    ensures Extension(n) == []
  {
  }

  lemma {:induction false} EmptyEncoding(h: bytes, ss: seq<Seqn>, last: bytes)
    requires ss == [] && last == []
    ensures EncodeBlock(|h|, ss, last) == [0] && Content(h, ss, last) == h
  {
    hide EncodeSeqn, ApplySeqn, CopyMatch, EncodeLiterals;
    EmptyRun(last);
  }

  /** A block without content is the single byte 0. */
  lemma {:induction false} EmptyBlock(h: bytes, ss: seq<Seqn>, last: bytes)
    requires Conforming(|h|, ss, last) && |Content(h, ss, last)| == |h|
    ensures EncodeBlock(|h|, ss, last) == [0] && Content(h, ss, last) == h
  {
    hide ParseOk, EncodeBlock, Expand;
    if ss != [] {
      LastMatch(h, ss, last);
    } else {
      EmptyEncoding(h, ss, last);
    }
  }

  /** The block of a conforming parse decodes to its content, whatever part of the history is an
      external dictionary, into any buffer large enough; a partial decoding yields exactly the
      first `cap` bytes. */
  lemma {:induction false} RoundTrip(h: bytes, ss: seq<Seqn>, last: bytes, ext: nat, cap: nat, partial: bool)
    requires Conforming(|h|, ss, last) && ext <= |h|
    requires partial || |Content(h, ss, last)| <= |h| + cap
    ensures var d := Content(h, ss, last);
            Decompress(EncodeBlock(|h|, ss, last), h, ext, cap, partial) == Decoded(d[..Min(|d|, |h| + cap)])
  {
    hide ParseOk, Expand, Start, EncodeBlock;
    var src := EncodeBlock(|h|, ss, last);
    if cap == 0 {
      if !partial {
        EmptyBlock(h, ss, last);
      }
    } else {
      DecodeFromStart(src, Config(|h| + cap, ext, partial), h, ss, last);
    }
  }
}
