/**
  Where the history lies must not matter: contiguous prefix, external dictionary or both. For a
  full decoding it matters in exactly one situation, a short match that the shortcut copies from
  the prefix into the last five bytes of the output and that the other layout finds in the
  external dictionary, where the end-of-block rule is enforced.
*/
module DictLayout {
  import opened Bytes
  import opened BlockFormat
  import opened BlockDecoderSpec
  import opened BlockDecoder
  import opened BlockRoundTrip

  /** In layout `c`, the decoding of `src` copies by the shortcut a match that starts at or after
      `c.ext` but before `ext2` and ends in the last five bytes of the output. */
  predicate LateMatch(src: bytes, c: Config, ext2: nat, ip: nat, h: bytes)
    requires ip < |src| && InRange(c, h)
    decreases |src| - ip, 0
  {
    var token := src[ip];
    var ll := token / 16;
    if Shortcut(src, c, ip, |h|) then
      var h1 := h + src[ip + 1..ip + 1 + ll];
      var offset := ReadLE16(src, ip + 1 + ll);
      if ShortMatch(token, offset, |h1| - c.ext) then
        || (offset > |h1| - ext2 && |h1| + token % 16 + MINMATCH > c.limit - LASTLITERALS)
        || LateMatch(src, c, ext2, ip + ll + 3, CopyMatch(h1, offset, token % 16 + MINMATCH))
      else
        LateAfter(src, c, ext2, token, ip + ll + 3, offset, h1)
    else
      var f := if ll == RUN_MASK then ReadLength(src, ip + 1, |src| - RUN_MASK, true) else Length(0, ip + 1);
      && f.Length?
      && |h| + ll + f.value + MFLIMIT <= c.limit
      && f.next + ll + f.value + 2 + 1 + LASTLITERALS <= |src|
      && var p := f.next + ll + f.value;
         LateAfter(src, c, ext2, token, p + 2, ReadLE16(src, p), h + src[f.next..p])
  }

  /** The same, from the match length of a sequence on. */
  predicate LateAfter(src: bytes, c: Config, ext2: nat, token: byte, ip: nat, offset: nat, h: bytes)
    requires ip < |src| && InRange(c, h) && offset < WINDOW
    decreases |src| - ip, 1
  {
    var f := if token % 16 == RUN_MASK then ReadLength(src, ip, |src| - LASTLITERALS + 1, false) else Length(0, ip);
    && f.Length?
    && offset <= |h|
    && var ml := token % 16 + f.value + MINMATCH;
       && |h| + ml <= c.limit - LASTLITERALS
       && LateMatch(src, c, ext2, f.next, CopyMatch(h, offset, ml))
  }

  /** Two layouts of the same call, the first with less of the history in the external dictionary. */
  ghost predicate TwoLayouts(c1: Config, c2: Config) {
    c1.limit == c2.limit && !c1.partial && !c2.partial && c1.ext <= c2.ext
  }

  // ----- Errors point behind the start of the sequence, and the history only grows -----

  /** From `ip` on there is a pair of zero bytes, an offset of 0. */
  ghost predicate ZeroOffset(src: bytes, ip: nat) {
    exists at :: ip <= at <= |src| - 2 && ReadLE16(src, at) == 0
  }

  lemma {:induction false} ErrorStart(src: bytes, c: Config, ip: nat, h: bytes)
    requires ip < |src| && InRange(c, h)
    ensures var o := Start(src, c, ip, h); (o.Malformed? ==> ip < o.pos) && (o.Decoded? ==> |h| <= |o.history|)
    ensures Start(src, c, ip, h).Unspecified? ==> c.partial && ZeroOffset(src, ip)
    decreases |src| - ip, 0
  {
    hide Literals, MatchLength, CopyMatch, ReadMore;
    var token, ll := src[ip], src[ip] / 16;
    if Shortcut(src, c, ip, |h|) {
      StartShortcut(src, c, ip, h);
      var h1, offset := h + src[ip + 1..ip + 1 + ll], ReadLE16(src, ip + 1 + ll);
      if ShortMatch(token, offset, |h1| - c.ext) {
        ErrorStart(src, c, ip + ll + 3, CopyMatch(h1, offset, token % 16 + MINMATCH));
      } else {
        ErrorMatchLength(src, c, token, ip + ll + 3, offset, h1);
      }
    } else if ll == RUN_MASK {
      var f := ReadLength(src, ip + 1, |src| - RUN_MASK, true);
      if f.Length? {
        ErrorLiterals(src, c, token, f.next, RUN_MASK + f.value, h);
      } else {
        OverrunBehind(src, ip + 1, |src| - RUN_MASK);
      }
    } else {
      ErrorLiterals(src, c, token, ip + 1, ll, h);
    }
  }

  lemma OverrunBehind(src: bytes, ip: nat, ilimit: int)
    requires ip <= |src| && ilimit < |src|
    ensures var f := ReadLength(src, ip, ilimit, true); f.Overrun? ==> ip <= f.at
  {
  }

  lemma {:induction false} ErrorLiterals(src: bytes, c: Config, token: byte, ip: nat, ll: nat, h: bytes)
    requires ip <= |src| && InRange(c, h)
    ensures var o := Literals(src, c, token, ip, ll, h);
      (o.Malformed? ==> ip <= o.pos) && (o.Decoded? ==> |h| <= |o.history|)
    ensures Literals(src, c, token, ip, ll, h).Unspecified? ==> c.partial && ZeroOffset(src, ip)
    decreases |src| - ip, 3
  {
    hide Start, MatchLength, CopyMatch;
    if |h| + ll > c.limit - MFLIMIT || ip + ll > |src| - (2 + 1 + LASTLITERALS) {
      LiteralsNearEnd(src, c, token, ip, ll, h);
      if c.partial {
        var l1 := if ip + ll > |src| then |src| - ip else ll;
        var l2 := if |h| + l1 > c.limit then c.limit - |h| else l1;
        if |h| + l2 != c.limit && ip + l2 < |src| - 2 {
          ErrorMatchLength(src, c, token, ip + l2 + 2, ReadLE16(src, ip + l2), h + src[ip..ip + l2]);
        }
      }
    } else {
      LiteralsGoOn(src, c, token, ip, ll, h);
      ErrorMatchLength(src, c, token, ip + ll + 2, ReadLE16(src, ip + ll), h + src[ip..ip + ll]);
    }
  }

  lemma {:induction false} ErrorMatchLength(src: bytes, c: Config, token: byte, ip: nat, offset: nat, h: bytes)
    requires ip < |src| && InRange(c, h) && offset < WINDOW
    ensures var o := MatchLength(src, c, token, ip, offset, h);
      (o.Malformed? ==> ip <= o.pos) && (o.Decoded? ==> |h| <= |o.history|)
    ensures MatchLength(src, c, token, ip, offset, h).Unspecified? ==> c.partial && (offset == 0 || ZeroOffset(src, ip))
    decreases |src| - ip, 2
  {
    hide Start, MatchCopy, CopyMatch;
    if token % 16 == RUN_MASK {
      var f := ReadLength(src, ip, |src| - LASTLITERALS + 1, false);
      if f.Length? {
        ErrorMatchCopy(src, c, f.next, offset, RUN_MASK + f.value + MINMATCH, h);
      }
    } else {
      ErrorMatchCopy(src, c, ip, offset, token % 16 + MINMATCH, h);
    }
  }

  lemma {:induction false} ErrorMatchCopy(src: bytes, c: Config, ip: nat, offset: nat, ml: nat, h: bytes)
    requires ip < |src| && InRange(c, h)
    ensures var o := MatchCopy(src, c, ip, offset, ml, h);
      (o.Malformed? ==> ip <= o.pos) && (o.Decoded? ==> |h| <= |o.history|)
    ensures MatchCopy(src, c, ip, offset, ml, h).Unspecified? ==> c.partial && (offset == 0 || ZeroOffset(src, ip))
    decreases |src| - ip, 1
  {
    hide Start, CopyMatch;
    if offset <= |h| {
      if |h| + ml <= c.limit {
        ErrorStart(src, c, ip, CopyMatch(h, offset, ml));
      } else {
        ErrorStart(src, c, ip, CopyMatch(h, offset, c.limit - |h|));
      }
    }
  }

  // ----- Two layouts -----

  /** The layouts give the same outcome, error position included, exactly when no late match occurs. */
  lemma {:induction false} SameUnlessLate(src: bytes, c1: Config, c2: Config, ip: nat, h: bytes)
    requires ip < |src| && InRange(c1, h) && InRange(c2, h) && TwoLayouts(c1, c2)
    ensures Start(src, c1, ip, h) == Start(src, c2, ip, h) <==> !LateMatch(src, c1, c2.ext, ip, h)
    ensures LateMatch(src, c1, c2.ext, ip, h) ==> Start(src, c2, ip, h).Malformed?
    decreases |src| - ip, 2
  {
    hide Literals, MatchLength, CopyMatch, ReadLength, LateAfter;
    var token, ll := src[ip], src[ip] / 16;
    if Shortcut(src, c1, ip, |h|) {
      SameShortcut(src, c1, c2, ip, h);
    } else {
      SameLiterals(src, c1, c2, ip, h);
    }
  }

  lemma {:induction false} SameShortcut(src: bytes, c1: Config, c2: Config, ip: nat, h: bytes)
    requires ip < |src| && InRange(c1, h) && InRange(c2, h) && TwoLayouts(c1, c2)
    requires Shortcut(src, c1, ip, |h|)
    ensures Start(src, c1, ip, h) == Start(src, c2, ip, h) <==> !LateMatch(src, c1, c2.ext, ip, h)
    ensures LateMatch(src, c1, c2.ext, ip, h) ==> Start(src, c2, ip, h).Malformed?
    decreases |src| - ip, 1
  {
    hide Start, MatchLength, CopyMatch, LateAfter;
    var token, ll := src[ip], src[ip] / 16;
    var h1, offset, next := h + src[ip + 1..ip + 1 + ll], ReadLE16(src, ip + 1 + ll), ip + ll + 3;
    var ml := token % 16 + MINMATCH;
    StartShortcut(src, c1, ip, h);
    StartShortcut(src, c2, ip, h);
    if !ShortMatch(token, offset, |h1| - c1.ext) {
      SameMatch(src, c1, c2, token, next, offset, h1);
    } else {
      var r := CopyMatch(h1, offset, ml);
      SameUnlessLate(src, c1, c2, next, r);
      if offset > |h1| - c2.ext {
        MatchLengthShort(src, c2, token, next, offset, h1);
        MatchCopyExt(src, c2, next, offset, ml, h1);
        ErrorStart(src, c1, next, r);
      }
    }
  }

  lemma {:induction false} SameLiterals(src: bytes, c1: Config, c2: Config, ip: nat, h: bytes)
    requires ip < |src| && InRange(c1, h) && InRange(c2, h) && TwoLayouts(c1, c2)
    requires !Shortcut(src, c1, ip, |h|)
    ensures Start(src, c1, ip, h) == Start(src, c2, ip, h) <==> !LateMatch(src, c1, c2.ext, ip, h)
    ensures LateMatch(src, c1, c2.ext, ip, h) ==> Start(src, c2, ip, h).Malformed?
    decreases |src| - ip, 1
  {
    hide Start, Literals, MatchLength, ReadLength, LateAfter, CopyMatch;
    var token, ll := src[ip], src[ip] / 16;
    var f := if ll == RUN_MASK then ReadLength(src, ip + 1, |src| - RUN_MASK, true) else Length(0, ip + 1);
    if ll == RUN_MASK {
      StartLong(src, c1, ip, h);
      StartLong(src, c2, ip, h);
    } else {
      StartPlain(src, c1, ip, h);
      StartPlain(src, c2, ip, h);
    }
    if f.Length? {
      var n := ll + f.value;
      if |h| + n + MFLIMIT <= c1.limit && f.next + n + 2 + 1 + LASTLITERALS <= |src| {
        LiteralsGoOn(src, c1, token, f.next, n, h);
        LiteralsGoOn(src, c2, token, f.next, n, h);
        SameMatch(src, c1, c2, token, f.next + n + 2, ReadLE16(src, f.next + n), h + src[f.next..f.next + n]);
      } else {
        LiteralsNearEnd(src, c1, token, f.next, n, h);
        LiteralsNearEnd(src, c2, token, f.next, n, h);
      }
    }
  }

  lemma {:induction false} SameMatch(src: bytes, c1: Config, c2: Config, token: byte, ip: nat, offset: nat, h: bytes)
    requires ip < |src| && InRange(c1, h) && InRange(c2, h) && TwoLayouts(c1, c2) && offset < WINDOW
    ensures MatchLength(src, c1, token, ip, offset, h) == MatchLength(src, c2, token, ip, offset, h)
       <==> !LateAfter(src, c1, c2.ext, token, ip, offset, h)
    ensures LateAfter(src, c1, c2.ext, token, ip, offset, h) ==> MatchLength(src, c2, token, ip, offset, h).Malformed?
    decreases |src| - ip, 3
  {
    hide Start, MatchLength, MatchCopy, ReadLength, LateMatch, CopyMatch;
    var f := if token % 16 == RUN_MASK then ReadLength(src, ip, |src| - LASTLITERALS + 1, false) else Length(0, ip);
    if token % 16 == RUN_MASK {
      MatchLengthLong(src, c1, token, ip, offset, h);
      MatchLengthLong(src, c2, token, ip, offset, h);
    } else {
      MatchLengthShort(src, c1, token, ip, offset, h);
      MatchLengthShort(src, c2, token, ip, offset, h);
    }
    if f.Length? {
      var ml := token % 16 + f.value + MINMATCH;
      FullMatchCopy(src, c1, f.next, offset, ml, h);
      FullMatchCopy(src, c2, f.next, offset, ml, h);
      if offset <= |h| && |h| + ml <= c1.limit - LASTLITERALS {
        SameUnlessLate(src, c1, c2, f.next, CopyMatch(h, offset, ml));
      }
    }
  }

  /** In a full decoding the layout plays no role once the shortcut has been left. */
  lemma {:induction false} FullMatchCopy(src: bytes, c: Config, ip: nat, offset: nat, ml: nat, h: bytes)
    requires ip < |src| && InRange(c, h) && !c.partial
    ensures if offset > |h| || |h| + ml > c.limit - LASTLITERALS
      then MatchCopy(src, c, ip, offset, ml, h) == Malformed(ip)
            else MatchCopy(src, c, ip, offset, ml, h) == Start(src, c, ip, CopyMatch(h, offset, ml))
  {
    hide Start, CopyMatch;
  }

  /** After a late match, a decoding that succeeds ends in the last five bytes of the output. */
  lemma {:induction false} LateEnds(src: bytes, c: Config, ext2: nat, ip: nat, h: bytes)
    requires ip < |src| && InRange(c, h) && !c.partial && LateMatch(src, c, ext2, ip, h)
    ensures var o := Start(src, c, ip, h); o.Decoded? ==> |o.history| > c.limit - LASTLITERALS
    decreases |src| - ip, 1
  {
    hide Start, Literals, MatchLength, CopyMatch, ReadLength, LateAfter;
    var token, ll := src[ip], src[ip] / 16;
    if Shortcut(src, c, ip, |h|) {
      var h1, offset, next := h + src[ip + 1..ip + 1 + ll], ReadLE16(src, ip + 1 + ll), ip + ll + 3;
      StartShortcut(src, c, ip, h);
      if ShortMatch(token, offset, |h1| - c.ext) {
        var r := CopyMatch(h1, offset, token % 16 + MINMATCH);
        ErrorStart(src, c, next, r);
        if LateMatch(src, c, ext2, next, r) { LateEnds(src, c, ext2, next, r); }
      } else {
        LateEndsAfter(src, c, ext2, token, next, offset, h1);
      }
    } else {
      var f := if ll == RUN_MASK then ReadLength(src, ip + 1, |src| - RUN_MASK, true) else Length(0, ip + 1);
      var n := ll + f.value;
      if ll == RUN_MASK { StartLong(src, c, ip, h); } else { StartPlain(src, c, ip, h); }
      LiteralsGoOn(src, c, token, f.next, n, h);
      LateEndsAfter(src, c, ext2, token, f.next + n + 2, ReadLE16(src, f.next + n), h + src[f.next..f.next + n]);
    }
  }

  lemma {:induction false} LateEndsAfter(src: bytes, c: Config, ext2: nat, token: byte, ip: nat, offset: nat, h: bytes)
    requires ip < |src| && InRange(c, h) && !c.partial && offset < WINDOW
    requires LateAfter(src, c, ext2, token, ip, offset, h)
    ensures var o := MatchLength(src, c, token, ip, offset, h); o.Decoded? ==> |o.history| > c.limit - LASTLITERALS
    decreases |src| - ip, 2
  {
    hide Start, MatchLength, MatchCopy, ReadLength, LateMatch, CopyMatch;
    var f := if token % 16 == RUN_MASK then ReadLength(src, ip, |src| - LASTLITERALS + 1, false) else Length(0, ip);
    var ml := token % 16 + f.value + MINMATCH;
    if token % 16 == RUN_MASK {
      MatchLengthLong(src, c, token, ip, offset, h);
    } else {
      MatchLengthShort(src, c, token, ip, offset, h);
    }
    FullMatchCopy(src, c, f.next, offset, ml, h);
    LateEnds(src, c, ext2, f.next, CopyMatch(h, offset, ml));
  }

  // ----- Whole calls -----

  /** The guard of the branch that tells the layouts apart, for a whole call. */
  predicate LateMatchIn(src: bytes, hist: bytes, ext1: nat, ext2: nat, cap: nat)
    requires ext1 <= |hist|
  {
    cap > 0 && |src| > 0 && LateMatch(src, Config(|hist| + cap, ext1, false), ext2, 0, hist)
  }

  /** Dictionary-layout independence of a full decoding, with its exact condition. */
  lemma {:induction false} LayoutIndependence(src: bytes, hist: bytes, ext1: nat, ext2: nat, cap: nat)
    requires ext1 <= ext2 <= |hist|
    ensures Decompress(src, hist, ext1, cap, false) == Decompress(src, hist, ext2, cap, false)
       <==> !LateMatchIn(src, hist, ext1, ext2, cap)
    ensures Decompress(src, hist, ext2, cap, false).Decoded? ==>
              Decompress(src, hist, ext1, cap, false) == Decompress(src, hist, ext2, cap, false)
  {
    hide Start, LateMatch;
    if cap > 0 && |src| > 0 {
      SameUnlessLate(src, Config(|hist| + cap, ext1, false), Config(|hist| + cap, ext2, false), 0, hist);
    }
  }

  /** What a caller can see to: with five bytes of the buffer left over, the layouts agree. */
  lemma {:induction false} RoomBehind(src: bytes, hist: bytes, ext1: nat, ext2: nat, cap: nat, d: bytes)
    requires ext1 <= ext2 <= |hist|
    requires Decompress(src, hist, ext1, cap, false) == Decoded(d) && |d| + LASTLITERALS <= |hist| + cap
    ensures Decompress(src, hist, ext2, cap, false) == Decoded(d)
  {
    hide Start, LateMatch;
    LayoutIndependence(src, hist, ext1, ext2, cap);
    var c := Config(|hist| + cap, ext1, false);
    if LateMatchIn(src, hist, ext1, ext2, cap) { LateEnds(src, c, ext2, 0, hist); }
  }

  /** And no conforming block tells the layouts apart, full or partial. */
  lemma {:induction false} ConformingAgree(h: bytes, ss: seq<Seqn>, last: bytes, ext1: nat, ext2: nat, cap: nat,
      partial: bool)
    requires ext1 <= ext2 <= |h| && Conforming(|h|, ss, last)
    requires partial || |Content(h, ss, last)| <= |h| + cap
    ensures var src := EncodeBlock(|h|, ss, last);
      Decompress(src, h, ext1, cap, partial) == Decompress(src, h, ext2, cap, partial)
  {
    hide Decompress, Conforming, Content, EncodeBlock;
    RoundTrip(h, ss, last, ext1, cap, partial);
    RoundTrip(h, ss, last, ext2, cap, partial);
  }

  /** The layouts do differ: 14 literals and an 18-byte match that fill a 32-byte buffer. */
  lemma LayoutsDiffer(hist: bytes)
    requires |hist| == 64
    ensures var src := [0xEE] + Repeat(7, 14) + LE16(64) + [0];
            && Decompress(src, hist, 0, 32, false).Decoded?
            && Decompress(src, hist, 64, 32, false) == Malformed(17)
  {
    hide Literals, MatchLength, MatchCopy, CopyMatch, Start;
    var src := [0xEE] + Repeat(7, 14) + LE16(64) + [0];
    assert src[0] == 0xEE && src[15] == 64 && src[16] == 0 && src[17] == 0 && |src| == 18;
    var c1, c2 := Config(96, 0, false), Config(96, 64, false);
    StartShortcut(src, c1, 0, hist);
    StartShortcut(src, c2, 0, hist);
    var h1 := hist + src[1..15];
    var r := CopyMatch(h1, 64, 18);
    StartPlain(src, c1, 17, r);
    LiteralsNearEnd(src, c1, 0, 18, 0, r);
    MatchLengthShort(src, c2, 0xEE, 17, 64, h1);
    MatchCopyExt(src, c2, 17, 64, 18, h1);
  }
}
