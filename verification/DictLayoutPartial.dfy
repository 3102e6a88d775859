/**
  Where the history lies, in a partial decoding. It matters in exactly one situation: a match from the
  part of the history that only one layout has in the external dictionary fills the output to its end,
  and the token behind it announces literals whose length field runs out of the input. A match within
  the prefix stops the decoding there; one from the external dictionary goes on to that token.
*/
module DictLayoutPartial {
  import opened Bytes
  import opened BlockFormat
  import opened BlockDecoderSpec
  import opened BlockDecoder
  import opened BlockRoundTrip
  import opened DictLayout

  /** The literal length of the sequence at `ip` cannot be read. */
  predicate Runaway(src: bytes, ip: nat)
    requires ip < |src|
  {
    src[ip] / 16 == RUN_MASK && ReadLength(src, ip + 1, |src| - RUN_MASK, true).Overrun?
  }

  /** In layout `c` the decoding of `src` from `ip` on ends with a match that starts at or after `c.ext` but
      before `ext2` and fills the output, in front of a runaway length. */
  predicate LateFill(src: bytes, c: Config, ext2: nat, ip: nat, h: bytes)
    requires ip < |src| && InRange(c, h)
    decreases |src| - ip, 0
  {
    var token := src[ip];
    var ll := token / 16;
    if Shortcut(src, c, ip, |h|) then
      var h1 := h + src[ip + 1..ip + 1 + ll];
      var offset := ReadLE16(src, ip + 1 + ll);
      if ShortMatch(token, offset, |h1| - c.ext) then
        LateFill(src, c, ext2, ip + ll + 3, CopyMatch(h1, offset, token % 16 + MINMATCH))
      else
        FillAfter(src, c, ext2, token, ip + ll + 3, offset, h1)
    else
      var f := if ll == RUN_MASK then ReadLength(src, ip + 1, |src| - RUN_MASK, true) else Length(0, ip + 1);
      && f.Length?
      && var n := CutLiterals(src, c, f.next, ll + f.value, |h|);
         var h1 := h + src[f.next..f.next + n];
         && |h1| < c.limit && f.next + n < |src| - 2
         && FillAfter(src, c, ext2, token, f.next + n + 2, ReadLE16(src, f.next + n), h1)
  }

  /** The literals that are copied of a run of `ll`. */
  function CutLiterals(src: bytes, c: Config, ip: nat, ll: nat, n: nat): (l: nat)
    requires ip <= |src| && n <= c.limit
    ensures l <= ll && ip + l <= |src| && n + l <= c.limit
  {
    Min(Min(ll, |src| - ip), c.limit - n)
  }

  /** The same, from the match length of a sequence on. */
  predicate FillAfter(src: bytes, c: Config, ext2: nat, token: byte, ip: nat, offset: nat, h: bytes)
    requires ip < |src| && InRange(c, h) && offset < WINDOW
    decreases |src| - ip, 1
  {
    var f := if token % 16 == RUN_MASK then ReadLength(src, ip, |src| - LASTLITERALS + 1, false) else Length(0, ip);
    && f.Length?
    && offset <= |h|
    && var ml := token % 16 + f.value + MINMATCH;
       var r := CopyMatch(h, offset, Min(ml, c.limit - |h|));
       if offset <= |h| - c.ext && |h| + ml >= c.limit then offset > |h| - ext2 && Runaway(src, f.next)
       else !(offset == 0 && |h| + ml > c.limit - SAFEGUARD) && LateFill(src, c, ext2, f.next, r)
  }

  /** Two layouts of the same partial call, the first with less of the history in the external dictionary. */
  ghost predicate TwoPartial(c1: Config, c2: Config) {
    c1.limit == c2.limit && c1.partial && c2.partial && c1.ext <= c2.ext
  }

  /** The outcomes are the same exactly when there is no late fill, and with one the first layout
      succeeds with a full buffer where the second reports an error. */
  ghost predicate Told(o1: Outcome, o2: Outcome, late: bool, limit: nat) {
    && (o1 == o2 <==> !late)
    && (late ==> o1.Decoded? && |o1.history| == limit && o2.Malformed?)
  }

  /** A full output stays as it is, unless the length at `ip` runs away. */
  lemma {:induction false} StartFull(src: bytes, c: Config, ip: nat, h: bytes)
    requires ip < |src| && InRange(c, h) && c.partial && |h| == c.limit
    ensures if Runaway(src, ip) then Start(src, c, ip, h).Malformed? else Start(src, c, ip, h) == Decoded(h)
  {
    hide MatchLength;
    var token, ll := src[ip], src[ip] / 16;
    if ll == RUN_MASK {
      StartLong(src, c, ip, h);
      var f := ReadLength(src, ip + 1, |src| - RUN_MASK, true);
      if f.Length? { FullLiterals(src, c, token, f.next, RUN_MASK + f.value, h); }
    } else {
      StartPlain(src, c, ip, h);
      FullLiterals(src, c, token, ip + 1, ll, h);
    }
  }

  lemma FullLiterals(src: bytes, c: Config, token: byte, ip: nat, ll: nat, h: bytes)
    requires ip <= |src| && InRange(c, h) && c.partial && |h| == c.limit
    ensures Literals(src, c, token, ip, ll, h) == Decoded(h)
  {
    hide MatchLength;
    assert h + src[ip..ip] == h;
  }

  /** The copy of a match in a partial decoding, whatever the layout. */
  lemma {:induction false} PartialCopy(src: bytes, c: Config, ip: nat, offset: nat, ml: nat, h: bytes)
    requires ip < |src| && InRange(c, h) && c.partial && offset <= |h|
    ensures var r := CopyMatch(h, offset, Min(ml, c.limit - |h|));
      MatchCopy(src, c, ip, offset, ml, h)
      == if offset > |h| - c.ext then Start(src, c, ip, r)
         else if offset == 0 && |h| + ml > c.limit - SAFEGUARD then Unspecified
         else if |h| + ml >= c.limit then Decoded(r)
         else Start(src, c, ip, r)
  {
    hide Start, CopyMatch;
  }

  lemma {:induction false} PartialSame(src: bytes, c1: Config, c2: Config, ip: nat, h: bytes)
    requires ip < |src| && InRange(c1, h) && InRange(c2, h) && TwoPartial(c1, c2)
    ensures Told(Start(src, c1, ip, h), Start(src, c2, ip, h), LateFill(src, c1, c2.ext, ip, h), c1.limit)
    decreases |src| - ip, 2
  {
    hide Literals, MatchLength, CopyMatch, ReadLength, FillAfter, Told;
    if Shortcut(src, c1, ip, |h|) {
      PartialShortcut(src, c1, c2, ip, h);
    } else {
      PartialLiterals(src, c1, c2, ip, h);
    }
  }

  lemma {:induction false} PartialShortcut(src: bytes, c1: Config, c2: Config, ip: nat, h: bytes)
    requires ip < |src| && InRange(c1, h) && InRange(c2, h) && TwoPartial(c1, c2)
    requires Shortcut(src, c1, ip, |h|)
    ensures Told(Start(src, c1, ip, h), Start(src, c2, ip, h), LateFill(src, c1, c2.ext, ip, h), c1.limit)
    decreases |src| - ip, 1
  {
    hide Start, MatchLength, CopyMatch, FillAfter, Told;
    var token, ll := src[ip], src[ip] / 16;
    var h1, offset, next := h + src[ip + 1..ip + 1 + ll], ReadLE16(src, ip + 1 + ll), ip + ll + 3;
    var ml := token % 16 + MINMATCH;
    StartShortcut(src, c1, ip, h);
    StartShortcut(src, c2, ip, h);
    if !ShortMatch(token, offset, |h1| - c1.ext) {
      PartialMatch(src, c1, c2, token, next, offset, h1);
    } else {
      PartialSame(src, c1, c2, next, CopyMatch(h1, offset, ml));
      if offset > |h1| - c2.ext {
        MatchLengthShort(src, c2, token, next, offset, h1);
        PartialCopy(src, c2, next, offset, ml, h1);
      }
    }
  }

  lemma {:induction false} PartialLiterals(src: bytes, c1: Config, c2: Config, ip: nat, h: bytes)
    requires ip < |src| && InRange(c1, h) && InRange(c2, h) && TwoPartial(c1, c2)
    requires !Shortcut(src, c1, ip, |h|)
    ensures Told(Start(src, c1, ip, h), Start(src, c2, ip, h), LateFill(src, c1, c2.ext, ip, h), c1.limit)
    decreases |src| - ip, 1
  {
    hide Start, Literals, MatchLength, ReadLength, FillAfter, CopyMatch;
    var token, ll := src[ip], src[ip] / 16;
    var f := if ll == RUN_MASK then ReadLength(src, ip + 1, |src| - RUN_MASK, true) else Length(0, ip + 1);
    if ll == RUN_MASK {
      StartLong(src, c1, ip, h);
      StartLong(src, c2, ip, h);
    } else {
      StartPlain(src, c1, ip, h);
      StartPlain(src, c2, ip, h);
    }
    if f.Length? {
      var n := CutLiterals(src, c1, f.next, ll + f.value, |h|);
      LiteralsCut(src, c1, token, f.next, ll + f.value, h);
      LiteralsCut(src, c2, token, f.next, ll + f.value, h);
      if |h| + n < c1.limit && f.next + n < |src| - 2 {
        PartialMatch(src, c1, c2, token, f.next + n + 2, ReadLE16(src, f.next + n), h + src[f.next..f.next + n]);
      }
    }
  }

  /** The literals of a partial decoding. */
  lemma {:induction false} LiteralsCut(src: bytes, c: Config, token: byte, ip: nat, ll: nat, h: bytes)
    requires ip <= |src| && InRange(c, h) && c.partial
    ensures var n := CutLiterals(src, c, ip, ll, |h|); var h1 := h + src[ip..ip + n];
      Literals(src, c, token, ip, ll, h)
      == if |h1| == c.limit || ip + n >= |src| - 2 then Decoded(h1)
         else MatchLength(src, c, token, ip + n + 2, ReadLE16(src, ip + n), h1)
  {
    hide MatchLength;
  }

  lemma {:induction false} PartialMatch(src: bytes, c1: Config, c2: Config, token: byte, ip: nat, offset: nat, h: bytes)
    requires ip < |src| && InRange(c1, h) && InRange(c2, h) && TwoPartial(c1, c2) && offset < WINDOW
    ensures Told(MatchLength(src, c1, token, ip, offset, h), MatchLength(src, c2, token, ip, offset, h),
                 FillAfter(src, c1, c2.ext, token, ip, offset, h), c1.limit)
    decreases |src| - ip, 3
  {
    hide Start, MatchLength, MatchCopy, ReadLength, LateFill, CopyMatch, Runaway;
    var f := if token % 16 == RUN_MASK then ReadLength(src, ip, |src| - LASTLITERALS + 1, false) else Length(0, ip);
    if token % 16 == RUN_MASK {
      MatchLengthLong(src, c1, token, ip, offset, h);
      MatchLengthLong(src, c2, token, ip, offset, h);
    } else {
      MatchLengthShort(src, c1, token, ip, offset, h);
      MatchLengthShort(src, c2, token, ip, offset, h);
    }
    if f.Length? {
      var ml := token % 16 + f.value + MINMATCH;
      if offset > |h| {
        OutsideBoth(src, c1, c2, f.next, offset, ml, h);
      } else {
        var r := CopyMatch(h, offset, Min(ml, c1.limit - |h|));
        PartialCopy(src, c1, f.next, offset, ml, h);
        PartialCopy(src, c2, f.next, offset, ml, h);
        PartialSame(src, c1, c2, f.next, r);
        if |h| + ml >= c1.limit { StartFull(src, c2, f.next, r); }
      }
    }
  }

  lemma OutsideBoth(src: bytes, c1: Config, c2: Config, ip: nat, offset: nat, ml: nat, h: bytes)
    requires ip < |src| && InRange(c1, h) && InRange(c2, h) && offset > |h|
    ensures MatchCopy(src, c1, ip, offset, ml, h) == Malformed(ip) == MatchCopy(src, c2, ip, offset, ml, h)
  {
  }

  // ----- Whole calls -----

  predicate LateFillIn(src: bytes, hist: bytes, ext1: nat, ext2: nat, cap: nat)
    requires ext1 <= |hist|
  {
    cap > 0 && |src| > 0 && LateFill(src, Config(|hist| + cap, ext1, true), ext2, 0, hist)
  }

  /** Layout independence of a partial decoding, with its exact condition. */
  lemma {:induction false} PartialLayoutIndependence(src: bytes, hist: bytes, ext1: nat, ext2: nat, cap: nat)
    requires ext1 <= ext2 <= |hist|
    ensures Told(Decompress(src, hist, ext1, cap, true), Decompress(src, hist, ext2, cap, true),
                 LateFillIn(src, hist, ext1, ext2, cap), |hist| + cap)
  {
    hide Start, LateFill;
    if cap > 0 && |src| > 0 {
      PartialSame(src, Config(|hist| + cap, ext1, true), Config(|hist| + cap, ext2, true), 0, hist);
    }
  }

  /** What a caller can see to: a partial decoding that leaves room in the buffer is the same in both layouts. */
  lemma {:induction false} RoomLeft(src: bytes, hist: bytes, ext1: nat, ext2: nat, cap: nat, d: bytes)
    requires ext1 <= ext2 <= |hist|
    requires Decompress(src, hist, ext1, cap, true) == Decoded(d) && |d| < |hist| + cap
    ensures Decompress(src, hist, ext2, cap, true) == Decoded(d)
  {
    hide Decompress, LateFillIn;
    PartialLayoutIndependence(src, hist, ext1, ext2, cap);
  }

  /** The layouts do differ: a match of 18 bytes that fills the buffer, and the token 0xF0 behind it. */
  lemma PartialLayoutsDiffer(hist: bytes)
    requires |hist| == 64
    ensures var src := [0x0E, 64, 0, 0xF0];
      && Decompress(src, hist, 0, 18, true).Decoded?
      && Decompress(src, hist, 64, 18, true).Malformed?
  {
    hide Literals, MatchLength, MatchCopy, CopyMatch, Start;
    var src := [0x0E, 64, 0, 0xF0];
    var c1, c2 := Config(82, 0, true), Config(82, 64, true);
    StartPlain(src, c1, 0, hist);
    StartPlain(src, c2, 0, hist);
    LiteralsCut(src, c1, 0x0E, 1, 0, hist);
    LiteralsCut(src, c2, 0x0E, 1, 0, hist);
    assert hist + src[1..1] == hist;
    MatchLengthShort(src, c1, 0x0E, 3, 64, hist);
    MatchLengthShort(src, c2, 0x0E, 3, 64, hist);
    PartialCopy(src, c1, 3, 64, 18, hist);
    PartialCopy(src, c2, 3, 64, 18, hist);
    StartFull(src, c2, 3, CopyMatch(hist, 64, 18));
  }
}
