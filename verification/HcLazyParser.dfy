/**
  LZ4HC_compress_hashChain: the lazy parser that keeps up to three overlapping matches and jumps
  between its labels until it can write the first one.
*/
module HcLazyParser {
  import opened Bytes
  import opened BlockFormat
  import opened BlockWriter
  import opened HcMatchFinder
  import opened HcSearch
  import opened HcEncoder
  import opened HcThorough

  const OPTIMAL_ML := 18
  const MIN_LENGTH := 13   // LZ4_minLength

  /** Where the parser jumps to. */
  datatype Label = MainLoop | Search2 | Search3 | DestOverflow

  /** The local variables of the parser: `m1` is (ip, ref, ml), `m0` and `m2` are the saved first
      match and the second one. */
  datatype State = State(pc: Label, m1: Found, m0: Found, m2: Found, anchor: nat, op: nat)

  /** The settings of a call. */
  datatype Settings = Settings(s0: nat, maxNbAttempts: nat, patternAnalysis: bool, limit: bool)

  /** At `_Search2`: the match at hand and the first match it may have replaced. */
  ghost predicate AtSearch2(h: bytes, src: bytes, m1: Found, m0: Found, anchor: nat) {
    && MatchOk(h, src, m1) && MatchOk(h, src, m0)
    && anchor <= m0.start <= m1.start <= m0.start + 2
    && m0.ml <= m1.ml && (m0.start < m1.start ==> m0.ml < m1.ml)
  }

  /** At `_Search3`: two ascending matches. They hardly leave a gap, and the second is long enough
      for its start to be moved without making either of them too short. */
  ghost predicate AtSearch3(h: bytes, src: bytes, m1: Found, m2: Found, anchor: nat) {
    && MatchOk(h, src, m1) && MatchOk(h, src, m2)
    && anchor <= m1.start
    && End(m1) + MFLIMIT <= |src|
    && m1.start + 2 <= m2.start <= End(m1) + 1
    && 5 <= m2.ml && (m2.start == m1.start + 2 ==> 6 <= m2.ml)
  }

  /** The invariant of the jumps; `first` is where the current search began. */
  ghost predicate StateOk(ctx: HcContext, cfg: Settings, h: bytes, src: bytes, dst: bytes, st: State, ss: seq<Seqn>,
      first: nat)
    reads ctx, ctx.hashTable, ctx.chainTable
  {
    && CtxOk(ctx, cfg.s0, h, src)
    && (st.pc != DestOverflow ==> Emitted(h, src, dst, st.anchor, st.op, ss))
    && (st.pc == MainLoop ==> first < st.anchor && Reached(ctx, cfg.s0, st.anchor))
    && (st.pc == Search2 ==>
      first <= st.m0.start && AtSearch2(h, src, st.m1, st.m0, st.anchor) && Reached(ctx, cfg.s0, End(st.m1) - 2))
    && (st.pc == Search3 ==>
      first <= st.m1.start && AtSearch3(h, src, st.m1, st.m2, st.anchor) && Reached(ctx, cfg.s0, End(st.m2) - 3))
    && (st.pc == DestOverflow ==> cfg.limit && !WorstCase(|src|, |dst|))
    && Careful(ScopeOf(ctx, cfg.s0), EffortOf(cfg), h, src, |dst|, st, ss, first)
  }

  ghost function EffortOf(cfg: Settings): Effort {
    Effort(cfg.maxNbAttempts, false, false)
  }

  /** Every literal so far is quiet, and the pending match starts soon after the search found something. */
  ghost predicate Careful(sc: Scope, e: Effort, h: bytes, src: bytes, capacity: nat, st: State, ss: seq<Seqn>,
      first: nat)
  {
    match st.pc
    case MainLoop => Thorough(sc, e, |src|, ss) && Stretched(h, src, ss, false)
    case DestOverflow => Refused(sc, e, h, src, capacity)
    case _ =>
      && Thorough(sc, e, |src|, ss) && SilentFrom(sc, e, |src|, st.anchor, first)
      && (st.pc == Search2 ==> st.m0.start <= Max(first, st.anchor) + 2 && Full(h, src, st.m0))
      && (st.pc == Search3 ==> st.m1.start <= Max(first, st.anchor) + SLACK && Full(h, src, st.m2))
      && Full(h, src, st.m1) && Stretched(h, src, ss, st.pc == Search3 && st.m1.start == st.anchor)
  }

  // ----- Corrections -----

  /** The start of the second match after the correction at `_Search3`. */
  function Correction(m1: Found, m2: Found): int {
    var gap := m2.start - m1.start;
    if gap < OPTIMAL_ML then
      var newMl := Min(m1.ml, OPTIMAL_ML);
      (if m1.start + newMl > End(m2) - MINMATCH then gap + m2.ml - MINMATCH else newMl) - gap
    else 0
  }

  function Corrected(m1: Found, m2: Found): Found
    requires Correction(m1, m2) <= m2.ml
  {
    if Correction(m1, m2) > 0 then Advance(m2, Correction(m1, m2)) else m2
  }

  lemma {:induction false} CorrectedOk(h: bytes, src: bytes, m1: Found, m2: Found, anchor: nat)
    requires AtSearch3(h, src, m1, m2, anchor)
    ensures Correction(m1, m2) <= m2.ml
    ensures var c := Corrected(m1, m2);
            && MatchOk(h, src, c) && End(c) == End(m2)
            && m1.start + MINMATCH <= c.start && m2.start <= c.start
            && (c == m2 || c.start <= End(m1))
  {
    hide MatchOk, TrueMatch;
    MatchBounds(h, src, m1);
    MatchBounds(h, src, m2);
    var n := Correction(m1, m2);
    if n > 0 {
      AdvanceOk(h, src, m2, n);
    }
  }

  // ----- _Search2 -----

  method StepSearch2(ctx: HcContext, cfg: Settings, ghost h: bytes, src: bytes, dst: array<byte>, st: State,
                     ghost ss0: seq<Seqn>, ghost first: nat)
    returns (st': State, ghost ss: seq<Seqn>)
    requires st.pc == Search2 && Apart(ctx, dst)
    requires StateOk(ctx, cfg, h, src, dst[..], st, ss0, first)
    requires RoomOk(|src|, cfg.limit, dst.Length) && |src| <= MAX_INPUT_SIZE
    modifies ctx`nextToUpdate, ctx.hashTable, ctx.chainTable, dst
    ensures StateOk(ctx, cfg, h, src, dst[..], st', ss, first)
    ensures st'.pc == MainLoop || st'.pc == DestOverflow || (st'.anchor == st.anchor && Pending(st') > Pending(st))
  {
    hide Emitted, MatchOk, TrueMatch, CtxOk, GoodMatch, Thorough, Stretched, Ends, SilentFrom, Refused, NoneLonger,
      ScopeOf;
    ss := ss0;
    MatchBounds(h, src, st.m1);
    var m1, m2 := st.m1, st.m1;
    var mflimit := |src| - MFLIMIT;
    if End(m1) <= mflimit {
      m2 := FindWider(ctx, cfg.s0, h, src, End(m1) - 2, m1.start, m1.ml,
                      cfg.maxNbAttempts, cfg.patternAnalysis, false, false);
    }
    if m2.ml == m1.ml {   /* no better match */
      var fail, op;
      StretchedMore(h, src, ss0, false, m1.start == st.anchor);
      fail, op, ss := EncodeNext(ScopeOf(ctx, cfg.s0), EffortOf(cfg), h, src, dst, m1, st.anchor, st.op, cfg.limit, ss0,
                                 first, false);
      return State(if fail then DestOverflow else MainLoop, m1, st.m0, m1, End(m1), op), ss;
    }
    if st.m0.start < m1.start && m2.start < m1.start + st.m0.ml {
      m1 := st.m0;   /* restore initial match */
    }
    MatchBounds(h, src, st.m0);
    MatchBounds(h, src, m2);
    StretchedMore(h, src, ss0, false, m1.start == st.anchor);
    if m2.start - m1.start < 3 {   /* first match too small : removed */
      st' := State(Search2, m2, st.m0, m2, st.anchor, st.op);
    } else {
      st' := State(Search3, m1, st.m0, m2, st.anchor, st.op);
    }
  }

  /** The end of the last pending match. */
  function Pending(st: State): nat {
    if st.pc == Search2 then End(st.m1) else if st.pc == Search3 then End(st.m2) else 0
  }

  // ----- _Search3 -----

  /** After the correction at `_Search3` and the search for a third match. */
  ghost predicate AfterSearch3(h: bytes, src: bytes, m1: Found, m2: Found, anchor: nat) {
    && MatchOk(h, src, m1) && MatchOk(h, src, m2)
    && anchor <= m1.start && End(m1) + MFLIMIT <= |src|
    && m1.start + MINMATCH <= m2.start
    && (m2.start <= End(m1) || (m2.start == End(m1) + 1 && 5 <= m2.ml))
  }

  method StepSearch3(ctx: HcContext, cfg: Settings, ghost h: bytes, src: bytes, dst: array<byte>, st: State,
                     ghost ss0: seq<Seqn>, ghost first: nat)
    returns (st': State, ghost ss: seq<Seqn>)
    requires st.pc == Search3 && Apart(ctx, dst)
    requires StateOk(ctx, cfg, h, src, dst[..], st, ss0, first)
    requires RoomOk(|src|, cfg.limit, dst.Length) && |src| <= MAX_INPUT_SIZE
    modifies ctx`nextToUpdate, ctx.hashTable, ctx.chainTable, dst
    ensures StateOk(ctx, cfg, h, src, dst[..], st', ss, first)
    ensures st'.pc == MainLoop || st'.pc == DestOverflow || st.anchor < st'.anchor
         || (st'.anchor == st.anchor && Pending(st') > Pending(st))
  {
    hide Emitted, MatchOk, TrueMatch, CtxOk, GoodMatch, Thorough, Stretched, Ends, SilentFrom, Refused, NoneLonger,
      ScopeOf;
    CorrectedOk(h, src, st.m1, st.m2, st.anchor);
    var m1, m2 := st.m1, Corrected(st.m1, st.m2);
    MatchBounds(h, src, m2);
    var m3 := m2;
    if End(m2) <= |src| - MFLIMIT {
      m3 := FindWider(ctx, cfg.s0, h, src, End(m2) - 3, m2.start, m2.ml,
                      cfg.maxNbAttempts, cfg.patternAnalysis, false, false);
    }
    if m3.ml == m2.ml {
      st', ss := EncodeTwo(ctx, cfg, h, src, dst, m1, m2, st.anchor, st.op, ss0, first);
    } else if m3.start < End(m1) + 3 {   /* not enough space for match 2 : remove it */
      MatchBounds(h, src, m3);
      if m3.start >= End(m1) {   /* can write Seq1 immediately */
        st', ss := EncodeFirstOfTwo(ctx, cfg, h, src, dst, m1, m2, m3, st.anchor, st.op, ss0, first);
      } else {
        ss := ss0;
        st' := State(Search3, m1, st.m0, m3, st.anchor, st.op);
      }
    } else {
      st', ss := EncodeFirstOfThree(ctx, cfg, h, src, dst, m1, m2, m3, st.anchor, st.op, ss0, first);
    }
  }

  /** No better match: write the first match, cut where the second starts, and the second. */
  method EncodeTwo(ctx: HcContext, cfg: Settings, ghost h: bytes, src: bytes, dst: array<byte>, m1: Found, m2: Found,
                   anchor: nat, op0: nat, ghost ss0: seq<Seqn>, ghost first: nat)
    returns (st: State, ghost ss: seq<Seqn>)
    requires AfterSearch3(h, src, m1, m2, anchor) && first <= m1.start && Apart(ctx, dst)
    requires Thorough(ScopeOf(ctx, cfg.s0), EffortOf(cfg), |src|, ss0)
    requires Stretched(h, src, ss0, m1.start == anchor) && Full(h, src, m1) && Full(h, src, m2)
    requires SilentFrom(ScopeOf(ctx, cfg.s0), EffortOf(cfg), |src|, anchor, first)
      && m1.start <= Max(first, anchor) + SLACK
    requires CtxOk(ctx, cfg.s0, h, src) && Reached(ctx, cfg.s0, End(m2))
    requires Emitted(h, src, dst[..], anchor, op0, ss0)
    requires RoomOk(|src|, cfg.limit, dst.Length) && |src| <= MAX_INPUT_SIZE
    modifies dst
    ensures StateOk(ctx, cfg, h, src, dst[..], st, ss, first)
    ensures st.pc == MainLoop || st.pc == DestOverflow
  {
    hide Emitted, MatchOk, TrueMatch, CtxOk, Thorough, Stretched, Ends, SilentFrom, Refused, ScopeOf;
    MatchBounds(h, src, m1);
    MatchBounds(h, src, m2);
    var ml := if m2.start < End(m1) then m2.start - m1.start else m1.ml;
    ShortenOk(h, src, m1, ml);
    var fail, op;
    fail, op, ss := EncodeNext(ScopeOf(ctx, cfg.s0), EffortOf(cfg), h, src, dst, Shorten(m1, ml), anchor, op0,
                               cfg.limit, ss0, first, ml < m1.ml);
    if !fail {
      NothingSilent(ScopeOf(ctx, cfg.s0), EffortOf(cfg), |src|, m1.start + ml, 0);
      StretchedMore(h, src, ss, ml < m1.ml, m2.start == m1.start + ml);
      fail, op, ss := EncodeNext(ScopeOf(ctx, cfg.s0), EffortOf(cfg), h, src, dst, m2, m1.start + ml, op, cfg.limit,
                                 ss, 0, false);
    }
    st := State(if fail then DestOverflow else MainLoop, m1, m1, m2, End(m2), op);
  }

  /** The third match starts right behind the first: write the first, keep the second as the saved
      first match of the third, unless the room between them is too small. */
  method EncodeFirstOfTwo(ctx: HcContext, cfg: Settings, ghost h: bytes, src: bytes, dst: array<byte>,
                          m1: Found, m2: Found, m3: Found, anchor: nat, op0: nat, ghost ss0: seq<Seqn>,
                            ghost first: nat)
    returns (st: State, ghost ss: seq<Seqn>)
    requires AfterSearch3(h, src, m1, m2, anchor) && first <= m1.start && Apart(ctx, dst)
    requires Thorough(ScopeOf(ctx, cfg.s0), EffortOf(cfg), |src|, ss0)
    requires Stretched(h, src, ss0, m1.start == anchor) && Full(h, src, m1) && Full(h, src, m2)
    requires SilentFrom(ScopeOf(ctx, cfg.s0), EffortOf(cfg), |src|, anchor, first)
      && m1.start <= Max(first, anchor) + SLACK
    requires MatchOk(h, src, m3) && Full(h, src, m3) && m2.ml < m3.ml && m2.start <= m3.start
      && End(m1) <= m3.start < End(m1) + 3
    requires CtxOk(ctx, cfg.s0, h, src) && Reached(ctx, cfg.s0, End(m3) - 2)
    requires Emitted(h, src, dst[..], anchor, op0, ss0)
    requires RoomOk(|src|, cfg.limit, dst.Length) && |src| <= MAX_INPUT_SIZE
    modifies dst
    ensures StateOk(ctx, cfg, h, src, dst[..], st, ss, first)
    ensures st.pc == DestOverflow || (st.pc == Search2 && anchor < st.anchor)
  {
    hide Emitted, MatchOk, TrueMatch, CtxOk, Thorough, Stretched, Ends, SilentFrom, Refused, ScopeOf;
    MatchBounds(h, src, m1);
    MatchBounds(h, src, m2);
    var m2' := m2;
    if m2.start < End(m1) {
      var correction := End(m1) - m2.start;
      if m2.ml < correction + MINMATCH {
        m2' := m3;
      } else {
        m2' := Advance(m2, correction);
        AdvanceOk(h, src, m2, correction);
      }
    }
    var fail, op;
    fail, op, ss := EncodeNext(ScopeOf(ctx, cfg.s0), EffortOf(cfg), h, src, dst, m1, anchor, op0, cfg.limit, ss0,
      first, false);
    NothingSilent(ScopeOf(ctx, cfg.s0), EffortOf(cfg), |src|, End(m1), first);
    st := State(if fail then DestOverflow else Search2, m3, m2', m3, End(m1), op);
  }

  /** The first of three ascending matches, cut to make room for the second. */
  function CutFirst(m1: Found, m2: Found): int {
    if m2.start < End(m1) then
      var gap := m2.start - m1.start;
      if gap < OPTIMAL_ML then
        var ml := Min(m1.ml, OPTIMAL_ML);
        if m1.start + ml > End(m2) - MINMATCH then gap + m2.ml - MINMATCH else ml
      else gap
    else m1.ml
  }

  method EncodeFirstOfThree(ctx: HcContext, cfg: Settings, ghost h: bytes, src: bytes, dst: array<byte>,
                            m1: Found, m2: Found, m3: Found, anchor: nat, op0: nat, ghost ss0: seq<Seqn>,
                              ghost first: nat)
    returns (st: State, ghost ss: seq<Seqn>)
    requires AfterSearch3(h, src, m1, m2, anchor) && first <= m1.start && Apart(ctx, dst)
    requires Thorough(ScopeOf(ctx, cfg.s0), EffortOf(cfg), |src|, ss0)
    requires Stretched(h, src, ss0, m1.start == anchor) && Full(h, src, m1) && Full(h, src, m2)
    requires SilentFrom(ScopeOf(ctx, cfg.s0), EffortOf(cfg), |src|, anchor, first)
      && m1.start <= Max(first, anchor) + SLACK
    requires MatchOk(h, src, m3) && Full(h, src, m3) && m2.ml < m3.ml && m2.start <= m3.start <= End(m2) - 3
      && End(m1) + 3 <= m3.start
    requires End(m2) + MFLIMIT <= |src|
    requires CtxOk(ctx, cfg.s0, h, src) && Reached(ctx, cfg.s0, End(m3) - 3)
    requires Emitted(h, src, dst[..], anchor, op0, ss0)
    requires RoomOk(|src|, cfg.limit, dst.Length) && |src| <= MAX_INPUT_SIZE
    modifies dst
    ensures StateOk(ctx, cfg, h, src, dst[..], st, ss, first)
    ensures st.pc == DestOverflow || (st.pc == Search3 && anchor < st.anchor)
  {
    hide Emitted, MatchOk, TrueMatch, CtxOk, Thorough, Stretched, Ends, SilentFrom, Refused, ScopeOf;
    MatchBounds(h, src, m1);
    MatchBounds(h, src, m2);
    var ml, m2' := CutFirst(m1, m2), m2;
    var correction := ml - (m2.start - m1.start);
    if m2.start < End(m1) && correction > 0 {
      m2' := Advance(m2, correction);
      AdvanceOk(h, src, m2, correction);
    }
    ShortenOk(h, src, m1, ml);
    var fail, op;
    fail, op, ss := EncodeNext(ScopeOf(ctx, cfg.s0), EffortOf(cfg), h, src, dst, Shorten(m1, ml), anchor, op0,
                               cfg.limit, ss0, first, ml < m1.ml);
    NothingSilent(ScopeOf(ctx, cfg.s0), EffortOf(cfg), |src|, m1.start + ml, first);
    if !fail { StretchedMore(h, src, ss, ml < m1.ml, m2'.start == m1.start + ml); }
    st := State(if fail then DestOverflow else Search3, m2', m1, m3, m1.start + ml, op);
  }

  // ----- The parser -----

  /** From the first match found at `ip` to the end of the last match written with it. */
  method EncodeRun(ctx: HcContext, cfg: Settings, ghost h: bytes, src: bytes, dst: array<byte>, m: Found,
                   anchor: nat, op: nat, ghost ss0: seq<Seqn>)
    returns (st: State, ghost ss: seq<Seqn>)
    requires CtxOk(ctx, cfg.s0, h, src) && Reached(ctx, cfg.s0, m.start) && Apart(ctx, dst)
    requires MatchOk(h, src, m) && anchor <= m.start && Emitted(h, src, dst[..], anchor, op, ss0)
    requires Thorough(ScopeOf(ctx, cfg.s0), EffortOf(cfg), |src|, ss0)
    requires SilentFrom(ScopeOf(ctx, cfg.s0), EffortOf(cfg), |src|, anchor, m.start)
    requires Full(h, src, m) && Stretched(h, src, ss0, false)
    requires RoomOk(|src|, cfg.limit, dst.Length) && |src| <= MAX_INPUT_SIZE
    modifies ctx`nextToUpdate, ctx.hashTable, ctx.chainTable, dst
    ensures StateOk(ctx, cfg, h, src, dst[..], st, ss, m.start)
    ensures st.pc == MainLoop || st.pc == DestOverflow
  {
    hide Emitted, MatchOk, TrueMatch, CtxOk, Thorough, Stretched, Ends, SilentFrom, Refused, ScopeOf;
    MatchBounds(h, src, m);
    st, ss := State(Search2, m, m, m, anchor, op), ss0;
    while st.pc == Search2 || st.pc == Search3
      invariant StateOk(ctx, cfg, h, src, dst[..], st, ss, m.start)
      decreases st.pc == Search2 || st.pc == Search3, |src| - st.anchor, |src| - Pending(st)
    {
      StateBounds(ctx, cfg, h, src, dst[..], st, ss, m.start);
      if st.pc == Search2 {
        st, ss := StepSearch2(ctx, cfg, h, src, dst, st, ss, m.start);
      } else {
        st, ss := StepSearch3(ctx, cfg, h, src, dst, st, ss, m.start);
      }
      StateBounds(ctx, cfg, h, src, dst[..], st, ss, m.start);
    }
  }

  lemma {:induction false} StateBounds(ctx: HcContext, cfg: Settings, h: bytes, src: bytes, dst: bytes, st: State,
      ss: seq<Seqn>, first: nat)
    requires StateOk(ctx, cfg, h, src, dst, st, ss, first)
    ensures st.pc != DestOverflow ==> st.anchor <= |src|
    ensures st.pc == Search2 || st.pc == Search3 ==> Pending(st) <= |src|
  {
    hide Emitted, CtxOk, TrueMatch;
    if st.pc != DestOverflow {
      OpBound(h, src, dst, st.anchor, st.op, ss);
    }
  }

  /** LZ4HC_compress_hashChain: a positive result is the size of a block that decodes to the source,
      0 means that a limited output was too small. */
  method CompressHashChain(ctx: HcContext, s0: nat, ghost h: bytes, src: bytes, dst: array<byte>,
                           maxNbAttempts: nat, limit: bool)
    returns (result: nat)
    requires CtxOk(ctx, s0, h, src) && Reached(ctx, s0, 0) && Apart(ctx, dst)
    requires RoomOk(|src|, limit, dst.Length) && |src| <= MAX_INPUT_SIZE
    modifies ctx`nextToUpdate, ctx.hashTable, ctx.chainTable, dst
    ensures ctx.Valid()
    ensures result > 0 ==> result <= dst.Length && IsBlockOf(h, src, dst[..result])
    ensures result > 0 ==> result <= |src| + |src| / 255 + 2
    ensures ScopeOf(ctx, s0) == old(ScopeOf(ctx, s0))
    ensures var sc, e := ScopeOf(ctx, s0), Effort(maxNbAttempts, false, false);
      if result > 0 then ThoroughBlock(sc, e, h, src, dst[..result])
      else limit && !WorstCase(|src|, dst.Length) && Refused(sc, e, h, src, dst.Length)
  {
    hide Emitted, MatchOk, TrueMatch, CtxOk, IsBlockOf, Thorough, Stretched, Ends, SilentFrom, Refused, NoneLonger,
      ScopeOf, ThoroughBlock;
    var cfg := Settings(s0, maxNbAttempts, maxNbAttempts > 128, limit);   /* levels 9+ */
    var ip: nat, anchor: nat, op: nat := 0, 0, 0;
    ghost var ss: seq<Seqn> := [];
    ghost var sc, e := ScopeOf(ctx, s0), EffortOf(cfg);
    ParsedStart(h, src, dst[..]);
    NothingYet(sc, e, |src|);
    if |src| >= MIN_LENGTH {
      while ip <= |src| - MFLIMIT
        invariant anchor <= ip
        invariant CtxOk(ctx, s0, h, src) && Reached(ctx, s0, ip) && Emitted(h, src, dst[..], anchor, op, ss)
        invariant ScopeOf(ctx, s0) == sc && Thorough(sc, e, |src|, ss) && Stretched(h, src, ss, false)
          && SilentFrom(sc, e, |src|, anchor, ip)
        decreases |src| - ip
      {
        var m := FindWider(ctx, s0, h, src, ip, ip, MINMATCH - 1, maxNbAttempts, cfg.patternAnalysis, false, false);
        if m.ml < MINMATCH {
          OneMoreSilent(sc, e, |src|, anchor, ip);
          ip := ip + 1;
        } else {
          MatchBounds(h, src, m);
          var st;
          st, ss := EncodeRun(ctx, cfg, h, src, dst, m, anchor, op, ss);
          if st.pc == DestOverflow {
            CtxValid(ctx, s0, h, src);
            return 0;
          }
          StateBounds(ctx, cfg, h, src, dst[..], st, ss, m.start);
          ip, anchor, op := st.anchor, st.anchor, st.op;
          NothingSilent(sc, e, |src|, ip, ip);
        }
      }
    }
    AllSearched(sc, e, |src|, anchor, ip);
    result := EncodeLast(sc, e, h, src, dst, op, anchor, limit, ss);
    CtxValid(ctx, s0, h, src);
  }
}
