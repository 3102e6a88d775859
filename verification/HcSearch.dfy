/** The match finder as the parsers see it: positions relative to the source, pending matches. */
module HcSearch {
  import opened Bytes
  import opened BlockFormat
  import opened BlockWriter
  import opened CommonBytes
  import opened HcChains
  import opened HcMatchFinder
  import opened HcEncoder

  /** A pending match: the `ml` bytes at `start` repeat those at `ref`, which may lie before the source. */
  datatype Found = Found(start: nat, ref: int, ml: nat)

  function End(f: Found): nat {
    f.start + f.ml
  }

  /** A match that may be emitted: true, long enough, and clear of the end of the block. */
  ghost predicate MatchOk(h: bytes, src: bytes, f: Found) {
    && MINMATCH <= f.ml
    && f.ref < f.start
    && TrueMatch(h, src, f.start, f.start - f.ref, f.ml)
    && f.start + MFLIMIT <= |src|
    && f.start + f.ml + LASTLITERALS <= |src|
  }

  /** A match that goes on as far as the bytes agree. */
  ghost predicate Full(h: bytes, src: bytes, f: Found) {
    Ends(h + src, |h| + End(f), |h| + |src| - LASTLITERALS, f.start - f.ref)
  }

  /** Correction of a pending match: its start moves forward, its end stays. */
  function Advance(f: Found, n: nat): Found
    requires n <= f.ml
  {
    Found(f.start + n, f.ref + n, f.ml - n)
  }

  /** Shortening of a pending match. */
  function Shorten(f: Found, ml: nat): Found {
    Found(f.start, f.ref, ml)
  }

  lemma {:induction false} AdvanceOk(h: bytes, src: bytes, f: Found, n: nat)
    requires MatchOk(h, src, f) && n + MINMATCH <= f.ml && f.start + n + MFLIMIT <= |src|
    ensures MatchOk(h, src, Advance(f, n))
  {
    SubMatch(h, src, f.start, f.start - f.ref, f.ml, f.start + n, f.ml - n);
  }

  lemma {:induction false} ShortenOk(h: bytes, src: bytes, f: Found, ml: nat)
    requires MatchOk(h, src, f) && MINMATCH <= ml <= f.ml
    ensures MatchOk(h, src, Shorten(f, ml))
  {
    SubMatch(h, src, f.start, f.start - f.ref, f.ml, f.start, ml);
  }

  /** The context holds the source at the end of its prefix; `h` is everything before it. */
  ghost predicate CtxOk(ctx: HcContext, s0: nat, h: bytes, src: bytes)
    reads ctx, ctx.hashTable, ctx.chainTable
  {
    && ctx.Valid()
    && s0 + |src| == |ctx.prefix| && ctx.prefix[s0..] == src
    && h == ctx.dict + ctx.prefix[..s0]
  }

  lemma CtxValid(ctx: HcContext, s0: nat, h: bytes, src: bytes)
    requires CtxOk(ctx, s0, h, src)
    ensures ctx.Valid()
  {
  }

  /** Everything up to source position `p` may be inserted, nothing after it has been. */
  ghost predicate Reached(ctx: HcContext, s0: nat, p: nat)
    reads ctx
  {
    ctx.nextToUpdate <= ctx.dictLimit + s0 + p
  }

  lemma {:induction false} FoundIsTrue(all: bytes, d: nat, s0: nat, h: bytes, src: bytes, b: Best)
    requires |h| == d + s0 && all == h + src && s0 <= b.start
    requires GoodMatch(all, d, b.start, b.refp, b.longest)
    ensures TrueMatch(h, src, b.start - s0, b.start - b.refp, b.longest)
  {
    assert |h| + (b.start - s0) == d + b.start;
  }

  lemma AllIsHistory(dict: bytes, prefix: bytes, s0: nat, h: bytes, src: bytes)
    requires s0 <= |prefix| && prefix[s0..] == src && h == dict + prefix[..s0]
    ensures dict + prefix == h + src
  {
    assert prefix == prefix[..s0] + prefix[s0..];
  }

  // ----- What a search has not found -----

  /** Dictionary and prefix with their indices, the index of the source, and from where on the tables know them. */
  datatype Scope = Scope(x: Text, base: nat, since: nat)

  /** How hard a search tries. */
  datatype Effort = Effort(attempts: nat, swap: bool, fav: bool)

  ghost function ScopeOf(ctx: HcContext, s0: nat): Scope
    reads ctx`dict, ctx`prefix, ctx`lowLimit, ctx`dictLimit, ctx`since
  {
    Scope(Text(ctx.dict + ctx.prefix, ctx.lowLimit, |ctx.dict|), ctx.dictLimit + s0, ctx.since)
  }

  /** The search from source position `pos`: within 64 KB, over all that is known; over the prefix only when
      chains are swapped. */
  ghost function GoalAt(sc: Scope, e: Effort, n: nat, pos: nat): Goal
    requires LASTLITERALS <= n
  {
    var ip := sc.base + pos;
    var lowest := Max(sc.x.low, ip - DISTANCE_MAX);
    var known := if e.swap then Max(sc.since, sc.x.low + sc.x.d) else sc.since;
    Goal(ip, sc.base + n - LASTLITERALS, lowest, Max(lowest, known), e.fav, e.swap)
  }

  /** No candidate that the effort allows for promises more than `longest`. */
  ghost predicate NoneLonger(sc: Scope, e: Effort, n: nat, pos: nat, longest: nat) {
    LASTLITERALS <= n &&
    var g := GoalAt(sc, e, n, pos);
    GoalOk(sc.x, g) && Looked(sc.x, g, e.attempts, longest)
  }

  /** The bytes at `pos` repeat nothing. */
  ghost predicate Silent(sc: Scope, e: Effort, n: nat, pos: nat) {
    NoneLonger(sc, e, n, pos, MINMATCH - 1)
  }

  /** What it means: the four bytes at `pos` are not those at index `p`, unless `p` is out of reach of the
      attempts or too close to be decoded fast. */
  lemma {:induction false} SilentMeans(sc: Scope, e: Effort, n: nat, pos: nat, p: nat)
    requires Silent(sc, e, n, pos)
    requires var g := GoalAt(sc, e, n, pos);
      g.from <= p < g.ip && Rank(sc.x, g, p) <= e.attempts && (e.fav ==> p + 8 <= g.ip) && sc.x.Has(p)
    ensures !SameWord(sc.x.all, sc.base + pos - sc.x.low, sc.x.all, p - sc.x.low, 4)
  {
    hide SameWord, CommonPrefix, Agreeing, Rank;
    var g := GoalAt(sc, e, n, pos);
    assert Weighed(sc.x, g, p, MINMATCH - 1);
    FourAndMore(sc.x.all, g.ip - sc.x.low, sc.x.all, p - sc.x.low, g.high - g.ip);
  }

  /** LZ4HC_InsertAndGetWiderMatch from source position `pos`, looking back to `low`. */
  method FindWider(ctx: HcContext, s0: nat, ghost h: bytes, src: bytes, pos: nat, low: nat, longest: nat,
                   maxNbAttempts: nat, patternAnalysis: bool, chainSwap: bool, favorDecSpeed: bool)
    returns (f: Found)
    requires CtxOk(ctx, s0, h, src) && Reached(ctx, s0, pos)
    requires low <= pos && pos + MFLIMIT <= |src| && pos - low < longest && low + longest + LASTLITERALS <= |src|
    requires chainSwap ==> low == pos
    modifies ctx`nextToUpdate, ctx.hashTable, ctx.chainTable
    ensures CtxOk(ctx, s0, h, src) && Reached(ctx, s0, pos)
    ensures longest <= f.ml
    ensures longest < f.ml ==> low <= f.start <= pos && MatchOk(h, src, f)
    ensures longest < f.ml ==> Full(h, src, f)
    ensures NoneLonger(ScopeOf(ctx, s0), Effort(maxNbAttempts, chainSwap, favorDecSpeed), |src|, pos, f.ml)
  {
    hide GoodMatch, TrueMatch, Looked, Ends;
    AllIsHistory(ctx.dict, ctx.prefix, s0, h, src);
    var r := Range(pos + s0, low + s0, |ctx.prefix| - LASTLITERALS);
    var best := ctx.InsertAndGetWiderMatch(r, longest, maxNbAttempts, patternAnalysis, chainSwap, favorDecSpeed);
    f := Found(0, 0, best.longest);
    if best.longest > longest {
      f := Found(best.start - s0, best.refp - s0, best.longest);
      FoundIsTrue(h + src, |ctx.dict|, s0, h, src, best);
      assert TrueMatch(h, src, f.start, f.start - f.ref, f.ml);
      MatchStart(h, src, f);
    }
  }

  lemma MatchStart(h: bytes, src: bytes, f: Found)
    requires f.start >= f.ref && TrueMatch(h, src, f.start, f.start - f.ref, f.ml)
    ensures f.ref < f.start
  {
  }

  lemma MatchBounds(h: bytes, src: bytes, f: Found)
    requires MatchOk(h, src, f)
    ensures MINMATCH <= f.ml && f.start + MFLIMIT <= |src| && End(f) + LASTLITERALS <= |src|
  {
  }

  /** The tables and the output do not share memory. */
  ghost predicate Apart(ctx: HcContext, dst: array<byte>)
    reads ctx
  {
    (dst as object) != ctx.hashTable && (dst as object) != ctx.chainTable && (dst as object) != ctx
  }

  // ----- Writing one match -----

  /** Encodes the match `m` as a sequence. */
  method Encode(ghost h: bytes, src: bytes, dst: array<byte>, m: Found, anchor: nat, op0: nat, limit: bool,
      ghost ss0: seq<Seqn>)
    returns (fail: bool, op: nat, ghost ss: seq<Seqn>)
    requires Emitted(h, src, dst[..], anchor, op0, ss0) && MatchOk(h, src, m) && anchor <= m.start
    requires RoomOk(|src|, limit, dst.Length) && |src| <= MAX_INPUT_SIZE
    modifies dst
    ensures !fail ==> Emitted(h, src, dst[..], End(m), op, ss)
    ensures !fail ==> anchor <= m.start <= |src| && ss == ss0 + [SeqnAt(src, anchor, m.start, m.start - m.ref, m.ml)]
    ensures fail ==> limit && !WorstCase(|src|, dst.Length)
    ensures fail ==> op0 + SeqnSize(m.start - anchor, m.ml) + LastSize(LASTLITERALS) > dst.Length
  {
    hide Emitted, TrueMatch;
    fail, op := EncodeSequence(h, src, dst, m.start, op0, anchor, m.ml, m.ref, limit, ss0);
    ss := ss0 + [SeqnAt(src, anchor, m.start, m.start - m.ref, m.ml)];
  }
}
