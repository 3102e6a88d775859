/**
  LZ4HC_compress_optimal: the parser that prices every position ahead, walks the table backwards
  to find a path and forwards to write it. Whatever the prices, the path tiles the source with
  literals and true matches.
*/
module HcOptimalParser {
  import opened Bytes
  import opened BlockFormat
  import opened BlockWriter
  import opened HcMatchFinder
  import opened HcSearch
  import opened HcEncoder
  import opened HcThorough

  const OPT_NUM := 4096
  const TRAILING_LITERALS := 3

  // ----- Prices -----

  function LiteralsPrice(litlen: nat): nat {
    if litlen >= RUN_MASK then litlen + 1 + (litlen - RUN_MASK) / 255 else litlen
  }

  function SequencePrice(litlen: nat, mlen: nat): nat
    requires MINMATCH <= mlen
  {
    1 + 2 + LiteralsPrice(litlen)
    + (if mlen >= RUN_MASK + MINMATCH then 1 + (mlen - (RUN_MASK + MINMATCH)) / 255 else 0)
  }

  /** The price of a sequence is the number of bytes that its encoding takes. */
  lemma PriceIsSize(s: Seqn)
    requires s.offset < 65536 && MINMATCH <= s.mlen
    ensures SequencePrice(|s.literals|, s.mlen) == |EncodeSeqn(s)|
  {
  }

  // ----- The table -----

  /** LZ4HC_optimal_t: the last step of the best known path to a position. */
  datatype Cell = Cell(price: int, off: int, mlen: int, litlen: int)

  datatype Settings = Settings(s0: nat, nbSearches: nat, sufficientLen: nat, fullUpdate: bool, favorDecSpeed: bool,
    limit: bool)

  /** A step of a path from source position `pos`: a literal or a match that may be written. */
  ghost predicate StepOk(h: bytes, src: bytes, pos: int, off: int, mlen: int) {
    mlen == 1 || (0 <= pos && MINMATCH <= mlen && MatchOk(h, src, Found(pos, pos - off, mlen)))
  }

  /** The cell of position `p` after `base` holds a step that ends there and starts at or after `base`. */
  ghost predicate CellOk(h: bytes, src: bytes, base: nat, p: nat, c: Cell) {
    && 0 <= c.litlen
    && (if p == 0 then c.mlen == 1 else 1 <= c.mlen <= p && StepOk(h, src, base + p - c.mlen, c.off, c.mlen))
  }

  ghost predicate TableOk(h: bytes, src: bytes, base: nat, cells: seq<Cell>, top: int) {
    top < |cells| && forall p :: 0 <= p <= top ==> CellOk(h, src, base, p, cells[p])
  }

  /** From position `p` the cells spell a path of steps to position `end`. */
  ghost predicate Path(h: bytes, src: bytes, base: nat, cells: seq<Cell>, p: int, end: int)
    decreases end - p
  {
    || p == end
    || ( && 0 <= p < end && p < |cells|
         && 1 <= cells[p].mlen
         && StepOk(h, src, base + p, cells[p].off, cells[p].mlen)
         && Path(h, src, base, cells, p + cells[p].mlen, end))
  }

  /** A path does not depend on the cells before it. */
  lemma {:induction false} PathFrame(h: bytes, src: bytes, base: nat, was: seq<Cell>, now: seq<Cell>, p: int, end: int)
    requires Path(h, src, base, was, p, end) && |was| == |now|
    requires forall i :: p <= i < |was| && 0 <= i ==> now[i] == was[i]
    ensures Path(h, src, base, now, p, end)
    decreases end - p
  {
    if p != end {
      PathFrame(h, src, base, was, now, p + was[p].mlen, end);
    }
  }

  /** A shortened match ending at `p` makes a good cell. */
  lemma {:induction false} MatchCell(h: bytes, src: bytes, base: nat, p: nat, m: Found, mlen: int, c: Cell)
    requires MatchOk(h, src, m) && MINMATCH <= mlen <= m.ml && mlen <= p && m.start == base + p - mlen
    requires c.mlen == mlen && c.off == m.start - m.ref && 0 <= c.litlen
    ensures CellOk(h, src, base, p, c)
  {
    ShortenOk(h, src, m, mlen);
  }

  /** LZ4HC_FindLongerMatch; length 0 when there is none. */
  method FindLonger(ctx: HcContext, cfg: Settings, ghost h: bytes, src: bytes, pos: nat, minLen: nat) returns (m: Found)
    requires CtxOk(ctx, cfg.s0, h, src) && Reached(ctx, cfg.s0, pos)
    requires pos + MFLIMIT <= |src| && 1 <= minLen && pos + minLen + LASTLITERALS <= |src|
    modifies ctx`nextToUpdate, ctx.hashTable, ctx.chainTable
    ensures CtxOk(ctx, cfg.s0, h, src) && Reached(ctx, cfg.s0, pos)
    ensures m.ml == 0 || (m.start == pos && MatchOk(h, src, m))
    ensures m.ml == 0 ==>
      NoneLonger(ScopeOf(ctx, cfg.s0), Effort(cfg.nbSearches, true, cfg.favorDecSpeed), |src|, pos, minLen)
  {
    hide TrueMatch, CtxOk, NoneLonger;
    m := FindWider(ctx, cfg.s0, h, src, pos, pos, minLen, cfg.nbSearches, true, true, cfg.favorDecSpeed);
    if m.ml <= minLen {
      return Found(pos, 0, 0);
    }
    if cfg.favorDecSpeed && 18 < m.ml <= 36 {   /* favor shortcut */
      ShortenOk(h, src, m, 18);
      m := Shorten(m, 18);
    }
  }

  /** Completes the positions after the last match with literals. */
  method SetTrailing(ghost h: bytes, src: bytes, opt: array<Cell>, ghost base: nat, last: nat, ghost top: int)
    requires 1 <= last && last + TRAILING_LITERALS < opt.Length && last <= top
    requires TableOk(h, src, base, opt[..], top)
    modifies opt
    ensures TableOk(h, src, base, opt[..], Max(top, last + TRAILING_LITERALS))
  {
    hide StepOk;
    var addLit := 1;
    while addLit <= TRAILING_LITERALS
      invariant 1 <= addLit <= TRAILING_LITERALS + 1
      invariant TableOk(h, src, base, opt[..], Max(top, last + addLit - 1))
    {
      LiteralStep(h, src, base + last + addLit - 1);
      opt[last + addLit] := Cell(opt[last].price + LiteralsPrice(addLit), 0, 1, addLit);
      addLit := addLit + 1;
    }
  }

  lemma LiteralStep(h: bytes, src: bytes, pos: int)
    ensures StepOk(h, src, pos, 0, 1)
  {
  }

  /** The table after the first match. */
  method InitTable(ghost h: bytes, src: bytes, opt: array<Cell>, ghost base: nat, llen: nat, m: Found)
    requires opt.Length == OPT_NUM + TRAILING_LITERALS && MatchOk(h, src, m) && m.ml < OPT_NUM && m.start == base
    modifies opt
    ensures TableOk(h, src, base, opt[..], m.ml + TRAILING_LITERALS)
  {
    hide StepOk, MatchOk, TrueMatch;
    assert MINMATCH <= m.ml by { MatchBounds(h, src, m); }
    var rPos := 0;
    while rPos < MINMATCH
      invariant 0 <= rPos <= MINMATCH && TableOk(h, src, base, opt[..], rPos - 1)
    {
      LiteralStep(h, src, base + rPos - 1);
      opt[rPos] := Cell(LiteralsPrice(llen + rPos), 0, 1, llen + rPos);
      rPos := rPos + 1;
    }
    var mlen := MINMATCH;
    while mlen <= m.ml
      invariant MINMATCH <= mlen <= m.ml + 1 && TableOk(h, src, base, opt[..], mlen - 1)
    {
      opt[mlen] := Cell(SequencePrice(llen, mlen), m.start - m.ref, mlen, llen);
      MatchCell(h, src, base, mlen, m, mlen, opt[mlen]);
      mlen := mlen + 1;
    }
    SetTrailing(h, src, opt, base, m.ml, m.ml);
  }

  // ----- Filling the table -----

  /** Before a match: the next positions reached with more literals. */
  method TryLiterals(ghost h: bytes, src: bytes, opt: array<Cell>, ghost base: nat, cur: nat, ghost top: nat)
    requires TableOk(h, src, base, opt[..], top) && cur + MINMATCH - 1 <= top
    modifies opt
    ensures TableOk(h, src, base, opt[..], top)
  {
    hide StepOk;
    var baseLitlen := opt[cur].litlen;
    var litlen := 1;
    while litlen < MINMATCH
      invariant 1 <= litlen <= MINMATCH && TableOk(h, src, base, opt[..], top)
    {
      var price := opt[cur].price - LiteralsPrice(baseLitlen) + LiteralsPrice(baseLitlen + litlen);
      var pos := cur + litlen;
      if price < opt[pos].price {
        LiteralStep(h, src, base + pos - 1);
        opt[pos] := Cell(price, 0, 1, baseLitlen + litlen);
      }
      litlen := litlen + 1;
    }
  }

  /** The price of reaching `cur + ml` by a match at `cur`, with the literals before it. */
  method MatchPrice(opt: array<Cell>, cur: nat, ml: nat) returns (ll: nat, price: int)
    requires cur < opt.Length && MINMATCH <= ml && 0 <= opt[cur].litlen
  {
    if opt[cur].mlen == 1 {
      ll := opt[cur].litlen;
      price := (if cur > ll then opt[cur - ll].price else 0) + SequencePrice(ll, ml);
    } else {
      ll := 0;
      price := opt[cur].price + SequencePrice(0, ml);
    }
  }

  /** Sets prices with a match at `cur`, up to its end, which may become the new last position. */
  method TryMatch(ghost h: bytes, src: bytes, opt: array<Cell>, ghost base: nat, cur: nat, last0: nat, m: Found,
      favorDecSpeed: bool)
    returns (last: nat)
    requires opt.Length == OPT_NUM + TRAILING_LITERALS
    requires TableOk(h, src, base, opt[..], last0 + TRAILING_LITERALS) && cur < last0 < OPT_NUM
    requires MatchOk(h, src, m) && m.start == base + cur && cur + m.ml < OPT_NUM
    modifies opt
    ensures last == last0 || last == cur + m.ml
    ensures last0 <= last && TableOk(h, src, base, opt[..], last + TRAILING_LITERALS)
  {
    hide StepOk, MatchOk, TrueMatch;
    MatchBounds(h, src, m);
    last := last0;
    ghost var top := last0 + TRAILING_LITERALS;
    var ml := MINMATCH;
    while ml <= m.ml
      invariant MINMATCH <= ml <= m.ml + 1
      invariant top == Max(last0 + TRAILING_LITERALS, cur + ml - 1)
      invariant last == last0 || (ml == m.ml + 1 && last == cur + m.ml && last0 <= last)
      invariant cur + m.ml <= last + TRAILING_LITERALS || ml <= m.ml
      invariant TableOk(h, src, base, opt[..], top)
    {
      var pos := cur + ml;
      var ll, price := MatchPrice(opt, cur, ml);
      if pos > last + TRAILING_LITERALS || price <= opt[pos].price - (if favorDecSpeed then 1 else 0) {
        if ml == m.ml && last < pos {
          last := pos;
        }
        opt[pos] := Cell(price, m.start - m.ref, ml, ll);
        MatchCell(h, src, base, pos, m, ml, opt[pos]);
      }
      top := Max(top, pos);
      ml := ml + 1;
    }
    SetTrailing(h, src, opt, base, last, top);
  }

  /** What to write: the path to position `cur`, then one step of `mlen`; the walk goes on while it
      is before `last`. */
  datatype Plan = Plan(cur: nat, mlen: int, off: int, last: nat)

  ghost predicate PlanOk(h: bytes, src: bytes, base: nat, cells: seq<Cell>, p: Plan) {
    && TableOk(h, src, base, cells, p.cur)
    && p.cur < p.last <= p.cur + p.mlen
    && StepOk(h, src, base + p.cur, p.off, p.mlen)
  }

  /** From the first match at `base` to a plan. */
  method FillTable(ctx: HcContext, cfg: Settings, ghost h: bytes, src: bytes, opt: array<Cell>, base: nat,
      first: Found, llen: nat)
    returns (plan: Plan)
    requires opt.Length == OPT_NUM + TRAILING_LITERALS && (opt as object) != ctx && (opt as object) != ctx.hashTable
      && (opt as object) != ctx.chainTable
    requires CtxOk(ctx, cfg.s0, h, src) && Reached(ctx, cfg.s0, base)
    requires MatchOk(h, src, first) && first.start == base && first.ml <= cfg.sufficientLen < OPT_NUM
    modifies ctx`nextToUpdate, ctx.hashTable, ctx.chainTable, opt
    ensures CtxOk(ctx, cfg.s0, h, src) && Reached(ctx, cfg.s0, base + plan.last)
    ensures PlanOk(h, src, base, opt[..], plan)
  {
    hide StepOk, MatchOk, TrueMatch, CtxOk;
    MatchBounds(h, src, first);
    InitTable(h, src, opt, base, llen, first);
    var last := first.ml;
    var cur := 1;
    while cur < last
      invariant 1 <= cur <= last < OPT_NUM && base + last + LASTLITERALS <= |src|
      invariant CtxOk(ctx, cfg.s0, h, src) && Reached(ctx, cfg.s0, base + cur - 1)
      invariant TableOk(h, src, base, opt[..], last + TRAILING_LITERALS)
      decreases OPT_NUM - cur
    {
      if base + cur > |src| - MFLIMIT { break; }
      var skip := opt[cur + 1].price <= opt[cur].price
                  && (!cfg.fullUpdate || opt[cur + MINMATCH].price < opt[cur].price + 3);
      if !skip {
        var m := FindLonger(ctx, cfg, h, src, base + cur, if cfg.fullUpdate then MINMATCH - 1 else last - cur);
        if m.ml > 0 {
          MatchBounds(h, src, m);
          if m.ml > cfg.sufficientLen || m.ml + cur >= OPT_NUM {   /* immediate encoding */
            MatchStep(h, src, m);
            return Plan(cur, m.ml, m.start - m.ref, cur + 1);
          }
          TryLiterals(h, src, opt, base, cur, last + TRAILING_LITERALS);
          last := TryMatch(h, src, opt, base, cur, last, m, cfg.favorDecSpeed);
        }
      }
      cur := cur + 1;
    }
    var c := opt[last];
    plan := Plan(last - c.mlen, c.mlen, c.off, last);
  }

  lemma MatchStep(h: bytes, src: bytes, m: Found)
    requires MatchOk(h, src, m)
    ensures StepOk(h, src, m.start, m.start - m.ref, m.ml)
  {
  }

  // ----- Reverse traversal -----

  lemma {:induction false} PathExtend(h: bytes, src: bytes, base: nat, was: seq<Cell>, now: seq<Cell>, p: nat,
      mlen: int, off: int, end: int)
    requires p < |was| == |now| && 1 <= mlen && p + mlen <= end
    requires Path(h, src, base, was, p + mlen, end) && StepOk(h, src, base + p, off, mlen)
    requires now[p].mlen == mlen && now[p].off == off
    requires forall i :: 0 <= i < |was| && i != p ==> now[i] == was[i]
    ensures Path(h, src, base, now, p, end)
  {
    hide StepOk;
    PathFrame(h, src, base, was, now, p + mlen, end);
  }

  /** Turns the table around: the cells of the path hold the step that leaves their position
      instead of the one that reaches it. The traversal always ends at position 0. */
  method ReverseTraversal(ghost h: bytes, src: bytes, opt: array<Cell>, ghost base: nat, plan: Plan)
    requires PlanOk(h, src, base, opt[..], plan)
    modifies opt
    ensures Path(h, src, base, opt[..], 0, plan.cur + plan.mlen)
  {
    hide StepOk;
    ghost var end := plan.cur + plan.mlen;
    var candidatePos: nat := plan.cur;
    var selectedLength, selectedOffset := plan.mlen, plan.off;
    var done := false;
    assert Path(h, src, base, opt[..], candidatePos + selectedLength, end);
    while !done
      invariant !done ==>
                  && TableOk(h, src, base, opt[..], candidatePos)
                  && 1 <= selectedLength && candidatePos + selectedLength <= end
                  && StepOk(h, src, base + candidatePos, selectedOffset, selectedLength)
                  && Path(h, src, base, opt[..], candidatePos + selectedLength, end)
      invariant done ==> candidatePos == 0 && Path(h, src, base, opt[..], 0, end)
      decreases !done, candidatePos
    {
      var nextLength, nextOffset := opt[candidatePos].mlen, opt[candidatePos].off;
      assert CellOk(h, src, base, candidatePos, opt[..][candidatePos]);
      ghost var was := opt[..];
      opt[candidatePos] := opt[candidatePos].(mlen := selectedLength, off := selectedOffset);
      PathExtend(h, src, base, was, opt[..], candidatePos, selectedLength, selectedOffset, end);
      selectedLength, selectedOffset := nextLength, nextOffset;
      if nextLength > candidatePos {
        done := true;
      } else {
        candidatePos := candidatePos - nextLength;
      }
    }
  }

  // ----- Writing the path -----

  /** Encodes the matches of the path in order; its literals are left to the next sequence. */
  method EncodePath(ghost h: bytes, src: bytes, dst: array<byte>, opt: array<Cell>, base: nat, last: nat,
      ghost end: int,
                    anchor0: nat, op0: nat, limit: bool, ghost ss0: seq<Seqn>)
    returns (fail: bool, ip: nat, anchor: nat, op: nat, ghost ss: seq<Seqn>)
    requires (opt as object) != dst && Path(h, src, base, opt[..], 0, end) && 1 <= last <= end
    requires Emitted(h, src, dst[..], anchor0, op0, ss0) && anchor0 <= base
    requires RoomOk(|src|, limit, dst.Length) && |src| <= MAX_INPUT_SIZE
    modifies dst
    ensures !fail ==> Emitted(h, src, dst[..], anchor, op, ss) && anchor <= ip && base + last <= ip
    ensures fail ==> limit && !WorstCase(|src|, dst.Length) && Unfit(h, src, dst.Length)
  {
    hide Emitted, MatchOk, TrueMatch, Overflows, Unfit;
    fail, ip, anchor, op, ss := false, base, anchor0, op0, ss0;
    var rPos := 0;
    while rPos < last
      invariant 0 <= rPos && ip == base + rPos && anchor <= ip
      invariant Path(h, src, base, opt[..], rPos, end)
      invariant Emitted(h, src, dst[..], anchor, op, ss)
      decreases last - rPos
    {
      var ml, offset := opt[rPos].mlen, opt[rPos].off;
      assert opt[..][rPos] == opt[rPos];
      if ml == 1 {   /* literal */
        ip, rPos := ip + 1, rPos + 1;
      } else {
        fail, op, ss := EncodeOne(h, src, dst, Found(ip, ip - offset, ml), anchor, op, limit, ss);
        if fail {
          UnfitIs(h, src, dst.Length, ip + ml, ss);
          return;
        }
        ip, rPos := ip + ml, rPos + ml;
        anchor := ip;
      }
    }
  }

  /** LZ4HC_compress_optimal: a positive result is the size of a block that decodes to the source,
      0 means that a limited output was too small. */
  method CompressOptimal(ctx: HcContext, s0: nat, ghost h: bytes, src: bytes, dst: array<byte>,
                         nbSearches: nat, sufficientLen: nat, limit: bool, fullUpdate: bool, favorDecSpeed: bool)
    returns (result: nat)
    requires CtxOk(ctx, s0, h, src) && Reached(ctx, s0, 0) && Apart(ctx, dst)
    requires RoomOk(|src|, limit, dst.Length) && |src| <= MAX_INPUT_SIZE
    modifies ctx`nextToUpdate, ctx.hashTable, ctx.chainTable, dst
    ensures ctx.Valid() && ScopeOf(ctx, s0) == old(ScopeOf(ctx, s0))
    ensures result > 0 ==> result <= dst.Length && IsBlockOf(h, src, dst[..result])
    ensures result > 0 ==> result <= |src| + |src| / 255 + 2
    ensures result == 0 ==> limit && !WorstCase(|src|, dst.Length) && Unfit(h, src, dst.Length)
  {
    hide Emitted, MatchOk, TrueMatch, CtxOk, IsBlockOf, PlanOk, Path, Overflows, Unfit;
    var cfg := Settings(s0, nbSearches, Min(sufficientLen, OPT_NUM - 1), fullUpdate, favorDecSpeed, limit);
    var opt := new Cell[OPT_NUM + TRAILING_LITERALS](_ => Cell(0, 0, 0, 0));
    var ip: nat, anchor: nat, op: nat := 0, 0, 0;
    ghost var ss: seq<Seqn> := [];
    ParsedStart(h, src, dst[..]);
    while ip <= |src| - MFLIMIT
      invariant anchor <= ip && fresh(opt) && opt.Length == OPT_NUM + TRAILING_LITERALS
      invariant CtxOk(ctx, s0, h, src) && Reached(ctx, s0, ip) && Emitted(h, src, dst[..], anchor, op, ss)
      decreases |src| - ip
    {
      var first := FindLonger(ctx, cfg, h, src, ip, MINMATCH - 1);
      if first.ml == 0 {
        ip := ip + 1;
      } else {
        var fail;
        MatchBounds(h, src, first);
        if first.ml > cfg.sufficientLen {   /* good enough solution : immediate encoding */
          fail, op, ss := EncodeOne(h, src, dst, first, anchor, op, limit, ss);
          if fail { UnfitIs(h, src, dst.Length, End(first), ss); }
          ip := End(first);
          anchor := ip;
        } else {
          var plan := FillTable(ctx, cfg, h, src, opt, ip, first, ip - anchor);
          PlanBounds(h, src, ip, opt[..], plan);
          ReverseTraversal(h, src, opt, ip, plan);
          fail, ip, anchor, op,
            ss := EncodePath(h, src, dst, opt, ip, plan.last, plan.cur + plan.mlen, anchor, op, limit, ss);
        }
        if fail {
          CtxValid(ctx, s0, h, src);
          return 0;
        }
      }
    }
    result := EncodeEnd(h, src, dst, op, anchor, limit, ss);
    CtxValid(ctx, s0, h, src);
  }

  lemma PlanBounds(h: bytes, src: bytes, base: nat, cells: seq<Cell>, p: Plan)
    requires PlanOk(h, src, base, cells, p)
    ensures 1 <= p.last <= p.cur + p.mlen
  {
  }
}
