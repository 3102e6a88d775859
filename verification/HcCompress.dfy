/** LZ4HC_compress_generic: the choice of a parser by compression level, on a context that may hold
    earlier blocks in its prefix and in its external dictionary. */
module HcCompress {
  import opened Bytes
  import opened BlockFormat
  import opened BlockWriter
  import opened HcMatchFinder
  import opened HcSearch
  import opened HcEncoder
  import opened HcLazyParser
  import opened HcOptimalParser
  import opened HcThorough

  datatype Strategy = HashChain | Optimal

  datatype Params = Params(strategy: Strategy, nbSearches: nat, targetLength: nat)

  const CLEVEL_DEFAULT := 9
  const CLEVEL_MAX := 12

  /** clTable */
  function ParamsOf(cLevel: int): Params {
    var level := if cLevel < 1 then CLEVEL_DEFAULT else Min(CLEVEL_MAX, cLevel);
    if level <= 2 then Params(HashChain, 2, 16)
    else if level == 3 then Params(HashChain, 4, 16)
    else if level == 4 then Params(HashChain, 8, 16)
    else if level == 5 then Params(HashChain, 16, 16)
    else if level == 6 then Params(HashChain, 32, 16)
    else if level == 7 then Params(HashChain, 64, 16)
    else if level == 8 then Params(HashChain, 128, 16)
    else if level == 9 then Params(HashChain, 256, 16)
    else if level == 10 then Params(Optimal, 96, 64)
    else if level == 11 then Params(Optimal, 512, 128)
    else Params(Optimal, 16384, OPT_NUM)
  }

  /** How hard the lazy parser of a level tries. */
  ghost function EffortOf(cLevel: int): Effort {
    Effort(ParamsOf(cLevel).nbSearches, false, false)
  }

  /** What holds of a result at every level: a refusal is for a parse that does not fit; at the levels of the lazy
      parser that parse and the blocks are thorough. */
  ghost predicate Careful(sc: Scope, cLevel: int, h: bytes, src: bytes, dst: bytes, result: nat)
    requires result <= |dst|
  {
    && (result == 0 ==> Unfit(h, src, |dst|))
    && (ParamsOf(cLevel).strategy.HashChain? ==>
          if result == 0 then Refused(sc, EffortOf(cLevel), h, src, |dst|)
          else ThoroughBlock(sc, EffortOf(cLevel), h, src, dst[..result]))
  }

  /** At every level the block decodes to the source, after the history the context holds; with
      the worst-case capacity the compression cannot fail. */
  method CompressGeneric(ctx: HcContext, src: bytes, dst: array<byte>, cLevel: int, favorDecSpeed: bool, limit: bool)
    returns (result: nat)
    requires ctx.Valid() && Apart(ctx, dst) && RoomOk(|src|, limit, dst.Length)
    requires ctx.dictLimit + |ctx.prefix| + |src| < U32_SIZE
    modifies ctx`prefix, ctx`nextToUpdate, ctx.hashTable, ctx.chainTable, dst
    ensures ctx.Valid() && (|src| <= MAX_INPUT_SIZE ==> ctx.prefix == old(ctx.prefix) + src)
    ensures result > 0 ==> result <= dst.Length && IsBlockOf(old(ctx.dict + ctx.prefix), src, dst[..result])
    ensures result > 0 ==> result <= |src| + |src| / 255 + 2
    ensures result == 0 ==> |src| > MAX_INPUT_SIZE || (limit && !WorstCase(|src|, dst.Length))
    ensures result <= dst.Length
    ensures |src| <= MAX_INPUT_SIZE ==>
      Careful(ScopeOf(ctx, old(|ctx.prefix|)), cLevel, old(ctx.dict + ctx.prefix), src, dst[..], result)
    ensures unchanged(ctx`dict, ctx`lowLimit, ctx`dictLimit, ctx`since)
  {
    hide IsBlockOf, ThoroughBlock, Refused, Unfit, ScopeOf;
    if |src| > MAX_INPUT_SIZE { return 0; }
    ghost var h := ctx.All();
    var s0 := |ctx.prefix|;
    ctx.Extend(src);
    assert ctx.prefix[..s0] == old(ctx.prefix);
    var params := ParamsOf(cLevel);
    match params.strategy
    case HashChain =>
      result := CompressHashChain(ctx, s0, h, src, dst, params.nbSearches, limit);
      if result == 0 { RefusedUnfit(ScopeOf(ctx, s0), EffortOf(cLevel), h, src, dst.Length); }
      assert dst[..][..result] == dst[..result];
    case Optimal =>
      result := CompressOptimal(ctx, s0, h, src, dst, params.nbSearches, params.targetLength, limit,
                                cLevel >= CLEVEL_MAX, favorDecSpeed);
  }
}
