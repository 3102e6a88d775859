/**
  LZ4_streamHC_t: the high-compression stream between calls, with its prefix and its external dictionary
  somewhere in memory, resets, saved and loaded dictionaries. Addresses are positions in one memory.
*/
module HcStream {
  import opened Bytes
  import opened BlockWriter
  import opened HcChains
  import opened HcMatchFinder
  import opened HcSearch
  import opened HcEncoder
  import opened HcCompress
  import opened HcThorough
  import opened FastStream

  const GB2: nat := 0x8000_0000

  /** What a source leaves of a dictionary that it overlaps. */
  function TrimLength(d: nat, z: nat, source: nat, n: nat): (k: nat)
    ensures k <= z
  {
    if source + n > d && source < d + z then
      var left := d + z - Min(source + n, d + z);
      if left < 4 then 0 else left
    else z
  }

  lemma TrimLess(d0: nat, z0: nat, d: nat, z: nat, source: nat, n: nat)
    requires d + z == d0 + z0 && (z == z0 || z == KB64 < z0)
    ensures TrimLength(d, z, source, n) <= TrimLength(d0, z0, source, n)
  {
  }

  /** The last `k` bytes before `end`. */
  function LastBytes(mem: bytes, end: nat, k: nat): bytes
    requires k <= end <= |mem|
  {
    mem[end - k..end]
  }

  lemma LessOf(mem: bytes, end: nat, k: nat, j: nat, all: bytes)
    requires j <= k <= end <= |mem| && EndOf(LastBytes(mem, end, k), all)
    ensures EndOf(LastBytes(mem, end, j), all)
  {
    EndOfEnd(LastBytes(mem, end, k), all, j);
    SubSlice(mem, end - k, end, k - j, k);
  }

  lemma EndOfSecond(d: bytes, p: bytes, all: bytes)
    requires EndOf(d + p, all)
    ensures EndOf(p, all)
  {
    EndOfEnd(d + p, all, |p|);
    assert (d + p)[|d|..] == p;
  }

  /** What a source leaves of a prefix that it continues, or else leaves, and of an external dictionary. */
  function UsableOf(mem: bytes, p: nat, pz: nat, d: nat, dz: nat, source: nat, n: nat): bytes
    requires p + pz <= |mem| && d + dz <= |mem|
  {
    if source == p + pz then LastBytes(mem, d + dz, TrimLength(d, dz, source, n)) + LastBytes(mem, p + pz, pz)
    else LastBytes(mem, p + pz, TrimLength(p, pz, source, n))
  }

  /** Less of both is still the end of the history. */
  lemma UsableLess(mem: bytes, p: nat, pz: nat, d: nat, dz: nat, p': nat, pz': nat, d': nat, dz': nat, source: nat,
      n: nat, all: bytes)
    requires p + pz <= |mem| && d + dz <= |mem| && p' + pz' == p + pz && d' + dz' <= |mem|
    requires pz' == pz || pz' == KB64 < pz
    requires (pz' == pz && d' == d && dz' == dz) || dz' == 0
    requires EndOf(UsableOf(mem, p, pz, d, dz, source, n), all)
    ensures EndOf(UsableOf(mem, p', pz', d', dz', source, n), all)
  {
    hide EndOf;
    var end := p + pz;
    if source == end {
      if dz' == 0 {
        EndOfSecond(LastBytes(mem, d + dz, TrimLength(d, dz, source, n)), LastBytes(mem, end, pz), all);
        LessOf(mem, end, pz, pz', all);
        assert LastBytes(mem, d' + dz', TrimLength(d', dz', source, n)) + LastBytes(mem, end, pz')
          == LastBytes(mem, end, pz');
      }
    } else {
      TrimLess(p, pz, p', pz', source, n);
      LessOf(mem, end, TrimLength(p, pz, source, n), TrimLength(p', pz', source, n), all);
    }
  }

  /** After an end of the history there is a parse of the source that the capacity has no room for. */
  ghost predicate NoneFits(all: bytes, src: bytes, capacity: nat) {
    exists h :: EndOf(h, all) && Unfit(h, src, capacity)
  }

  lemma NoneFitsAfter(h: bytes, all: bytes, src: bytes, capacity: nat)
    requires EndOf(h, all) && Unfit(h, src, capacity)
    ensures NoneFits(all, src, capacity)
  {
  }

  /** A region within `d..d + z` that ends where that ends, or nothing. */
  predicate Tail(d': nat, z': nat, d: nat, z: nat) {
    z' == 0 || (d <= d' && d' + z' == d + z)
  }

  class StreamHC {
    const ctx: HcContext
    var started: bool          // prefixStart != NULL
    var startIndex: nat        // before the start: the index the tables reach to
    var prefixStart: nat
    var dictStart: nat
    var dirty: bool
    var compressionLevel: int
    var favorDecSpeed: bool

    /** Tables whose entries are at most `limit`. */
    ghost predicate Tables(limit: nat)
      reads ctx, ctx.hashTable, ctx.chainTable
    {
      && ctx.hashTable.Length == HASH_SIZE && ctx.chainTable.Length == CHAIN_SIZE && ctx.hashTable != ctx.chainTable
      && (forall i :: 0 <= i < HASH_SIZE ==> ctx.hashTable[i] <= limit)
      && (forall i :: 0 <= i < CHAIN_SIZE ==> ctx.chainTable[i] < 65536)
    }

    /** What every operation keeps. */
    ghost predicate Valid()
      reads this, ctx, ctx.hashTable, ctx.chainTable
    {
      if started then
        ctx.Valid() && ctx.dictLimit + |ctx.prefix| <= GB2 + MAX_INPUT_SIZE
      else
        Tables(startIndex)
    }

    /** Prefix and external dictionary are what the memory holds. */
    ghost predicate InMemory(mem: array<byte>)
      reads this, ctx, mem
    {
      started ==>
        && prefixStart + |ctx.prefix| <= mem.Length && dictStart + |ctx.dict| <= mem.Length
        && ctx.prefix == mem[prefixStart..prefixStart + |ctx.prefix|]
        && ctx.dict == mem[dictStart..dictStart + |ctx.dict|]
    }

    /** The tables speak of all that the context holds. */
    ghost predicate AllKnown()
      reads this, ctx
    {
      started ==> ctx.since <= ctx.lowLimit
    }

    /** LZ4_createStreamHC */
    constructor ()
      ensures Valid() && !started && startIndex == 0 && fresh(ctx) && fresh(ctx.hashTable) && fresh(ctx.chainTable)
    {
      ctx := new HcContext([]);
      started, startIndex, prefixStart, dictStart, dirty := false, 0, 0, 0, false;
      compressionLevel, favorDecSpeed := CLEVEL_DEFAULT, false;
    }

    /** LZ4HC_clearTables, and the tables of LZ4_initStreamHC. */
    method FillTables(chain: nat)
      requires Tables(startIndex) && chain < 65536
      modifies ctx.hashTable, ctx.chainTable
      ensures Tables(0)
    {
      forall k | 0 <= k < ctx.hashTable.Length {
        ctx.hashTable[k] := 0;
      }
      forall k | 0 <= k < ctx.chainTable.Length {
        ctx.chainTable[k] := chain;
      }
    }

    /** LZ4HC_init_internal: a new prefix at `start`, behind all indices in use. */
    method InitInternal(start: nat)
      requires !started && Valid()
      modifies this`started, this`prefixStart, this`dictStart, ctx, ctx.hashTable, ctx.chainTable
      ensures Valid() && started && ctx.dict == [] && ctx.prefix == [] && prefixStart == start && dictStart == start
      ensures ctx.nextToUpdate == ctx.dictLimit <= GB1 + KB64 && AllKnown()
      ensures startIndex <= GB1 ==> ctx.dictLimit == startIndex + KB64
    {
      var newStartingOffset := startIndex;
      if newStartingOffset > GB1 {
        FillTables(0xFFFF);
        newStartingOffset := 0;
      }
      newStartingOffset := newStartingOffset + KB64;
      ctx.nextToUpdate, ctx.dictLimit, ctx.lowLimit := newStartingOffset, newStartingOffset, newStartingOffset;
      ctx.dict, ctx.prefix := [], [];
      ctx.since := newStartingOffset;
      NothingKnown(ctx.View(), ctx.hashTable[..], ctx.chainTable[..], ctx.since, ctx.since);
      prefixStart, dictStart, started := start, start, true;
    }

    /** LZ4_initStreamHC: everything zero. */
    method InitStream()
      requires Valid()
      modifies this, ctx.hashTable, ctx.chainTable
      ensures Valid() && !started && startIndex == 0
    {
      if started { startIndex := ctx.nextToUpdate; }
      started := false;
      FillTables(0);
      startIndex, prefixStart, dictStart, dirty, compressionLevel, favorDecSpeed := 0, 0, 0, false, CLEVEL_DEFAULT,
        false;
    }

    /** LZ4_setCompressionLevel */
    method SetCompressionLevel(level: int)
      modifies this`compressionLevel
      ensures 1 <= compressionLevel <= CLEVEL_MAX
    {
      compressionLevel := if level < 1 then CLEVEL_DEFAULT else if level > CLEVEL_MAX then CLEVEL_MAX else level;
    }

    /** LZ4_resetStreamHC_fast: the tables stay unless a compression has failed. */
    method ResetFast(level: int)
      requires Valid()
      modifies this, ctx.hashTable, ctx.chainTable
      ensures Valid() && !started
    {
      if dirty {
        InitStream();
      } else {
        if started { startIndex := ctx.dictLimit + |ctx.prefix|; }
        started, prefixStart := false, 0;
      }
      SetCompressionLevel(level);
    }

    // ----- Dictionaries -----

    /** LZ4_loadDictHC */
    method LoadDict(mem: array<byte>, dictionary: nat, size: nat) returns (dictSize: nat)
      requires Valid() && dictionary + size <= mem.Length
      modifies this, ctx, ctx.hashTable, ctx.chainTable
      ensures Valid() && started && InMemory(mem) && AllKnown()
      ensures dictSize == Min(size, KB64) && ctx.dict == [] && |ctx.prefix| == dictSize
      ensures prefixStart + dictSize == dictionary + size && ctx.dictLimit + dictSize <= 3 * KB64
      ensures compressionLevel == old(compressionLevel) || 1 <= compressionLevel <= CLEVEL_MAX
    {
      var start := dictionary;
      dictSize := size;
      if dictSize > KB64 {
        start := start + (dictSize - KB64);
        dictSize := KB64;
      }
      var cLevel := compressionLevel;
      InitStream();
      SetCompressionLevel(cLevel);
      InitInternal(start);
      ctx.Extend(mem[start..start + dictSize]);
      assert ctx.dict == mem[dictStart..dictStart] && ctx.prefix == mem[start..start + dictSize];
      if dictSize >= 4 { ctx.Insert(dictSize - 3); }
    }

    /** LZ4_saveDictHC: the end of the prefix moves to a safe place and is all that is left. */
    method SaveDict(mem: array<byte>, safe: nat, size: nat, ghost all: bytes) returns (dictSize: nat)
      requires Valid() && started && Placed(mem.Length) && safe + size <= mem.Length
      requires EndOf(LastBytes(mem[..], prefixStart + |ctx.prefix|, |ctx.prefix|), all)
      modifies this`prefixStart, this`dictStart, ctx`prefix, ctx`dict, ctx`dictLimit, ctx`lowLimit
      modifies ctx`nextToUpdate, ctx`since, mem
      ensures Valid() && InMemory(mem) && prefixStart == safe && |ctx.prefix| == dictSize && ctx.dict == []
      ensures dictSize == (if size < 4 then 0 else Min(Min(size, KB64), old(|ctx.prefix|)))
      ensures EndOf(ctx.prefix, all)
      ensures forall i :: 0 <= i < mem.Length && !(safe <= i < safe + dictSize) ==> mem[i] == old(mem[i])
      ensures old(AllKnown() && InMemory(mem)) ==> AllKnown()
    {
      hide EndOf, Valid, InMemory;
      Look(mem);
      PrefixThere(mem);
      dictSize := SaveHeld(mem, safe, size, all);
    }

    method SaveHeld(mem: array<byte>, safe: nat, size: nat, ghost all: bytes) returns (dictSize: nat)
      requires Valid() && started && InMemory(mem) && safe + size <= mem.Length && EndOf(ctx.prefix, all)
      modifies this`prefixStart, this`dictStart, ctx`prefix, ctx`dict, ctx`dictLimit, ctx`lowLimit
      modifies ctx`nextToUpdate, ctx`since, mem
      ensures Valid() && InMemory(mem) && prefixStart == safe && |ctx.prefix| == dictSize && ctx.dict == []
      ensures dictSize == (if size < 4 then 0 else Min(Min(size, KB64), old(|ctx.prefix|)))
      ensures EndOf(ctx.prefix, all)
      ensures forall i :: 0 <= i < mem.Length && !(safe <= i < safe + dictSize) ==> mem[i] == old(mem[i])
      ensures old(AllKnown() && InMemory(mem)) ==> AllKnown()
    {
      hide EndOf, Valid, InMemory;
      var prefixSize := |ctx.prefix|;
      dictSize := if size > KB64 then KB64 else size;
      if dictSize < 4 { dictSize := 0; }
      if dictSize > prefixSize { dictSize := prefixSize; }
      EndOfEnd(ctx.prefix, all, dictSize);
      KeepEnd(mem, safe, dictSize);
    }

    method KeepEnd(mem: array<byte>, safe: nat, n: nat)
      requires Valid() && started && InMemory(mem) && n <= |ctx.prefix| && safe + n <= mem.Length
      modifies this`prefixStart, this`dictStart, ctx`prefix, ctx`dict, ctx`dictLimit, ctx`lowLimit
      modifies ctx`nextToUpdate, ctx`since, mem
      ensures Valid() && InMemory(mem) && prefixStart == safe && ctx.dict == []
      ensures ctx.prefix == old(ctx.prefix)[|old(ctx.prefix)| - n..]
      ensures forall i :: 0 <= i < mem.Length && !(safe <= i < safe + n) ==> mem[i] == old(mem[i])
      ensures old(AllKnown() && InMemory(mem)) ==> AllKnown()
    {
      hide Valid, InMemory;
      ghost var tail := ctx.prefix[|ctx.prefix| - n..];
      MoveDict(mem, safe, n);
      CutTo(safe, n);
      AllInPrefix(mem, safe, tail);
    }

    lemma PrefixThere(mem: array<byte>)
      requires started && InMemory(mem)
      ensures prefixStart + |ctx.prefix| <= mem.Length
      ensures ctx.prefix == LastBytes(mem[..], prefixStart + |ctx.prefix|, |ctx.prefix|)
    {
    }

    lemma AllInPrefix(mem: array<byte>, start: nat, tail: bytes)
      requires prefixStart == start && dictStart == start && ctx.prefix == tail && ctx.dict == []
      requires start + |tail| <= mem.Length && mem[start..start + |tail|] == tail
      ensures InMemory(mem)
    {
    }

    /** Only the last `dictSize` bytes of the prefix are left, at `safe`. */
    method CutTo(safe: nat, dictSize: nat)
      requires Valid() && started && dictSize <= |ctx.prefix|
      modifies this`prefixStart, this`dictStart, ctx`prefix, ctx`dict, ctx`dictLimit, ctx`lowLimit, ctx`nextToUpdate
      modifies ctx`since
      ensures Valid() && prefixStart == safe && dictStart == safe && ctx.dict == []
      ensures ctx.prefix == old(ctx.prefix[|ctx.prefix| - dictSize..])
      ensures old(AllKnown()) ==> AllKnown()
    {
      var prefixSize := |ctx.prefix|;
      var endIndex := prefixSize + ctx.dictLimit;
      ctx.KeepEnd(endIndex, dictSize);
      prefixStart, dictStart := safe, safe;
    }

    method MoveDict(mem: array<byte>, safe: nat, n: nat)
      requires InMemory(mem) && started && n <= |ctx.prefix| && safe + n <= mem.Length
      modifies mem
      ensures mem[safe..safe + n] == ctx.prefix[|ctx.prefix| - n..]
      ensures forall i :: 0 <= i < mem.Length && !(safe <= i < safe + n) ==> mem[i] == old(mem[i])
    {
      hide InMemory;
      PrefixTail(mem, n);
      if n > 0 { Memmove(mem, safe, prefixStart + |ctx.prefix| - n, n); }
    }

    lemma PrefixTail(mem: array<byte>, n: nat)
      requires InMemory(mem) && started && n <= |ctx.prefix|
      ensures var end := prefixStart + |ctx.prefix|;
        end <= mem.Length && ctx.prefix[|ctx.prefix| - n..] == mem[end - n..end]
    {
      var end := prefixStart + |ctx.prefix|;
      SubSlice(mem[..], prefixStart, end, |ctx.prefix| - n, |ctx.prefix|);
    }

    // ----- Linked blocks -----

    /** The segments fit the memory. */
    ghost predicate Placed(size: nat)
      reads this, ctx
    {
      started ==> prefixStart + |ctx.prefix| <= size && dictStart + |ctx.dict| <= size
    }

    /** What a source at `source` leaves of the history. */
    ghost function Usable(mem: bytes, source: nat, n: nat): bytes
      reads this, ctx
      requires Placed(|mem|)
    {
      if started then UsableOf(mem, prefixStart, |ctx.prefix|, dictStart, |ctx.dict|, source, n) else []
    }

    /** The context holds pointers: it sees what the memory holds now. */
    method Look(mem: array<byte>)
      requires Valid() && started && Placed(mem.Length)
      modifies ctx`dict, ctx`prefix, ctx`since
      ensures old(AllKnown() && InMemory(mem)) ==> AllKnown()
      ensures Valid() && InMemory(mem) && |ctx.dict| == old(|ctx.dict|) && |ctx.prefix| == old(|ctx.prefix|)
    {
      ctx.Replace(mem[dictStart..dictStart + |ctx.dict|], mem[prefixStart..prefixStart + |ctx.prefix|]);
    }

    /** "Check overflow" */
    method Reload(mem: array<byte>)
      requires Valid() && started && InMemory(mem)
      modifies this, ctx, ctx.hashTable, ctx.chainTable
      ensures Valid() && started && InMemory(mem)
      ensures prefixStart + |ctx.prefix| == old(prefixStart + |ctx.prefix|)
      ensures |ctx.prefix| == old(|ctx.prefix|) || |ctx.prefix| == KB64 < old(|ctx.prefix|)
      ensures (ctx.dict == old(ctx.dict) && dictStart == old(dictStart) && |ctx.prefix| == old(|ctx.prefix|))
        || ctx.dict == []
      ensures ctx.dictLimit + |ctx.prefix| <= GB2 && (old(AllKnown()) ==> AllKnown())
    {
      if |ctx.prefix| + ctx.dictLimit > GB2 {
        var dictSize := |ctx.prefix|;
        if dictSize > KB64 { dictSize := KB64; }
        dictSize := LoadDict(mem, prefixStart + |ctx.prefix| - dictSize, dictSize);
      }
    }

    /** "Check if blocks follow each other" */
    method Follow(mem: array<byte>, source: nat)
      requires Valid() && started && InMemory(mem) && source <= mem.Length && ctx.dictLimit + |ctx.prefix| <= GB2
      modifies this`prefixStart, this`dictStart, ctx, ctx.hashTable, ctx.chainTable
      ensures Valid() && InMemory(mem)
      ensures prefixStart + |ctx.prefix| == source && ctx.dictLimit + |ctx.prefix| <= GB2
      ensures old(AllKnown()) ==> AllKnown()
      ensures if old(prefixStart + |ctx.prefix|) == source then
                ctx.dict == old(ctx.dict) && ctx.prefix == old(ctx.prefix)
                && dictStart == old(dictStart) && prefixStart == old(prefixStart)
              else
                ctx.dict == old(ctx.prefix) && ctx.prefix == [] && dictStart == old(prefixStart)
    {
      if source != prefixStart + |ctx.prefix| {
        ctx.SetExternalDict();
        dictStart := prefixStart;
        prefixStart := source;
      }
    }

    lemma DictTail(mem: array<byte>, cut: nat)
      requires started && InMemory(mem) && cut <= |ctx.dict|
      ensures ctx.dict[cut..] == mem[dictStart + cut..dictStart + |ctx.dict|]
    {
      SubSlice(mem[..], dictStart, dictStart + |ctx.dict|, cut, |ctx.dict|);
    }

    /** The external dictionary without its first `cut` bytes. */
    method DropFront(mem: array<byte>, cut: nat)
      requires Valid() && started && InMemory(mem) && cut <= |ctx.dict|
      modifies this`dictStart, ctx`dict, ctx`lowLimit, ctx`since
      ensures Valid() && InMemory(mem) && dictStart == old(dictStart) + cut && |ctx.dict| == old(|ctx.dict|) - cut
      ensures ctx.dict == LastBytes(mem[..], dictStart + |ctx.dict|, |ctx.dict|)
      ensures old(AllKnown()) ==> AllKnown()
    {
      hide HcContext.Valid;
      DictTail(mem, cut);
      ctx.DropFront(cut);
      dictStart := dictStart + cut;
    }

    method DropDict(mem: array<byte>)
      requires Valid() && started && InMemory(mem)
      modifies this`dictStart, ctx`dict, ctx`lowLimit, ctx`since
      ensures Valid() && InMemory(mem) && ctx.dict == [] && (old(AllKnown()) ==> AllKnown())
    {
      ctx.DropFront(|ctx.dict|);
      dictStart := prefixStart;
    }

    /** "Check overlapping input/dictionary space" */
    method TrimDict(mem: array<byte>, source: nat, n: nat)
      requires Valid() && started && InMemory(mem)
      modifies this`dictStart, ctx`dict, ctx`lowLimit, ctx`since
      ensures Valid() && InMemory(mem)
      ensures var z := TrimLength(old(dictStart), old(|ctx.dict|), source, n);
        ctx.dict == LastBytes(mem[..], old(dictStart + |ctx.dict|), z)
      ensures Tail(dictStart, |ctx.dict|, old(dictStart), old(|ctx.dict|))
      ensures old(AllKnown()) ==> AllKnown()
    {
      hide Valid;
      assert ctx.dict == LastBytes(mem[..], dictStart + |ctx.dict|, |ctx.dict|);
      var sourceEnd := source + n;
      var dictBegin, dictEnd := dictStart, dictStart + |ctx.dict|;
      if sourceEnd > dictBegin && source < dictEnd {
        if sourceEnd > dictEnd { sourceEnd := dictEnd; }
        DropFront(mem, sourceEnd - dictStart);
        if |ctx.dict| < 4 { DropDict(mem); }
      }
    }

    /** The prefix now begins with the source at `source` or goes on behind what it was; the external
        dictionary is the end of what it was or of the prefix that has been left. */
    ghost predicate Moved(was: bool, p: nat, pz: nat, d: nat, dz: nat, source: nat)
      reads this, ctx
    {
      && (prefixStart == source || (was && p <= prefixStart && p + pz == source))
      && (|ctx.dict| == 0 || (was && (Tail(dictStart, |ctx.dict|, d, dz) || Tail(dictStart, |ctx.dict|, p, pz))))
    }

    /** The history made ready for a source: what is left of it is the end of `all`. */
    method Arrange(mem: array<byte>, source: nat, n: nat, ghost all: bytes)
      requires Valid() && Placed(mem.Length) && 0 < source && source + n <= mem.Length
      requires EndOf(Usable(mem[..], source, n), all)
      modifies this, ctx, ctx.hashTable, ctx.chainTable
      ensures Valid() && started && InMemory(mem)
      ensures prefixStart + |ctx.prefix| == source && ctx.dictLimit + |ctx.prefix| <= GB2
      ensures EndOf(ctx.dict + ctx.prefix, all)
      ensures old(AllKnown() && InMemory(mem)) ==> AllKnown()
      ensures Moved(old(started), old(prefixStart), old(|ctx.prefix|), old(dictStart), old(|ctx.dict|), source)
    {
      hide EndOf, Valid, AllKnown, TrimLength;
      if !started { InitInternal(source); }
      Look(mem);
      assert EndOf(Usable(mem[..], source, n), all) by { assert LastBytes(mem[..], source, 0)
        + LastBytes(mem[..], source, 0) == []; }
      ReloadFor(mem, source, n, all);
      Connect(mem, source, n, all);
    }

    method ReloadFor(mem: array<byte>, source: nat, n: nat, ghost all: bytes)
      requires Valid() && started && InMemory(mem) && EndOf(Usable(mem[..], source, n), all)
      modifies this, ctx, ctx.hashTable, ctx.chainTable
      ensures Valid() && started && InMemory(mem)
      ensures ctx.dictLimit + |ctx.prefix| <= GB2 && EndOf(Usable(mem[..], source, n), all)
      ensures old(AllKnown()) ==> AllKnown()
      ensures Tail(prefixStart, |ctx.prefix|, old(prefixStart), old(|ctx.prefix|))
      ensures Tail(dictStart, |ctx.dict|, old(dictStart), old(|ctx.dict|))
      ensures prefixStart + |ctx.prefix| == old(prefixStart + |ctx.prefix|) && old(prefixStart) <= prefixStart
    {
      hide EndOf, Valid, UsableOf, AllKnown;
      ghost var p, pz, d, dz := prefixStart, |ctx.prefix|, dictStart, |ctx.dict|;
      Reload(mem);
      UsableLess(mem[..], p, pz, d, dz, prefixStart, |ctx.prefix|, dictStart, |ctx.dict|, source, n, all);
    }

    method Connect(mem: array<byte>, source: nat, n: nat, ghost all: bytes)
      requires Valid() && started && InMemory(mem) && EndOf(Usable(mem[..], source, n), all)
      requires source <= mem.Length && ctx.dictLimit + |ctx.prefix| <= GB2
      modifies this`prefixStart, this`dictStart, ctx, ctx.hashTable, ctx.chainTable
      ensures Valid() && InMemory(mem)
      ensures prefixStart + |ctx.prefix| == source && ctx.dictLimit + |ctx.prefix| <= GB2
      ensures EndOf(ctx.dict + ctx.prefix, all) && (old(AllKnown()) ==> AllKnown())
      ensures Moved(true, old(prefixStart), old(|ctx.prefix|), old(dictStart), old(|ctx.dict|), source)
    {
      hide EndOf, Valid, InMemory, TrimLength, AllKnown, Usable, UsableOf, Placed;
      UsableIs(mem, source, n);
      Follow(mem, source);
      TrimDict(mem, source, n);
    }

    /** What will be the external dictionary and the prefix. */
    lemma UsableIs(mem: array<byte>, source: nat, n: nat)
      requires started && InMemory(mem)
      ensures Placed(mem.Length)
      ensures prefixStart + |ctx.prefix| == source ==>
        Usable(mem[..], source, n)
        == LastBytes(mem[..], dictStart + |ctx.dict|, TrimLength(dictStart, |ctx.dict|, source, n)) + ctx.prefix
      ensures prefixStart + |ctx.prefix| != source ==>
        Usable(mem[..], source, n)
        == LastBytes(mem[..], prefixStart + |ctx.prefix|, TrimLength(prefixStart, |ctx.prefix|, source, n)) + []
    {
      hide TrimLength;
      var p, m := prefixStart + |ctx.prefix|, mem[..];
      assert LastBytes(m, p, |ctx.prefix|) == ctx.prefix;
      if p != source {
        var rest := LastBytes(m, p, TrimLength(prefixStart, |ctx.prefix|, source, n));
        assert rest + [] == rest;
      }
    }

    /** LZ4_compress_HC_continue. The block refers to what the source leaves of the history, which is the
        end of `all`; history and source together are the history of the next call. */
    method Continue(mem: array<byte>, source: nat, n: nat, dst: array<byte>, ghost all: bytes) returns (result: nat)
      requires Valid() && Placed(mem.Length) && 0 < source && source + n <= mem.Length && n <= MAX_INPUT_SIZE
      requires EndOf(Usable(mem[..], source, n), all) && dst != mem && Apart(ctx, dst)
      modifies this, ctx, ctx.hashTable, ctx.chainTable, dst
      ensures Valid() && started && InMemory(mem) && prefixStart + |ctx.prefix| == source + n && n <= |ctx.prefix|
      ensures result > 0 ==> result <= dst.Length && IsBlockOf(all, mem[source..source + n], dst[..result])
      ensures result > 0 ==> result <= n + n / 255 + 2
      ensures result == 0 ==> dst.Length < CompressBound(n) && NoneFits(all, mem[source..source + n], dst.Length)
      ensures EndOf(ctx.dict + ctx.prefix, all + mem[source..source + n])
      ensures TriedAfter(all, mem[source..source + n], dst[..], result)
      ensures old(AllKnown() && InMemory(mem)) ==> AllKnown()
      ensures Moved(old(started), old(prefixStart), old(|ctx.prefix|), old(dictStart), old(|ctx.dict|), source)
    {
      hide EndOf, IsBlockOf, Usable, Tried, NoneFits, Unfit;
      Arrange(mem, source, n, all);
      ghost var h, src := ctx.dict + ctx.prefix, mem[source..source + n];
      EndOfMore(h, all, src);
      result := CompressNext(mem, source, n, dst);
      if result > 0 {
        BlockAfterAll(h, all, src, dst[..result]);
      } else {
        Untried(h, src, dst[..]);
        NoneFitsAfter(h, all, src, dst.Length);
      }
      assert (ctx.dict + ctx.prefix)[..|h|] == h;
    }

    /** How carefully the source that now ends the prefix has been compressed after `h`. */
    ghost predicate Tried(h: bytes, src: bytes, dst: bytes, result: nat)
      reads this, ctx
    {
      && |src| <= |ctx.prefix| && result <= |dst|
      && Careful(ScopeOf(ctx, |ctx.prefix| - |src|), compressionLevel, h, src, dst, result)
    }

    lemma Untried(h: bytes, src: bytes, dst: bytes)
      requires Tried(h, src, dst, 0)
      ensures Unfit(h, src, |dst|)
    {
      hide Unfit, Refused, ThoroughBlock, ScopeOf;
    }

    /** The same after the end of the history that the context holds. */
    ghost predicate TriedAfter(all: bytes, src: bytes, dst: bytes, result: nat)
      reads this, ctx
    {
      var both := ctx.dict + ctx.prefix;
      && |src| <= |both|
      && var h := both[..|both| - |src|];
      EndOf(h, all) && both == h + src && Tried(h, src, dst, result)
    }

    /** LZ4HC_compress_generic on the source that continues the prefix. */
    method CompressNext(mem: array<byte>, source: nat, n: nat, dst: array<byte>) returns (result: nat)
      requires Valid() && started && InMemory(mem) && source + n <= mem.Length && n <= MAX_INPUT_SIZE
      requires prefixStart + |ctx.prefix| == source && ctx.dictLimit + |ctx.prefix| <= GB2 && dst != mem
        && Apart(ctx, dst)
      modifies this`dirty, ctx`prefix, ctx`nextToUpdate, ctx.hashTable, ctx.chainTable, dst
      ensures Valid() && InMemory(mem) && prefixStart + |ctx.prefix| == source + n
      ensures result > 0 ==>
        result <= dst.Length && IsBlockOf(old(ctx.dict + ctx.prefix), mem[source..source + n], dst[..result])
      ensures result > 0 ==> result <= n + n / 255 + 2
      ensures result == 0 ==> dst.Length < CompressBound(n)
      ensures ctx.dict + ctx.prefix == old(ctx.dict + ctx.prefix) + mem[source..source + n]
      ensures unchanged(ctx`dict, ctx`lowLimit, ctx`since) && |ctx.prefix| == old(|ctx.prefix|) + n
      ensures Tried(old(ctx.dict + ctx.prefix), mem[source..source + n], dst[..], result)
    {
      hide IsBlockOf, HcContext.Valid, Careful;
      assert mem[prefixStart..source + n] == mem[prefixStart..source] + mem[source..source + n];
      assert ctx.dict + (ctx.prefix + mem[source..source + n]) == ctx.dict + ctx.prefix + mem[source..source + n];
      result := CompressGeneric(ctx, mem[source..source + n], dst, compressionLevel, favorDecSpeed,
        dst.Length < CompressBound(n));
      if result == 0 { dirty := true; }
    }

    /** LZ4_compress_HC_extStateHC_fastReset: a block of its own, on the tables of earlier calls. */
    method CompressFastReset(mem: array<byte>, source: nat, n: nat, dst: array<byte>, level: int) returns (result: nat)
      requires Valid() && source + n <= mem.Length && n <= MAX_INPUT_SIZE && dst != mem && Apart(ctx, dst)
      modifies this, ctx, ctx.hashTable, ctx.chainTable, dst
      ensures Valid() && AllKnown() && Tried([], mem[source..source + n], dst[..], result)
      ensures result > 0 ==> result <= dst.Length && IsBlockOf([], mem[source..source + n], dst[..result])
      ensures result > 0 ==> result <= n + n / 255 + 2
      ensures result == 0 ==> dst.Length < CompressBound(n) && NoneFits([], mem[source..source + n], dst.Length)
    {
      hide IsBlockOf, Tried, Unfit, NoneFits;
      ResetFast(level);
      InitInternal(source);
      assert ctx.dict + ctx.prefix == [];
      result := CompressNext(mem, source, n, dst);
      if result == 0 {
        Untried([], mem[source..source + n], dst[..]);
        NoneFitsAfter([], [], mem[source..source + n], dst.Length);
      }
    }
  }
}
