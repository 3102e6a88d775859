/**
  The block compressors behind a frame: the fast stream or the high-compression stream, by level. What the
  stream may refer to lies in up to two places of the memory, the one that goes on (`at`, `size`) and, at
  the high levels, the one before it (`oldAt`, `oldSize`).
*/
module FrameBlocks {
  import opened Bytes
  import opened BlockWriter
  import opened FrameFormat
  import opened HcStream
  import HcSearch
  import FastMatcher
  import FastStream

  const CLEVEL_MIN := 3  // LZ4HC_CLEVEL_MIN

  /** The last `k` bytes of the second place, and the first place. */
  ghost function Both(mem: bytes, at: nat, size: nat, oldEnd: nat, k: nat): bytes
    requires at + size <= |mem| && k <= oldEnd <= |mem|
  {
    LastBytes(mem, oldEnd, k) + LastBytes(mem, at + size, size)
  }

  lemma OnlyFirst(mem: bytes, at: nat, size: nat, oldEnd: nat, k: nat, all: bytes)
    requires at + size <= |mem| && k <= oldEnd <= |mem|
    requires FastStream.EndOf(Both(mem, at, size, oldEnd, k), all)
    ensures FastStream.EndOf(mem[at..at + size], all) && FastStream.EndOf(LastBytes(mem, at + size, size), all)
    ensures k == 0 ==> Both(mem, at, size, oldEnd, k) == mem[at..at + size]
  {
    EndOfSecond(LastBytes(mem, oldEnd, k), LastBytes(mem, at + size, size), all);
  }

  lemma NothingIsEnd(d: bytes, all: bytes)
    ensures d == [] ==> FastStream.EndOf(d, all)
  {
  }

  lemma JustFirst(mem: bytes, at: nat, size: nat, oldEnd: nat, k: nat)
    requires at + size <= |mem| && oldEnd <= |mem| && k == 0
    ensures Both(mem, at, size, oldEnd, k) == mem[at..at + size]
  {
  }

  class BlockStream {
    const fast: FastStream.Stream
    const high: StreamHC
    var level: int
    ghost var linked: bool
    ghost var at: nat
    ghost var size: nat
    ghost var oldAt: nat
    ghost var oldSize: nat

    ghost predicate Shape()
      reads fast, fast.hashTable, high, high.ctx, high.ctx.hashTable, high.ctx.chainTable
    {
      && fast.Valid() && fast.Early() && high.Valid()
      && fast.hashTable != high.ctx.hashTable && fast.hashTable != high.ctx.chainTable
    }

    ghost predicate Valid()
      reads this, fast, fast.hashTable, high, high.ctx, high.ctx.hashTable, high.ctx.chainTable
    {
      && Shape()
      && (linked ==> if level < CLEVEL_MIN then InFast() else InHigh())
    }

    ghost predicate InFast()
      reads this, fast
    {
      && fast.dictionary == at && fast.dictSize == size <= fast.currentOffset && oldSize == 0
      && (fast.tableType.Used? ==>
            fast.tableType.kind == FastMatcher.ByU32 && fast.currentOffset <= FastStream.MAX_OFFSET)
    }

    ghost predicate InHigh()
      reads this, high, high.ctx
    {
      if high.started then
        high.prefixStart == at && |high.ctx.prefix| == size && high.dictStart == oldAt && |high.ctx.dict| == oldSize
      else size == 0 && oldSize == 0
    }

    constructor (fast: FastStream.Stream, high: StreamHC)
      requires fast.Valid() && fast.Early() && high.Valid()
      requires fast.hashTable != high.ctx.hashTable && fast.hashTable != high.ctx.chainTable
      ensures Valid() && this.fast == fast && this.high == high
    {
      this.fast, this.high, level, linked := fast, high, 0, false;
      at, size, oldAt, oldSize := 0, 0, 0, 0;
    }

    /** Both places lie in a memory of `n` bytes. */
    ghost predicate Placed(n: nat)
      reads this
    {
      at + size <= n && oldAt + oldSize <= n
    }

    /** The state made ready for a frame: LZ4F_initStream when its blocks are linked. */
    method Init(newLevel: int, chained: bool)
      requires Valid()
      modifies this, fast, fast.hashTable, high, high.ctx.hashTable, high.ctx.chainTable
      ensures Valid() && level == newLevel && linked == chained && size == 0 && oldSize == 0 && at == 0 && oldAt == 0
    {
      hide FastStream.Stream.Valid, StreamHC.Valid;
      level, linked := newLevel, chained;
      at, size, oldAt, oldSize := 0, 0, 0, 0;
      if chained {
        if level < CLEVEL_MIN {
          fast.ResetFast();
        } else {
          high.ResetFast(level);
        }
      }
    }

    /** The acceleration that a level below the high ones stands for. */
    function Acceleration(): int
      reads this`level
    {
      if level < 0 then -level + 1 else 1
    }

    /** The size of the block that the fast stream makes of a source. */
    ghost function FastSize(mem: array<byte>, source: nat, n: nat): (r: nat)
      requires fast.hashTable.Length == FastStream.HASH_SIZE_U16 && source + n <= mem.Length
      requires linked ==> fast.dictionary + fast.dictSize <= mem.Length
      reads this, fast, fast.hashTable, mem
      ensures 0 < r
    {
      if linked then fast.NextRun(mem, source, n, Acceleration()).size
      else fast.ResetRun(mem[source..source + n], Acceleration()).size
    }

    /** Where the size of a block can be told. */
    ghost predicate Sizeable(m: nat)
      reads this, fast
    {
      && fast.hashTable.Length == FastStream.HASH_SIZE_U16
      && (level < CLEVEL_MIN && linked ==> fast.dictionary + fast.dictSize <= m)
    }

    lemma CanBeSized(m: nat)
      requires Valid() && (linked ==> Placed(m))
      ensures Sizeable(m)
    {
      fast.TableLength();
    }

    /** After a source: the first place ends with it, the second is the end of what either was. */
    ghost predicate Moved(a: nat, z: nat, b: nat, y: nat, source: nat, n: nat)
      reads this
    {
      && at + size == source + n && n <= size && (at == source || (a <= at && a + z == source))
      && (oldSize == 0 || Tail(oldAt, oldSize, a, z) || Tail(oldAt, oldSize, b, y))
    }

    /** The block cannot be longer than its source less one byte. */
    ghost predicate Result(mem: bytes, source: nat, n: nat, cell: array<byte>, cSize: nat, all: bytes)
      reads cell
    {
      cSize > 0 ==>
        cSize <= cell.Length && source + n <= |mem| && IsBlockOf(all, mem[source..source + n], cell[..cSize])
    }

    method NextFast(mem: array<byte>, source: nat, n: nat, cell: array<byte>, ghost all: bytes) returns (cSize: nat)
      requires Valid() && linked && level < CLEVEL_MIN && Placed(mem.Length) && 0 < source && source + n <= mem.Length
      requires 0 < n <= MAX_INPUT_SIZE && Disjoint(source, n, at, size) && cell != mem
      requires FastStream.EndOf(mem[at..at + size], all)
      modifies this`at, this`size, this`oldAt, this`oldSize, fast, fast.hashTable, cell
      ensures Valid() && Placed(mem.Length) && Result(mem[..], source, n, cell, cSize, all)
      ensures Moved(old(at), old(size), old(oldAt), old(oldSize), source, n) && oldSize == 0
      ensures FastStream.EndOf(mem[at..at + size], all + mem[source..source + n])
      ensures Sizeable(mem.Length) && old(Sizeable(mem.Length))
      ensures cSize == FastStream.Within(old(FastSize(mem, source, n)), cell.Length)
    {
      hide FastStream.Stream.Valid, StreamHC.Valid, IsBlockOf, FastStream.EndOf, FastStream.Stream.NextRun,
        FastStream.Within;
      CanBeSized(mem.Length);
      assert fast.Intact(source, n) == fast.dictSize;
      cSize := fast.Continue(mem, source, n, cell, Acceleration(), all);
      at, size, oldAt, oldSize := fast.dictionary, fast.dictSize, 0, 0;
      CanBeSized(mem.Length);
    }

    method NextHigh(mem: array<byte>, source: nat, n: nat, cell: array<byte>, ghost all: bytes) returns (cSize: nat)
      requires Valid() && linked && CLEVEL_MIN <= level && Placed(mem.Length) && 0 < source && source + n <= mem.Length
      requires 0 < n <= MAX_INPUT_SIZE && cell != mem && HcSearch.Apart(high.ctx, cell)
      requires FastStream.EndOf(high.Usable(mem[..], source, n), all) && high.Placed(mem.Length)
      modifies this`at, this`size, this`oldAt, this`oldSize, high, high.ctx, high.ctx.hashTable
      modifies high.ctx.chainTable, cell
      ensures Valid() && Placed(mem.Length) && Result(mem[..], source, n, cell, cSize, all)
      ensures Moved(old(at), old(size), old(oldAt), old(oldSize), source, n)
      ensures FastStream.EndOf(Both(mem[..], at, size, oldAt + oldSize, oldSize), all + mem[source..source + n])
      ensures cSize == 0 ==> NoneFits(all, mem[source..source + n], cell.Length)
    {
      hide FastStream.Stream.Valid, StreamHC.Valid, IsBlockOf, FastStream.EndOf, StreamHC.Usable, NoneFits,
        StreamHC.TriedAfter;
      cSize := high.Continue(mem, source, n, cell, all);
      HighBytes(mem);
      NoteHigh();
    }

    ghost method NoteHigh()
      modifies this`at, this`size, this`oldAt, this`oldSize
      ensures at == high.prefixStart && size == |high.ctx.prefix| && oldAt == high.dictStart
        && oldSize == |high.ctx.dict|
    {
      at, size, oldAt, oldSize := high.prefixStart, |high.ctx.prefix|, high.dictStart, |high.ctx.dict|;
    }

    lemma HighBytes(mem: array<byte>)
      requires high.started && high.InMemory(mem)
      ensures high.Placed(mem.Length)
      ensures high.ctx.dict + high.ctx.prefix
              == Both(mem[..], high.prefixStart, |high.ctx.prefix|, high.dictStart + |high.ctx.dict|, |high.ctx.dict|)
    {
    }

    lemma HighUsable(mem: bytes, source: nat, n: nat, all: bytes)
      requires linked && CLEVEL_MIN <= level && InHigh() && Placed(|mem|) && 0 < source
      requires Disjoint(source, n, at, size)
      requires FastStream.EndOf(Both(mem, at, size, oldAt + oldSize, TrimLength(oldAt, oldSize, source, n)), all)
      ensures high.Placed(|mem|) && FastStream.EndOf(high.Usable(mem, source, n), all)
    {
      hide FastStream.EndOf;
      OnlyFirst(mem, at, size, oldAt + oldSize, TrimLength(oldAt, oldSize, source, n), all);
      LessOf(mem, at + size, size, TrimLength(at, size, source, n), all);
      NothingIsEnd(high.Usable(mem, source, n), all);
    }

    /** LZ4F_compressBlock_continue, LZ4F_compressBlockHC_continue: a block after the history, whose end the
        source leaves in the two places. */
    method Next(mem: array<byte>, source: nat, n: nat, cell: array<byte>, ghost all: bytes) returns (cSize: nat)
      requires Valid() && linked && Placed(mem.Length) && 0 < source && source + n <= mem.Length
        && 0 < n <= MAX_INPUT_SIZE
      requires Disjoint(source, n, at, size) && cell != mem && HcSearch.Apart(high.ctx, cell)
      requires FastStream.EndOf(Both(mem[..], at, size, oldAt + oldSize, TrimLength(oldAt, oldSize, source, n)), all)
      modifies this`at, this`size, this`oldAt, this`oldSize
      modifies fast, fast.hashTable, high, high.ctx, high.ctx.hashTable, high.ctx.chainTable, cell
      ensures Valid() && Placed(mem.Length) && Result(mem[..], source, n, cell, cSize, all)
      ensures Moved(old(at), old(size), old(oldAt), old(oldSize), source, n)
      ensures FastStream.EndOf(Both(mem[..], at, size, oldAt + oldSize, oldSize), all + mem[source..source + n])
      ensures old(Sizeable(mem.Length))
      ensures level < CLEVEL_MIN ==> cSize == FastStream.Within(old(FastSize(mem, source, n)), cell.Length)
      ensures CLEVEL_MIN <= level && cSize == 0 ==> NoneFits(all, mem[source..source + n], cell.Length)
    {
      hide NoneFits, FastStream.EndOf, Shape, InHigh, Result, FastSize, FastStream.Within, Both, TrimLength;
      CanBeSized(mem.Length);
      if level < CLEVEL_MIN {
        OnlyFirst(mem[..], at, size, oldAt + oldSize, TrimLength(oldAt, oldSize, source, n), all);
        cSize := NextFast(mem, source, n, cell, all);
        JustFirst(mem[..], at, size, oldAt + oldSize, oldSize);
      } else {
        HighUsable(mem[..], source, n, all);
        cSize := NextHigh(mem, source, n, cell, all);
      }
    }

    /** LZ4F_compressBlock, LZ4F_compressBlockHC: a block of its own. */
    method Alone(mem: array<byte>, source: nat, n: nat, cell: array<byte>) returns (cSize: nat)
      requires Valid() && !linked && source + n <= mem.Length && 0 < n <= MAX_INPUT_SIZE
      requires cell != mem && HcSearch.Apart(high.ctx, cell)
      modifies fast, fast.hashTable, high, high.ctx, high.ctx.hashTable, high.ctx.chainTable, cell
      ensures Valid() && Result(mem[..], source, n, cell, cSize, [])
      ensures old(Sizeable(mem.Length))
      ensures level < CLEVEL_MIN ==> cSize == FastStream.Within(old(FastSize(mem, source, n)), cell.Length)
      ensures CLEVEL_MIN <= level && cSize == 0 ==> NoneFits([], mem[source..source + n], cell.Length)
    {
      hide FastStream.Stream.Valid, StreamHC.Valid, IsBlockOf, FastStream.Stream.ResetRun, FastStream.Within, NoneFits,
        StreamHC.Tried;
      CanBeSized(mem.Length);
      if level < CLEVEL_MIN {
        fast.EarlyFits(n);
        cSize := fast.CompressFastReset(mem[source..source + n], cell, Acceleration());
      } else {
        cSize := high.CompressFastReset(mem, source, n, cell, level);
      }
    }

    /** LZ4F_localSaveDict: the end of the first place moves to `safe`, and nothing else is kept. */
    method Save(mem: array<byte>, safe: nat, ghost all: bytes) returns (kept: nat)
      requires Valid() && linked && Placed(mem.Length) && safe + KB64 <= mem.Length && 0 < size
      requires FastStream.EndOf(mem[at..at + size], all)
      modifies this`at, this`size, this`oldAt, this`oldSize, fast`dictionary, fast`dictSize, mem
      modifies high`prefixStart, high`dictStart, high.ctx`prefix, high.ctx`dict, high.ctx`dictLimit, high.ctx`lowLimit
      modifies high.ctx`nextToUpdate, high.ctx`since
      ensures Valid() && Placed(mem.Length) && at == safe && kept == size <= KB64 && oldSize == 0
        && (old(size) > 0 ==> 0 < size)
      ensures FastStream.EndOf(mem[at..at + size], all)
      ensures forall i :: 0 <= i < mem.Length && !(safe <= i < safe + KB64) ==> mem[i] == old(mem[i])
    {
      hide FastStream.EndOf, Shape, InFast, InHigh;
      if level < CLEVEL_MIN {
        kept := SaveFast(mem, safe, all);
      } else {
        kept := SaveHigh(mem, safe, all);
      }
    }

    method SaveFast(mem: array<byte>, safe: nat, ghost all: bytes) returns (kept: nat)
      requires Valid() && linked && level < CLEVEL_MIN && Placed(mem.Length) && safe + KB64 <= mem.Length
      requires FastStream.EndOf(mem[at..at + size], all)
      modifies this`at, this`size, this`oldAt, this`oldSize, fast`dictionary, fast`dictSize, mem
      ensures Valid() && Placed(mem.Length) && at == safe && kept == size <= KB64 && oldSize == 0
        && (old(size) > 0 ==> 0 < size)
      ensures FastStream.EndOf(mem[at..at + size], all)
      ensures forall i :: 0 <= i < mem.Length && !(safe <= i < safe + KB64) ==> mem[i] == old(mem[i])
    {
      hide FastStream.Stream.Valid, StreamHC.Valid, FastStream.EndOf;
      kept := fast.SaveDict(mem, safe, KB64, all);
      at, size, oldAt, oldSize := fast.dictionary, fast.dictSize, 0, 0;
    }

    method SaveHigh(mem: array<byte>, safe: nat, ghost all: bytes) returns (kept: nat)
      requires Valid() && linked && CLEVEL_MIN <= level && Placed(mem.Length) && safe + KB64 <= mem.Length && 0 < size
      requires FastStream.EndOf(mem[at..at + size], all)
      modifies this`at, this`size, this`oldAt, this`oldSize, mem
      modifies high`prefixStart, high`dictStart, high.ctx`prefix, high.ctx`dict, high.ctx`dictLimit, high.ctx`lowLimit
      modifies high.ctx`nextToUpdate, high.ctx`since
      ensures Valid() && Placed(mem.Length) && at == safe && kept == size <= KB64 && oldSize == 0
        && (old(size) > 0 ==> 0 < size)
      ensures FastStream.EndOf(mem[at..at + size], all)
      ensures forall i :: 0 <= i < mem.Length && !(safe <= i < safe + KB64) ==> mem[i] == old(mem[i])
    {
      hide FastStream.Stream.Valid, StreamHC.Valid, FastStream.EndOf;
      kept := high.SaveDict(mem, safe, KB64, all);
      HighBytes(mem);
      NoteHigh();
    }
  }
}
