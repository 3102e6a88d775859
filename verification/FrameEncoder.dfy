/**
  The streaming frame compressor of lz4frame.c: LZ4F_cctx_t with its internal buffer. Addresses are positions in one
  memory that also holds the caller's sources.
*/
module FrameEncoder {
  import opened Bytes
  import opened BlockWriter
  import opened FrameFormat
  import opened FrameBound
  import opened FrameWire
  import opened HcStream
  import opened FrameBlocks
  import FastStream

  datatype Error = DstMaxSizeTooSmall | CompressionStateUninitialized | WrongSize

  datatype Outcome = Refused(error: Error) | Done(n: nat)

  /** LZ4F_lastBlockStatus */
  datatype LastBlock = NotDone | FromTmpBuffer | FromSrcBuffer

  /** The room LZ4F_compressBegin sees to. */
  function RequiredBuffSize(p: Prefs): nat {
    if p.autoFlush then (if p.linked then KB64 else 0)
    else BlockSize(p.sizeId) + (if p.linked then KB128 else 0)
  }

  /** Bytes written into `dst` behind the first `at`. */
  method Put(dst: array<byte>, at: nat, s: bytes) returns (op: nat)
    requires at + |s| <= dst.Length
    modifies dst
    ensures op == at + |s| && dst[..op] == old(dst[..at]) + s
  {
    forall k | 0 <= k < |s| {
      dst[at + k] := s[k];
    }
    op := at + |s|;
    assert dst[..op] == dst[..at] + dst[at..op];
    assert dst[..at] == old(dst[..at]);
    assert dst[at..op] == s;
  }

  /** Bytes put behind `was[lo..at]`. */
  lemma Joined(was: bytes, now: bytes, lo: nat, at: nat, n: nat)
    requires lo <= at && at + n <= |was| == |now|
    requires forall i :: 0 <= i < |was| && !(at <= i < at + n) ==> now[i] == was[i]
    ensures now[lo..at + n] == was[lo..at] + now[at..at + n]
  {
    SliceKept(was, now, lo, at, at, n);
    assert now[lo..at + n] == now[lo..at] + now[at..at + n];
  }

  /** What the bytes of a source in the making leave of the two places. */
  lemma {:induction false} StillLeft(was: bytes, now: bytes, at: nat, size: nat, oldAt: nat, oldSize: nat, tmp: nat,
      t: nat, n: nat, all: bytes)
    requires at + size <= |was| == |now| && oldAt + oldSize <= |was| && Disjoint(at, size, tmp + t, n)
    requires forall i :: 0 <= i < |was| && !(tmp + t <= i < tmp + t + n) ==> now[i] == was[i]
    requires FastStream.EndOf(Both(was, at, size, oldAt + oldSize,
      if t > 0 then TrimLength(oldAt, oldSize, tmp, t) else oldSize), all)
    ensures FastStream.EndOf(Both(now, at, size, oldAt + oldSize,
      if t + n > 0 then TrimLength(oldAt, oldSize, tmp, t + n) else oldSize), all)
  {
    hide FastStream.EndOf;
    var end := oldAt + oldSize;
    var k := if t > 0 then TrimLength(oldAt, oldSize, tmp, t) else oldSize;
    var j := if t + n > 0 then TrimLength(oldAt, oldSize, tmp, t + n) else oldSize;
    LessOld(was, at, size, end, k, j, all);
    SliceKept(was, now, at, at + size, tmp + t, n);
    SliceKept(was, now, end - j, end, tmp + t, n);
  }

  lemma BothKept(was: bytes, now: bytes, at: nat, size: nat, oldAt: nat, oldSize: nat, k: nat, a: nat, n: nat)
    requires at + size <= |was| == |now| && oldAt + oldSize <= |was| && k <= oldSize
    requires Disjoint(at, size, a, n) && Disjoint(oldAt, oldSize, a, n)
    requires forall i :: 0 <= i < |was| && !(a <= i < a + n) ==> now[i] == was[i]
    ensures Both(now, at, size, oldAt + oldSize, k) == Both(was, at, size, oldAt + oldSize, k)
  {
    SliceKept(was, now, at, at + size, a, n);
    SliceKept(was, now, oldAt + oldSize - k, oldAt + oldSize, a, n);
  }

  lemma LessOld(m: bytes, at: nat, size: nat, oldEnd: nat, k: nat, j: nat, all: bytes)
    requires at + size <= |m| && j <= k <= oldEnd <= |m| && FastStream.EndOf(Both(m, at, size, oldEnd, k), all)
    ensures FastStream.EndOf(Both(m, at, size, oldEnd, j), all)
  {
    var x, y := Both(m, at, size, oldEnd, k), Both(m, at, size, oldEnd, j);
    FastStream.EndOfEnd(x, all, |y|);
    assert x[|x| - |y|..] == y;
  }

  lemma Regroup(mem: bytes, source: nat, k: nat, n: nat, given: bytes, made: bytes)
    requires k <= n && source + n <= |mem| && made == given + mem[source..source + k]
    ensures given + mem[source..source + n] == made + [] + mem[source + k..source + n]
  {
    assert mem[source..source + n] == mem[source..source + k] + mem[source + k..source + n];
  }

  class Cctx {
    const mem: array<byte>
    const lz4: BlockStream
    var prefs: Prefs
    var cStage: nat
    var maxBlockSize: nat
    var maxBufferSize: nat
    var tmpBuff: nat
    var tmpIn: nat
    var tmpInSize: nat
    var totalInSize: nat
    var xxh: bytes
    ghost var blocks: seq<Block>
    ghost var sent: bytes
    ghost var given: bytes

    ghost predicate Shape()
      reads lz4, lz4.fast, lz4.fast.hashTable, lz4.high, lz4.high.ctx, lz4.high.ctx.hashTable, lz4.high.ctx.chainTable
    {
      lz4.Valid()
    }

    ghost predicate Placed()
      reads this`maxBufferSize, this`tmpBuff
    {
      tmpBuff + maxBufferSize <= mem.Length && (0 < maxBufferSize ==> 0 < tmpBuff)
    }

    /** The buffer holds less than a block and has room for a whole one. */
    ghost predicate Buffered()
      reads this`prefs, this`maxBlockSize, this`maxBufferSize, this`tmpBuff, this`tmpIn, this`tmpInSize
    {
      && InBuffer()
      && tmpInSize < maxBlockSize && (prefs.autoFlush ==> tmpInSize == 0)
      && (!prefs.autoFlush ==> tmpIn + maxBlockSize <= tmpBuff + maxBufferSize)
    }

    ghost predicate InBuffer()
      reads this`prefs, this`maxBlockSize, this`maxBufferSize, this`tmpBuff, this`tmpIn, this`tmpInSize
    {
      && PrefsOk(prefs) && 0 < prefs.sizeId && maxBlockSize == BlockSize(prefs.sizeId)
      && RequiredBuffSize(prefs) <= maxBufferSize
      && Placed() && tmpBuff <= tmpIn && tmpIn + tmpInSize <= tmpBuff + maxBufferSize
      && (!prefs.linked ==> tmpIn == tmpBuff)
    }

    /** How much of the older place the bytes held in the buffer leave. */
    ghost function OldLeft(): (k: nat)
      reads this`tmpIn, this`tmpInSize, lz4
      ensures k <= lz4.oldSize
    {
      if tmpInSize > 0 then TrimLength(lz4.oldAt, lz4.oldSize, tmpIn, tmpInSize) else lz4.oldSize
    }

    /** The stream is set to the preferences and its places fit the memory. */
    ghost predicate Set()
      reads this`prefs, lz4, lz4.fast, lz4.fast.hashTable, lz4.high, lz4.high.ctx, lz4.high.ctx.hashTable
      reads lz4.high.ctx.chainTable
    {
      Shape() && lz4.level == prefs.level && lz4.linked == prefs.linked && (prefs.linked ==> lz4.Placed(mem.Length))
    }

    /** With `k` bytes of the older place, the stream holds the end of what has been sent. */
    ghost predicate Holds(k: nat)
      reads this`prefs, this`blocks, lz4, lz4.fast, lz4.fast.hashTable, lz4.high, lz4.high.ctx
      reads lz4.high.ctx.hashTable, lz4.high.ctx.chainTable, mem
    {
      && Set()
      && (prefs.linked ==>
            k <= lz4.oldSize
              && FastStream.EndOf(Both(mem[..], lz4.at, lz4.size, lz4.oldAt + lz4.oldSize, k), Made(blocks)))
    }

    /** With linked blocks, the stream knows the end of what has been sent. */
    ghost predicate Known()
      reads this`prefs, this`blocks, this`tmpIn, this`tmpInSize, lz4, lz4.fast, lz4.fast.hashTable, lz4.high
      reads lz4.high.ctx, lz4.high.ctx.hashTable, lz4.high.ctx.chainTable, mem
    {
      Holds(OldLeft())
    }

    lemma KnownShape()
      ensures Known() ==> Shape()
    {
    }

    /** And that is out of the way of what the buffer is yet to hold. */
    ghost predicate DictClear()
      reads this`prefs, this`tmpIn, this`tmpBuff, this`maxBufferSize, lz4
    {
      prefs.linked ==>
        && (lz4.size == 0 || lz4.at + lz4.size <= tmpIn || tmpBuff + maxBufferSize <= lz4.at)
        && (tmpBuff < tmpIn ==> 0 < lz4.size)
    }

    ghost predicate HistoryOk()
      reads this`prefs, this`tmpIn, this`tmpInSize, this`tmpBuff, this`maxBufferSize, this`blocks, lz4, lz4.fast
      reads lz4.fast.hashTable, lz4.high, lz4.high.ctx, lz4.high.ctx.hashTable, lz4.high.ctx.chainTable, mem
    {
      Known() && DictClear()
    }

    /** What is sent, and what is held or still to come: `pending`. */
    ghost predicate Flow(pending: bytes)
      reads this`prefs, this`blocks, this`sent, this`given
    {
      Sound(InfoOf(prefs), blocks, sent) && given == Made(blocks) + pending
    }

    ghost predicate Counted(all: bytes)
      reads this`prefs, this`xxh, this`totalInSize
    {
      (prefs.contentChecksum ==> xxh == all) && (prefs.contentSize > 0 ==> totalInSize == |all|)
    }

    ghost function Held(): bytes
      reads this`tmpIn, this`tmpInSize, mem
      requires tmpIn + tmpInSize <= mem.Length
    {
      mem[tmpIn..tmpIn + tmpInSize]
    }

    /** Between two calls for a frame that has begun. */
    ghost predicate Open()
      reads this`prefs, this`maxBlockSize, this`maxBufferSize, this`tmpBuff, this`tmpIn, this`tmpInSize
      reads this`totalInSize, this`xxh, this`blocks, this`sent, this`given, lz4, lz4.fast, lz4.fast.hashTable
      reads lz4.high, lz4.high.ctx, lz4.high.ctx.hashTable, lz4.high.ctx.chainTable, mem
    {
      Buffered() && HistoryOk() && Flow(Held()) && Counted(given)
    }

    ghost predicate Valid()
      reads this, lz4, lz4.fast, lz4.fast.hashTable, lz4.high, lz4.high.ctx, lz4.high.ctx.hashTable
      reads lz4.high.ctx.chainTable, mem
    {
      Shape() && Placed() && if cStage == 1 then Open() else tmpInSize == 0
    }

    /** A source may be anywhere outside the buffer and the dictionary; it does not start where the
        buffer ends, as two allocations never touch. */
    ghost predicate Outside(source: nat, n: nat)
      reads this`prefs, this`tmpBuff, this`maxBufferSize, lz4
    {
      && 0 < source && source + n <= mem.Length
      && (n == 0 || source + n <= tmpBuff || tmpBuff + maxBufferSize < source)
      && (prefs.linked ==> Disjoint(source, n, lz4.at, lz4.size) && Disjoint(source, n, lz4.oldAt, lz4.oldSize))
    }

    // ----- Beginning a frame -----

    constructor (memory: array<byte>, stream: BlockStream)
      requires stream.Valid()
      ensures mem == memory && lz4 == stream && Valid() && cStage == 0
    {
      mem, lz4 := memory, stream;
      prefs := Prefs(false, false, false, 0, 0, 0, false, 0);
      cStage, maxBlockSize, maxBufferSize, tmpBuff, tmpIn, tmpInSize, totalInSize := 0, 0, 0, 0, 0, 0, 0;
      xxh, blocks, sent, given := [], [], [], [];
    }

    /** The optional fields of the header. */
    method WriteOptional(dst: array<byte>, at: nat) returns (n: nat)
      requires PrefsOk(prefs) && at <= 6 && MAX_HEADER <= dst.Length
      modifies this`totalInSize, dst
      ensures n <= at + 12
      ensures dst[..n] == old(dst[..at]) + SizeField(InfoOf(prefs).contentSize) + IdField(InfoOf(prefs).dictId)
      ensures prefs.contentSize > 0 ==> totalInSize == 0
    {
      hide LE32, LE64;
      n := at;
      if prefs.contentSize > 0 {
        n := Put(dst, n, LE64(prefs.contentSize));
        totalInSize := 0;
      }
      if prefs.dictId > 0 {
        n := Put(dst, n, LE32(prefs.dictId));
      }
    }

    /** The fields of the header one after the other. */
    method WriteHeader(dst: array<byte>) returns (n: nat)
      requires PrefsOk(prefs) && 0 < prefs.sizeId && MAX_HEADER <= dst.Length
      modifies this`totalInSize, dst
      ensures n <= MAX_HEADER && dst[..n] == Header(InfoOf(prefs))
      ensures prefs.contentSize > 0 ==> totalInSize == 0
    {
      hide HeaderChecksum, LE32, SizeField, IdField;
      assert dst[..0] == [];
      n := Put(dst, 0, LE32(MAGICNUMBER));
      var flg := 64 + (if prefs.linked then 0 else 32) + (if prefs.blockChecksum then 16 else 0)
        + (if prefs.contentSize > 0 then 8 else 0) + (if prefs.contentChecksum then 4 else 0)
        + (if prefs.dictId > 0 then 1 else 0);
      n := Put(dst, n, [flg, prefs.sizeId * 16]);
      n := WriteOptional(dst, n);
      ghost var i := InfoOf(prefs);
      assert dst[..n] == LE32(MAGICNUMBER) + Descriptor(i);
      assert dst[4..n] == dst[..n][4..] == Descriptor(i);
      n := Put(dst, n, [HeaderChecksum(dst[4..n])]);
    }

    /** The internal buffer, allocated at `at` when the one there is too small. */
    method Allocate(at: nat)
      requires Placed() && 0 < at && at + RequiredBuffSize(prefs) <= mem.Length
      modifies this`tmpBuff, this`maxBufferSize, this`tmpIn, this`tmpInSize
      ensures RequiredBuffSize(prefs) <= maxBufferSize && Placed()
      ensures tmpIn == tmpBuff && tmpInSize == 0
      ensures (tmpBuff == at && maxBufferSize == RequiredBuffSize(prefs))
              || (tmpBuff == old(tmpBuff) && maxBufferSize == old(maxBufferSize))
    {
      if maxBufferSize < RequiredBuffSize(prefs) {
        tmpBuff, maxBufferSize := at, RequiredBuffSize(prefs);
      }
      tmpIn, tmpInSize := tmpBuff, 0;
    }

    /** What the stream refers to lies in the internal buffer. */
    ghost predicate Inside()
      reads this`tmpBuff, this`maxBufferSize, lz4
    {
      && (lz4.size == 0 || (tmpBuff <= lz4.at && lz4.at + lz4.size <= tmpBuff + maxBufferSize))
      && (lz4.oldSize == 0 || (tmpBuff <= lz4.oldAt && lz4.oldAt + lz4.oldSize <= tmpBuff + maxBufferSize))
    }

    /** Where the buffer is: where it was before or at a new place. */
    ghost predicate BufferAt(at: nat, size: nat, before: nat, sizeBefore: nat)
      reads this`tmpBuff, this`maxBufferSize
    {
      (tmpBuff == at && maxBufferSize == size) || (tmpBuff == before && maxBufferSize == sizeBefore)
    }

    /** Fields of a frame without blocks. */
    method Prepare(p: Prefs, at: nat)
      requires Placed() && PrefsOk(p)
      requires 0 < at && at + RequiredBuffSize(p) <= mem.Length
      modifies this`prefs, this`maxBlockSize, this`tmpBuff, this`maxBufferSize, this`tmpIn, this`tmpInSize, this`xxh
      ensures prefs == Concrete(p) && xxh == [] && Buffered() && tmpInSize == 0 && tmpIn == tmpBuff
      ensures BufferAt(at, RequiredBuffSize(p), old(tmpBuff), old(maxBufferSize))
    {
      prefs := p;
      if prefs.sizeId == 0 { prefs := prefs.(sizeId := 4); }
      maxBlockSize := BlockSize(prefs.sizeId);
      Allocate(at);
      xxh := [];
    }

    ghost predicate Begun(p: Prefs, head: bytes)
      reads this, lz4
    {
      && cStage == 1 && given == [] && sent == head && prefs == Concrete(p) && tmpInSize == 0
      && (p.linked ==> Inside())
    }

    /** The first state of a frame. */
    ghost method Start(head: bytes)
      requires Buffered() && tmpInSize == 0 && tmpIn == tmpBuff && Set() && xxh == [] && head == Header(InfoOf(prefs))
      requires lz4.size == 0 && lz4.oldSize == 0
      requires prefs.contentSize > 0 ==> totalInSize == 0
      modifies this`blocks, this`sent, this`given
      ensures Open() && given == [] && sent == head
    {
      hide Header, Sound, Made, Set, Holds, Open, Known, FastStream.EndOf, Shape, Both, InfoOf, BlockSize;
      blocks, sent, given := [], head, [];
      SoundStart(InfoOf(prefs), blocks, sent);
      NothingHeldYet(mem[..]);
      Started(Held(), blocks);
      KnownEmpty();
      OpenAgain();
    }

    /** LZ4F_compressBegin */
    method Begin(p: Prefs, dst: array<byte>, at: nat) returns (r: Outcome)
      requires Valid() && PrefsOk(p) && dst != mem
      requires 0 < at && at + RequiredBuffSize(p) <= mem.Length
      modifies this, lz4, lz4.fast, lz4.fast.hashTable, lz4.high, lz4.high.ctx, lz4.high.ctx.hashTable
      modifies lz4.high.ctx.chainTable, dst
      ensures Valid()
      ensures r.Refused? <==> dst.Length < MAX_HEADER
      ensures r.Done? ==> r.n <= MAX_HEADER && Begun(p, dst[..r.n])
      ensures BufferAt(at, RequiredBuffSize(p), old(tmpBuff), old(maxBufferSize))
    {
      hide Buffered, Open, Header, BlockStream.Valid;
      if dst.Length < MAX_HEADER { return Refused(DstMaxSizeTooSmall); }
      Prepare(p, at);
      lz4.Init(prefs.level, prefs.linked);
      var n := WriteHeader(dst);
      Start(dst[..n]);
      cStage := 1;
      return Done(n);
    }

    // ----- One block -----

    /** A source away from what the stream refers to, except where it goes over the older place. */
    ghost predicate SourceOk(source: nat, size: nat)
      reads this`prefs, this`blocks, lz4, lz4.fast, lz4.fast.hashTable, lz4.high, lz4.high.ctx
      reads lz4.high.ctx.hashTable, lz4.high.ctx.chainTable, mem
    {
      && 0 < source && source + size <= mem.Length
      && (prefs.linked ==>
            Disjoint(source, size, lz4.at, lz4.size) && Holds(TrimLength(lz4.oldAt, lz4.oldSize, source, size)))
    }

    ghost predicate Moved(d: nat, z: nat, b: nat, y: nat, source: nat, size: nat)
      reads this`prefs, lz4
    {
      prefs.linked ==> lz4.Moved(d, z, b, y, source, size)
    }

    /** LZ4F_selectCompression and the call of what it selects; the block comes in a buffer of its own. */
    method CompressBlock(source: nat, size: nat) returns (cell: array<byte>, cSize: nat)
      requires Set() && SourceOk(source, size) && 0 < size <= MAX_INPUT_SIZE
      modifies lz4, lz4.fast, lz4.fast.hashTable, lz4.high, lz4.high.ctx, lz4.high.ctx.hashTable
      modifies lz4.high.ctx.chainTable
      ensures Set() && fresh(cell) && cSize < size && cSize <= cell.Length
      ensures cSize > 0 ==> IsBlockOf(History(InfoOf(prefs), blocks), mem[source..source + size], cell[..cSize])
      ensures Moved(old(lz4.at), old(lz4.size), old(lz4.oldAt), old(lz4.oldSize), source, size)
      ensures prefs.linked ==>
        FastStream.EndOf(Both(mem[..], lz4.at, lz4.size, lz4.oldAt + lz4.oldSize, lz4.oldSize),
                         Made(blocks) + mem[source..source + size])
      ensures old(lz4.Sizeable(mem.Length))
      ensures prefs.level < CLEVEL_MIN ==>
        cSize == FastStream.Within(old(lz4.FastSize(mem, source, size)), size - 1)
      ensures CLEVEL_MIN <= prefs.level && cSize == 0 ==>
        NoneFits(History(InfoOf(prefs), blocks), mem[source..source + size], size - 1)
    {
      hide NoneFits, BlockStream.Valid, BlockStream.Moved, FastStream.EndOf, IsBlockOf, Made, Both, TrimLength,
        BlockStream.FastSize, FastStream.Within;
      cell := new byte[size - 1];
      if prefs.linked {
        cSize := lz4.Next(mem, source, size, cell, Made(blocks));
      } else {
        cSize := lz4.Alone(mem, source, size, cell);
      }
    }

    lemma NothingHeldYet(m: bytes)
      requires m == mem[..] && Set() && blocks == [] && lz4.size == 0 && lz4.oldSize == 0
      ensures Holds(lz4.oldSize)
    {
      hide FastStream.EndOf, Made, Shape, Both;
      if prefs.linked {
        FitsHere();
        NoPlaces(m, lz4.at, lz4.size, lz4.oldAt + lz4.oldSize, lz4.oldSize, blocks);
      }
    }

    lemma FitsHere()
      requires Set() && prefs.linked
      ensures lz4.at + lz4.size <= mem.Length && lz4.oldAt + lz4.oldSize <= mem.Length
    {
      hide Shape;
    }

    lemma NoPlaces(m: bytes, at: nat, size: nat, oldEnd: nat, k: nat, bs: seq<Block>)
      requires at <= |m| && oldEnd <= |m| && bs == [] && size == 0 && k == 0
      ensures FastStream.EndOf(Both(m, at, size, oldEnd, k), Made(bs))
    {
      hide FastStream.EndOf, Made;
      assert Both(m, at, size, oldEnd, k) == [];
      Started(Both(m, at, size, oldEnd, k), bs);
    }

    lemma Started(none: bytes, bs: seq<Block>)
      requires bs == [] && none == []
      ensures Made(bs) == [] && FastStream.EndOf(none, Made(bs))
    {
    }

    /** The header and the data of a block: what the compressor made of the source, or the source itself
        when that is no shorter. */
    method WriteData(dst: array<byte>, at: nat, src: bytes, cell: array<byte>, cSize: nat, ghost h: bytes)
      returns (op: nat, ghost b: Block)
      requires 0 < |src| < UNCOMPRESSED_FLAG && cSize < |src| && cSize <= cell.Length
      requires cSize > 0 ==> IsBlockOf(h, src, cell[..cSize])
      requires at + |src| + BLOCK_HEADER <= dst.Length && cell != dst
      modifies dst
      ensures BlockOk(b, h, |src|) && b.content == src && b.compressed == (cSize > 0)
      ensures op == at + BLOCK_HEADER + |b.data| && dst[..op] == old(dst[..at]) + (LE32(BlockHeader(b)) + b.data)
    {
      hide IsBlockOf, LE32;
      if cSize == 0 || cSize >= |src| {
        b := Block(false, src, src);
        op := Put(dst, at, LE32(|src| + UNCOMPRESSED_FLAG));
        op := Put(dst, op, src);
      } else {
        b := Block(true, cell[..cSize], src);
        op := Put(dst, at, LE32(cSize));
        op := Put(dst, op, cell[..cSize]);
      }
    }

    /** The checksum of the `size` bytes before `at`. */
    method WriteChecksum(dst: array<byte>, at: nat, size: nat) returns (op: nat)
      requires size <= at && at + BLOCK_FOOTER * Bit(prefs.blockChecksum) <= dst.Length
      modifies dst
      ensures op == at + BLOCK_FOOTER * Bit(prefs.blockChecksum)
      ensures dst[..op] == old(dst[..at]) + Footer(prefs.blockChecksum, old(dst[at - size..at]))
    {
      hide LE32, Digest;
      op := at;
      if prefs.blockChecksum {
        op := Put(dst, at, LE32(Digest(dst[at - size..at])));
      }
    }

    lemma WholeBlock(i: Info, b: Block, was: bytes, now: bytes, all: bytes)
      requires |b.data| < UNCOMPRESSED_FLAG && now == was + (LE32(BlockHeader(b)) + b.data)
      requires all == now + Footer(i.blockChecksum, now[|now| - |b.data|..])
      ensures all == was + BlockBytes(i, b)
    {
      hide LE32, Footer;
      assert now[|now| - |b.data|..] == b.data;
    }

    /** A block behind the first `at` bytes. */
    method WriteBlock(dst: array<byte>, at: nat, src: bytes, cell: array<byte>, cSize: nat, ghost h: bytes)
      returns (op: nat, ghost b: Block)
      requires PrefsOk(prefs) && 0 < |src| <= BlockSize(prefs.sizeId) && cSize < |src| && cSize <= cell.Length
      requires cSize > 0 ==> IsBlockOf(h, src, cell[..cSize])
      requires at + |src| + BlockOverhead(prefs) <= dst.Length && cell != dst
      modifies dst
      ensures at <= op <= at + |src| + BlockOverhead(prefs)
      ensures BlockOk(b, h, BlockSize(InfoOf(prefs).sizeId)) && b.content == src && |b.data| < UNCOMPRESSED_FLAG
      ensures b.compressed == (cSize > 0)
      ensures dst[..op] == old(dst[..at]) + BlockBytes(InfoOf(prefs), b)
    {
      hide IsBlockOf, LE32, Footer, BlockBytes;
      ghost var was := dst[..at];
      op, b := WriteData(dst, at, src, cell, cSize, h);
      ghost var now := dst[..op];
      assert dst[op - |b.data|..op] == now[|now| - |b.data|..];
      op := WriteChecksum(dst, op, op - at - BLOCK_HEADER);
      WholeBlock(InfoOf(prefs), b, was, now, dst[..op]);
    }

    /** LZ4F_makeBlock */
    method MakeBlock(source: nat, size: nat, dst: array<byte>, at: nat) returns (op: nat, ghost part: bytes)
      requires Set() && SourceOk(source, size) && 0 < size <= BlockSize(prefs.sizeId) && PrefsOk(prefs)
      requires Sound(InfoOf(prefs), blocks, sent)
      requires at + size + BlockOverhead(prefs) <= dst.Length && dst != mem
      modifies this`blocks, this`sent, lz4, lz4.fast, lz4.fast.hashTable, lz4.high, lz4.high.ctx
      modifies lz4.high.ctx.hashTable, lz4.high.ctx.chainTable, dst
      ensures at <= op <= at + size + BlockOverhead(prefs)
      ensures dst[..op] == old(dst[..at]) + part && sent == old(sent) + part
      ensures Holds(lz4.oldSize) && Moved(old(lz4.at), old(lz4.size), old(lz4.oldAt), old(lz4.oldSize), source, size)
      ensures Sound(InfoOf(prefs), blocks, sent) && Made(blocks) == old(Made(blocks)) + mem[source..source + size]
      ensures exists b: Block :: blocks == old(blocks) + [b] && |b.content| == size
      ensures |blocks| == old(|blocks|) + 1 && old(lz4.Sizeable(mem.Length))
      ensures prefs.level < CLEVEL_MIN ==>
        blocks[|blocks| - 1].compressed == (old(lz4.FastSize(mem, source, size)) < size)
      ensures CLEVEL_MIN <= prefs.level && !blocks[|blocks| - 1].compressed ==>
        NoneFits(History(InfoOf(prefs), old(blocks)), mem[source..source + size], size - 1)
    {
      hide NoneFits, FastStream.EndOf, IsBlockOf, Made, Sound, BlockOk, BlockBytes, History, BlockSize, Shape, Both,
        Moved,
        TrimLength, BlockStream.FastSize, BlockStream.Sizeable;
      var cell, cSize := CompressBlock(source, size);
      ghost var b;
      op, b := WriteBlock(dst, at, mem[source..source + size], cell, cSize, History(InfoOf(prefs), blocks));
      part := BlockBytes(InfoOf(prefs), b);
      SoundNext(InfoOf(prefs), blocks, sent, b, part);
      blocks, sent := blocks + [b], sent + part;
    }

    // ----- The buffer -----

    /** LZ4F_localSaveDict: the history moves to the front of the buffer. */
    method LocalSaveDict()
      requires Known() && prefs.linked && Placed() && KB64 <= maxBufferSize && tmpInSize == 0 && 0 < lz4.size
      modifies this`tmpIn, lz4, lz4.fast, lz4.high, lz4.high.ctx, mem
      ensures Known() && DictClear() && Inside() && tmpBuff <= tmpIn <= tmpBuff + KB64
      ensures forall i :: 0 <= i < mem.Length && !(tmpBuff <= i < tmpBuff + KB64) ==> mem[i] == old(mem[i])
    {
      hide FastStream.EndOf, BlockStream.Valid, Made, Both;
      OnlyFirst(mem[..], lz4.at, lz4.size, lz4.oldAt + lz4.oldSize, lz4.oldSize, Made(blocks));
      var realDictSize := lz4.Save(mem, tmpBuff, Made(blocks));
      tmpIn := tmpBuff + realDictSize;
      FirstIsBoth(mem[..], lz4.at, lz4.size, lz4.oldAt);
    }

    lemma FirstIsBoth(m: bytes, at: nat, size: nat, oldAt: nat)
      requires at + size <= |m| && oldAt <= |m|
      ensures Both(m, at, size, oldAt, 0) == m[at..at + size]
    {
    }

    /** "keep tmpIn within limits" */
    method KeepWithinLimits()
      requires Known() && DictClear() && InBuffer()
      requires tmpIn + maxBlockSize > tmpBuff + maxBufferSize ==> !prefs.autoFlush && tmpInSize == 0
      modifies this`tmpIn, lz4, lz4.fast, lz4.high, lz4.high.ctx, mem
      ensures Known() && DictClear() && InBuffer() && tmpIn + maxBlockSize <= tmpBuff + maxBufferSize
      ensures old(Inside()) || old(tmpIn + maxBlockSize > tmpBuff + maxBufferSize) ==> Inside()
      ensures forall i :: 0 <= i < mem.Length && !(tmpBuff <= i < tmpBuff + maxBufferSize) ==> mem[i] == old(mem[i])
      ensures tmpInSize > 0 ==> tmpIn == old(tmpIn) && mem[..] == old(mem[..])
    {
      hide Known;
      if tmpIn + maxBlockSize > tmpBuff + maxBufferSize {
        LocalSaveDict();
      }
    }

    lemma TmpSource()
      requires HistoryOk() && InBuffer() && 0 < tmpInSize
      ensures Set() && SourceOk(tmpIn, tmpInSize)
    {
      hide Made, FastStream.EndOf, Both, Shape;
    }

    /** The block that the buffer holds. */
    method CompressTmp(dst: array<byte>, at: nat) returns (op: nat, ghost part: bytes)
      requires HistoryOk() && InBuffer() && Sound(InfoOf(prefs), blocks, sent)
      requires 0 < tmpInSize <= maxBlockSize
      requires at + tmpInSize + BlockOverhead(prefs) <= dst.Length && dst != mem
      modifies this`blocks, this`sent, this`tmpIn, this`tmpInSize, lz4, lz4.fast, lz4.fast.hashTable, lz4.high
      modifies lz4.high.ctx, lz4.high.ctx.hashTable, lz4.high.ctx.chainTable, dst
      ensures tmpInSize == 0 && tmpIn == old(tmpIn) + (if prefs.linked then old(tmpInSize) else 0)
      ensures HistoryOk() && InBuffer() && Sound(InfoOf(prefs), blocks, sent)
      ensures at <= op <= at + old(tmpInSize) + BlockOverhead(prefs)
      ensures dst[..op] == old(dst[..at]) + part && sent == old(sent) + part
      ensures Made(blocks) == old(Made(blocks)) + old(mem[tmpIn..tmpIn + tmpInSize])
      ensures Moved(old(lz4.at), old(lz4.size), old(lz4.oldAt), old(lz4.oldSize), old(tmpIn), old(tmpInSize))
      ensures old(Inside()) && prefs.linked ==> Inside()
      ensures exists b: Block :: blocks == old(blocks) + [b] && |b.content| == old(tmpInSize)
    {
      hide Grew, Holds, Made, Sound, BlockSize, InfoOf, SourceOk, Set, NoneFits, History, BlockStream.FastSize,
        BlockStream.Sizeable;
      TmpSource();
      op, part := MakeBlock(tmpIn, tmpInSize, dst, at);
      if prefs.linked { tmpIn := tmpIn + tmpInSize; }
      tmpInSize := 0;
    }

    /** LZ4F_flush */
    method Flush(dst: array<byte>) returns (r: Outcome)
      requires Valid() && dst != mem
      modifies this`blocks, this`sent, this`tmpIn, this`tmpInSize, lz4, lz4.fast, lz4.fast.hashTable, lz4.high
      modifies lz4.high.ctx, lz4.high.ctx.hashTable, lz4.high.ctx.chainTable, dst, mem
      ensures Valid()
      ensures r.Refused? <==>
        old(tmpInSize) > 0 && (cStage != 1 || dst.Length < old(tmpInSize) + BLOCK_HEADER + BLOCK_FOOTER)
      ensures r.Refused? ==> r.error != WrongSize
      ensures r.Done? ==>
        && tmpInSize == 0 && r.n <= dst.Length && sent == old(sent) + dst[..r.n]
        && r.n <= if old(tmpInSize) > 0 then old(tmpInSize) + BlockOverhead(prefs) else 0
      ensures r.Refused? || old(tmpInSize) == 0 ==> blocks == old(blocks) && sent == old(sent)
      ensures r.Done? && old(tmpInSize) > 0 ==>
        exists b: Block :: blocks == old(blocks) + [b] && |b.content| == old(tmpInSize)
      ensures old(Inside()) ==> prefs.linked ==> Inside()
      ensures forall i :: 0 <= i < mem.Length && !(tmpBuff <= i < tmpBuff + maxBufferSize) ==> mem[i] == old(mem[i])
    {
      hide Known, Made, Sound, Shape, BlockSize, InfoOf, DictClear, Inside, Moved;
      KnownShape();
      if tmpInSize == 0 {
        assert dst[..0] == [];
        return Done(0);
      }
      if cStage != 1 { return Refused(CompressionStateUninitialized); }
      if dst.Length < tmpInSize + BLOCK_HEADER + BLOCK_FOOTER { return Refused(DstMaxSizeTooSmall); }
      var n;
      ghost var part;
      n, part := CompressTmp(dst, 0);
      KeepWithinLimits();
      KnownShape();
      assert Held() == [];
      return Done(n);
    }

    // ----- The end of a frame -----

    /** The end mark and the checksum of the content, behind the first `at` bytes. */
    method WriteEnd(dst: array<byte>, at: nat) returns (r: Outcome)
      requires at <= dst.Length
      modifies dst
      ensures r == if at + FrameEnd(prefs) <= dst.Length then Done(at + FrameEnd(prefs))
        else Refused(DstMaxSizeTooSmall)
      ensures r.Done? ==> dst[..r.n] == old(dst[..at]) + (LE32(0) + Footer(prefs.contentChecksum, xxh))
    {
      hide LE32, Digest;
      if dst.Length - at < 4 { return Refused(DstMaxSizeTooSmall); }
      var n := Put(dst, at, LE32(0));
      if prefs.contentChecksum {
        if dst.Length - at < 8 { return Refused(DstMaxSizeTooSmall); }
        n := Put(dst, n, LE32(Digest(xxh)));
      }
      return Done(n);
    }

    /** What has been sent when a frame ends is a valid frame of what was given. */
    ghost predicate Ended(all: bytes, out: bytes)
      reads this`prefs, this`blocks
    {
      var f := FrameOf(InfoOf(prefs), blocks);
      ValidFrame(f) && FrameContent(f) == all && out == Encode(f)
    }

    lemma EndsWell(all: bytes, was: bytes, tail: bytes)
      requires PrefsOk(prefs) && Flow([]) && Counted(all) && given == all && sent == was
      requires tail == LE32(0) + Footer(prefs.contentChecksum, xxh)
      requires prefs.contentSize > 0 ==> prefs.contentSize == totalInSize
      ensures Ended(all, was + tail)
    {
      hide Made, Sound, LE32, Digest, ValidFrame, Encode, FrameContent;
      assert given == Made(blocks);
      SoundEnd(InfoOf(prefs), blocks, sent);
      assert was + tail == sent + LE32(0) + Footer(prefs.contentChecksum, xxh);
    }

    /** LZ4F_compressEnd, behind what the flush wrote. */
    method Finish(dst: array<byte>, at: nat, ghost start: bytes) returns (r: Outcome)
      requires Valid() && dst != mem && tmpInSize == 0 && at <= dst.Length
      requires cStage == 1 ==> sent == start + dst[..at]
      modifies this`cStage, this`maxBufferSize, dst
      ensures Valid() && (r.Done? ==> cStage == 0)
      ensures r.Done? ==> r.n == at + FrameEnd(prefs) <= dst.Length
      ensures r.Done? ==> dst[..r.n] == old(dst[..at]) + (LE32(0) + Footer(prefs.contentChecksum, xxh))
      ensures r.Done? && old(cStage) == 1 ==> Ended(given, start + dst[..r.n])
      ensures r == Refused(DstMaxSizeTooSmall) <==> at + FrameEnd(prefs) > dst.Length
      ensures r.Refused? <==> at + FrameEnd(prefs) > dst.Length || SizeWrong()
      ensures r == Refused(WrongSize) ==> SizeWrong()
      ensures old(cStage) == 1 ==> (SizeWrong() <==> prefs.contentSize > 0 && prefs.contentSize != |given|)
    {
      hide Open, LE32, Digest, Ended, InfoOf, UpdateBound, Footer, Flow, FrameEnd;
      if cStage == 1 { OpenFacts(); }
      ghost var first, open := dst[..at], cStage == 1;
      r := WriteEnd(dst, at);
      if r.Refused? { return; }
      ghost var tail := LE32(0) + Footer(prefs.contentChecksum, xxh);
      assert dst[..r.n] == first + tail;
      cStage, maxBufferSize := 0, 0;
      if prefs.contentSize > 0 && prefs.contentSize != totalInSize {
        return Refused(WrongSize);
      }
      if open {
        NothingHeld();
        EndsWell(given, sent, tail);
        assert sent + tail == start + dst[..r.n];
      }
    }

    /** The declared size is not the number of bytes that were counted. */
    predicate SizeWrong()
      reads this`prefs, this`totalInSize
    {
      prefs.contentSize > 0 && prefs.contentSize != totalInSize
    }

    lemma NothingHeld()
      requires Flow([])
      ensures given == Made(blocks)
    {
      hide Made, Sound;
    }

    /** LZ4F_compressEnd. It does not ask whether a frame has begun: without one it writes an end mark. */
    method End(dst: array<byte>) returns (r: Outcome)
      requires Valid() && dst != mem
      modifies this`blocks, this`sent, this`tmpIn, this`tmpInSize, this`cStage, this`maxBufferSize, lz4, lz4.fast
      modifies lz4.fast.hashTable, lz4.high, lz4.high.ctx, lz4.high.ctx.hashTable, lz4.high.ctx.chainTable, dst
      modifies mem
      ensures Valid() && (r.Done? ==> cStage == 0)
      ensures old(cStage) == 1 && r.Done? ==> r.n <= dst.Length && Ended(given, old(sent) + dst[..r.n])
      ensures old(cStage) != 1 && r.Done? ==>
        r.n == FrameEnd(prefs) <= dst.Length && dst[..r.n] == LE32(0) + Footer(prefs.contentChecksum, xxh)
      ensures r == Refused(WrongSize) ==> SizeWrong()
      ensures old(cStage) == 1 ==> (SizeWrong() <==> prefs.contentSize > 0 && prefs.contentSize != |given|)
      ensures old(sent) <= sent && (r.Refused? <==>
        || (old(tmpInSize) > 0 && dst.Length < old(tmpInSize) + BLOCK_HEADER + BLOCK_FOOTER)
        || |sent| - |old(sent)| + FrameEnd(prefs) > dst.Length
        || SizeWrong())
      ensures old(cStage) == 1 && UpdateBound(0, prefs) <= dst.Length
              && (prefs.contentSize == 0 || prefs.contentSize == |given|) ==>
        r.Done?
      ensures forall i :: 0 <= i < mem.Length && !(tmpBuff <= i < tmpBuff + old(maxBufferSize)) ==>
        mem[i] == old(mem[i])
    {
      hide Open, Shape, Inside, LE32, Ended, InfoOf, UpdateBound, FrameEnd, BlockSize, BlockOverhead, Flow, Counted,
        Digest, Footer;
      if cStage == 1 {
        OpenFacts();
        SizeCounted();
      }
      r := Flush(dst);
      if r.Done? {
        ghost var first := dst[..r.n];
        r := Finish(dst, r.n, old(sent));
        ghost var tail := LE32(0) + Footer(prefs.contentChecksum, xxh);
        assert first == [] ==> first + tail == tail;
      }
    }

    lemma SizeCounted()
      requires Open()
      ensures SizeWrong() <==> prefs.contentSize > 0 && prefs.contentSize != |given|
    {
    }

    lemma OpenFacts()
      requires Open()
      ensures PrefsOk(prefs) && Placed() && Counted(given) && Shape()
      ensures tmpInSize < BlockSize(prefs.sizeId) && (prefs.autoFlush ==> tmpInSize == 0)
      ensures tmpInSize == 0 ==> Flow([])
      ensures var need := FrameEnd(prefs) + if tmpInSize > 0 then tmpInSize + BlockOverhead(prefs) else 0;
        need <= UpdateBound(0, prefs)
          && (tmpInSize > 0 ==> tmpInSize + BLOCK_HEADER + BLOCK_FOOTER <= UpdateBound(0, prefs))
    {
      hide FastStream.EndOf, Sound, Made, UpdateBound, InfoOf;
      FlushFits(prefs, tmpInSize);
      assert tmpInSize == 0 ==> Held() == [];
    }

    // ----- More of the content -----

    /** In the middle of an update: `mem[ptr..end]` is still to come, `all` is everything with it. */
    ghost predicate Mid(ptr: nat, end: nat, all: bytes)
      reads this, lz4, lz4.fast, lz4.fast.hashTable, lz4.high, lz4.high.ctx, lz4.high.ctx.hashTable
      reads lz4.high.ctx.chainTable, mem
    {
      && InBuffer() && HistoryOk() && Sound(InfoOf(prefs), blocks, sent)
      && tmpInSize < maxBlockSize && (prefs.autoFlush ==> tmpInSize == 0)
      && (tmpInSize > 0 ==> ptr == end && tmpIn + maxBlockSize <= tmpBuff + maxBufferSize)
      && ptr <= end && Outside(ptr, end - ptr)
      && all == Made(blocks) + Held() + mem[ptr..end]
    }

    /** What is written, and the room that is left for the rest. */
    ghost predicate Writing(dst: bytes, op: nat, before: bytes, left: nat, cap: nat)
      reads this`prefs, this`sent
    {
      && op <= |dst| && sent == before + dst[..op]
      && op + RoomOf(prefs, left, prefs.autoFlush) + FrameEnd(prefs) <= cap <= |dst|
    }

    /** Bytes copied into the buffer, where the stream refers to nothing that a block from there needs. */
    method CopyIn(at: nat, source: nat, n: nat)
      requires HistoryOk() && source + n <= mem.Length && at == tmpIn + tmpInSize
      requires at + n <= tmpBuff + maxBufferSize <= mem.Length
      modifies mem
      ensures Holds(LeftAfter(n)) && mem[tmpIn..at + n] == old(mem[tmpIn..at]) + old(mem[source..source + n])
      ensures forall i :: 0 <= i < mem.Length && !(at <= i < at + n) ==> mem[i] == old(mem[i])
    {
      hide FastStream.EndOf, Made, Shape, Both, TrimLength;
      ghost var was := mem[..];
      FastStream.Memmove(mem, at, source, n);
      Joined(was, mem[..], tmpIn, at, n);
      if prefs.linked {
        StillLeft(was, mem[..], lz4.at, lz4.size, lz4.oldAt, lz4.oldSize, tmpIn, tmpInSize, n, Made(blocks));
      }
    }

    /** What is left of the older place with `n` more bytes in the buffer. */
    ghost function LeftAfter(n: nat): (k: nat)
      reads this`tmpIn, this`tmpInSize, lz4
      ensures k <= lz4.oldSize
    {
      if tmpInSize + n > 0 then TrimLength(lz4.oldAt, lz4.oldSize, tmpIn, tmpInSize + n) else lz4.oldSize
    }

    /** More bytes behind those the buffer holds. */
    method AppendTmp(source: nat, n: nat)
      requires Buffered() && HistoryOk() && Outside(source, n) && tmpInSize + n <= maxBlockSize
      requires tmpIn + maxBlockSize <= tmpBuff + maxBufferSize
      modifies this`tmpInSize, mem
      ensures InBuffer() && HistoryOk() && tmpInSize == old(tmpInSize) + n
      ensures Held() == old(Held()) + old(mem[source..source + n])
      ensures forall i :: 0 <= i < mem.Length && !(tmpBuff <= i < tmpBuff + maxBufferSize) ==> mem[i] == old(mem[i])
    {
      hide Holds, PrefsOk, BlockSize, DictClear, Outside, Known, TrimLength, HistoryOk, Disjoint;
      HistoryIs();
      OutsideParts(source, n, 0);
      CopyIn(tmpIn + tmpInSize, source, n);
      ghost var k := LeftAfter(n);
      tmpInSize := tmpInSize + n;
      assert OldLeft() == k;
      KnownIs();
      HistoryIs();
    }

    lemma HistoryIs()
      ensures HistoryOk() <==> Known() && DictClear()
    {
      hide Known, DictClear;
    }

    lemma KnownIs()
      ensures Known() <==> Holds(OldLeft())
    {
      hide Holds;
    }

    lemma KnownEmpty()
      requires tmpInSize == 0
      ensures Known() <==> Holds(lz4.oldSize)
    {
    }

    lemma RoomStep(n: nat)
      requires BlockSize(prefs.sizeId) <= n
      ensures RoomOf(prefs, n, prefs.autoFlush)
              == BlockOverhead(prefs) + BlockSize(prefs.sizeId)
                + RoomOf(prefs, n - BlockSize(prefs.sizeId), prefs.autoFlush)
    {
    }

    lemma OpenParts()
      requires Open()
      ensures Buffered() && HistoryOk() && Counted(given) && Sound(InfoOf(prefs), blocks, sent)
      ensures given == Made(blocks) + Held() && PrefsOk(prefs)
    {
    }

    lemma MidNow(ptr: nat, end: nat, held: bytes, all: bytes)
      requires InBuffer() && HistoryOk() && Sound(InfoOf(prefs), blocks, sent)
      requires tmpInSize < maxBlockSize && (prefs.autoFlush ==> tmpInSize == 0)
      requires tmpInSize > 0 ==> ptr == end && tmpIn + maxBlockSize <= tmpBuff + maxBufferSize
      requires ptr <= end && Outside(ptr, end - ptr)
      requires Held() == held && all == Made(blocks) + held + mem[ptr..end]
      ensures Mid(ptr, end, all)
    {
    }

    /** A source that does not complete a block. */
    method TakeAll(source: nat, n: nat, dst: array<byte>)
      requires Open() && Outside(source, n) && 0 < tmpInSize && tmpInSize + n < maxBlockSize
      modifies this`tmpInSize, mem
      ensures Mid(source + n, source + n, given + old(mem[source..source + n]))
      ensures forall i :: 0 <= i < mem.Length && !(tmpBuff <= i < tmpBuff + maxBufferSize) ==> mem[i] == old(mem[i])
    {
      hide HistoryOk, Made, Sound, PrefsOk, BlockSize, Shape, Open, Held, InfoOf;
      OpenParts();
      ghost var held, src := Held(), mem[source..source + n];
      AppendTmp(source, n);
      assert mem[source + n..source + n] == [];
      assert given + src == Made(blocks) + (held + src) + [];
      MidNow(source + n, source + n, held + src, given + src);
    }

    /** The block in the buffer is completed and compressed. */
    method FillAndCompress(source: nat, k: nat, dst: array<byte>) returns (op: nat)
      requires Open() && Outside(source, k) && 0 < tmpInSize && tmpInSize + k == maxBlockSize
      requires maxBlockSize + BlockOverhead(prefs) <= dst.Length && dst != mem
      modifies this`blocks, this`sent, this`tmpIn, this`tmpInSize, lz4, lz4.fast, lz4.fast.hashTable, lz4.high
      modifies lz4.high.ctx, lz4.high.ctx.hashTable, lz4.high.ctx.chainTable, dst, mem
      ensures tmpInSize == 0 && HistoryOk() && InBuffer() && Sound(InfoOf(prefs), blocks, sent)
      ensures Made(blocks) == given + old(mem[source..source + k])
      ensures op <= maxBlockSize + BlockOverhead(prefs) && sent == old(sent) + dst[..op]
      ensures Moved(old(lz4.at), old(lz4.size), old(lz4.oldAt), old(lz4.oldSize), old(tmpIn), maxBlockSize)
      ensures old(Inside()) && prefs.linked ==> Inside()
      ensures forall i :: 0 <= i < mem.Length && !(tmpBuff <= i < tmpBuff + maxBufferSize) ==> mem[i] == old(mem[i])
      ensures Grew(old(blocks), blocks, maxBlockSize, false)
    {
      hide Grew, HistoryOk, Made, Sound, PrefsOk, BlockSize, Shape, Open, InfoOf, Room, Inside, Moved;
      OpenParts();
      ghost var made, held, part := Made(blocks), Held(), mem[source..source + k];
      AppendTmp(source, k);
      assert mem[tmpIn..tmpIn + maxBlockSize] == held + part;
      ghost var written;
      ghost var was := blocks;
      op, written := CompressTmp(dst, 0);
      ghost var b: Block :| blocks == was + [b] && |b.content| == maxBlockSize;
      GrewOne(was, b, maxBlockSize, false);
      assert dst[..op] == written;
      assert made + (held + part) == (made + held) + part;
    }

    /** A source that completes the block in the buffer. */
    method CompleteBlock(source: nat, sizeToCopy: nat, n: nat, dst: array<byte>, ghost cap: nat) returns (op: nat)
      requires Open() && Outside(source, n) && 0 < tmpInSize && sizeToCopy <= n
        && tmpInSize + sizeToCopy == maxBlockSize
      requires RoomOf(prefs, tmpInSize + n, prefs.autoFlush) + FrameEnd(prefs) <= cap <= dst.Length && dst != mem
      modifies this`blocks, this`sent, this`tmpIn, this`tmpInSize, lz4, lz4.fast, lz4.fast.hashTable, lz4.high
      modifies lz4.high.ctx, lz4.high.ctx.hashTable, lz4.high.ctx.chainTable, dst, mem
      ensures Mid(source + sizeToCopy, source + n, given + old(mem[source..source + n]))
      ensures Writing(dst[..], op, old(sent), n - sizeToCopy, cap)
      ensures old(Inside()) && prefs.linked ==> Inside()
      ensures forall i :: 0 <= i < mem.Length && !(tmpBuff <= i < tmpBuff + maxBufferSize) ==> mem[i] == old(mem[i])
      ensures Grew(old(blocks), blocks, maxBlockSize, false)
    {
      hide Grew, HistoryOk, Made, Sound, PrefsOk, BlockSize, Shape, Open, InfoOf, RoomOf, Inside, Moved, Mid, Outside;
      OpenParts();
      OutsideParts(source, n, sizeToCopy);
      RoomStep(tmpInSize + n);
      ghost var was, at, d, z, b, y := mem[..], tmpIn, lz4.at, lz4.size, lz4.oldAt, lz4.oldSize;
      op := FillAndCompress(source, sizeToCopy, dst);
      AfterTmp(was, source, sizeToCopy, n, given, d, z, b, y, at);
    }

    lemma OutsideParts(source: nat, n: nat, k: nat)
      requires Outside(source, n) && k <= n
      ensures Outside(source, k) && 0 < source && source + n <= mem.Length
      ensures var left := n - k;
        && (left == 0 || source + n <= tmpBuff || tmpBuff + maxBufferSize < source + k)
        && (prefs.linked ==>
              Disjoint(source + k, left, lz4.at, lz4.size) && Disjoint(source + k, left, lz4.oldAt, lz4.oldSize))
    {
    }

    lemma AfterTmp(was: bytes, source: nat, k: nat, n: nat, before: bytes, d: nat, z: nat, b: nat, y: nat, at: nat)
      requires HistoryOk() && InBuffer() && Sound(InfoOf(prefs), blocks, sent) && tmpInSize == 0
      requires k <= n && 0 < source && source + n <= |was| == mem.Length
      requires forall i :: 0 <= i < mem.Length && !(tmpBuff <= i < tmpBuff + maxBufferSize) ==> mem[i] == was[i]
      requires Made(blocks) == before + was[source..source + k]
      requires Moved(d, z, b, y, at, maxBlockSize) && tmpBuff <= at && at + maxBlockSize <= tmpBuff + maxBufferSize
      requires n - k == 0 || source + n <= tmpBuff || tmpBuff + maxBufferSize < source + k
      requires prefs.linked ==> Disjoint(source + k, n - k, d, z) && Disjoint(source + k, n - k, b, y)
      ensures Mid(source + k, source + n, before + was[source..source + n])
    {
      hide HistoryOk, Sound, InfoOf, Made, PrefsOk, Moved, BlockSize;
      StillOutside(d, z, b, y, at, maxBlockSize, source + k, n - k);
      SliceKept(was, mem[..], source + k, source + n, tmpBuff, maxBufferSize);
      Regroup(was, source, k, n, before, Made(blocks));
    }

    lemma StillOutside(d: nat, z: nat, b: nat, y: nat, at: nat, size: nat, ptr: nat, left: nat)
      requires Moved(d, z, b, y, at, size) && 0 < size && tmpBuff <= at && at + size <= tmpBuff + maxBufferSize
      requires 0 < ptr && ptr + left <= mem.Length
      requires left == 0 || ptr + left <= tmpBuff || tmpBuff + maxBufferSize < ptr
      requires prefs.linked ==> Disjoint(ptr, left, d, z) && Disjoint(ptr, left, b, y)
      ensures Outside(ptr, left)
    {
    }

    /** "complete tmp buffer" */
    method CompleteTmp(source: nat, n: nat, dst: array<byte>, ghost cap: nat)
        returns (last: LastBlock, ptr: nat, op: nat)
      requires Open() && Outside(source, n) && dst != mem
      requires RoomOf(prefs, tmpInSize + n, prefs.autoFlush) + FrameEnd(prefs) <= cap <= dst.Length
      modifies this`blocks, this`sent, this`tmpIn, this`tmpInSize, lz4, lz4.fast, lz4.fast.hashTable, lz4.high
      modifies lz4.high.ctx, lz4.high.ctx.hashTable, lz4.high.ctx.chainTable, dst, mem
      ensures Mid(ptr, source + n, given + old(mem[source..source + n])) && source <= ptr
      ensures Writing(dst[..], op, old(sent), source + n - ptr, cap)
      ensures last == NotDone || last == FromTmpBuffer
      ensures old(Inside()) && prefs.linked ==> Inside()
      ensures forall i :: 0 <= i < mem.Length && !(tmpBuff <= i < tmpBuff + maxBufferSize) ==> mem[i] == old(mem[i])
      ensures Grew(old(blocks), blocks, maxBlockSize, false)
    {
      hide Grew, HistoryOk, Made, Sound, PrefsOk, BlockSize, Shape, InfoOf, Open, Mid, Inside, RoomOf;
      OpenParts();
      last, ptr, op := NotDone, source, 0;
      if tmpInSize > 0 {
        var sizeToCopy := maxBlockSize - tmpInSize;
        if sizeToCopy > n {
          RoomLess(0, tmpInSize + n);
          TakeAll(source, n, dst);
          ptr := source + n;
          GrewNone(blocks, maxBlockSize, false);
        } else {
          last, ptr := FromTmpBuffer, source + sizeToCopy;
          op := CompleteBlock(source, sizeToCopy, n, dst, cap);
        }
      } else {
        assert Held() == [];
        assert given == Made(blocks) + [];
        MidNow(source, source + n, [], given + mem[source..source + n]);
        GrewNone(blocks, maxBlockSize, false);
      }
    }

    lemma RoomLess(n: nat, m: nat)
      requires n <= m
      ensures RoomOf(prefs, n, prefs.autoFlush) <= RoomOf(prefs, m, prefs.autoFlush)
    {
      hide BlockSize;
      RoomGrows(n, m, BlockSize(prefs.sizeId), BlockOverhead(prefs), prefs.autoFlush);
    }

    /** The dictionary lies outside the buffer. */
    ghost predicate DictOut()
      reads this`prefs, this`tmpBuff, this`maxBufferSize, lz4
    {
      prefs.linked ==>
        0 < lz4.size && (lz4.at + lz4.size <= tmpBuff || tmpBuff + maxBufferSize <= lz4.at)
    }

    lemma MidParts(ptr: nat, end: nat, all: bytes)
      requires Mid(ptr, end, all)
      ensures InBuffer() && HistoryOk() && Known() && Sound(InfoOf(prefs), blocks, sent) && Outside(ptr, end - ptr)
        && ptr <= end
      ensures ptr < end ==> tmpInSize == 0 && all == Made(blocks) + [] + mem[ptr..end]
      ensures prefs.autoFlush ==> tmpInSize == 0
    {
      hide Known, Made, Sound;
      assert tmpInSize == 0 ==> Held() == [];
    }

    /** A block straight from the source. */
    method SourceBlock(ptr: nat, size: nat, end: nat, dst: array<byte>, at: nat, ghost all: bytes)
        returns (op: nat, ghost part: bytes)
      requires Mid(ptr, end, all) && 0 < size <= maxBlockSize && ptr + size <= end && dst != mem
      requires at + size + BlockOverhead(prefs) <= dst.Length
      modifies this`blocks, this`sent, lz4, lz4.fast, lz4.fast.hashTable, lz4.high, lz4.high.ctx
      modifies lz4.high.ctx.hashTable, lz4.high.ctx.chainTable, dst
      ensures Mid(ptr + size, end, all) && DictOut() && tmpInSize == 0
      ensures at <= op <= at + size + BlockOverhead(prefs)
      ensures dst[..op] == old(dst[..at]) + part && sent == old(sent) + part
      ensures exists b: Block :: blocks == old(blocks) + [b] && |b.content| == size
    {
      hide Grew, Known, Made, Sound, PrefsOk, BlockSize, Shape, InfoOf, HistoryOk, Moved, Outside, Mid;
      MidParts(ptr, end, all);
      OutsideParts(ptr, end - ptr, size);
      OutsideParts(ptr, end - ptr, 0);
      ghost var made, d, z, b, y := Made(blocks), lz4.at, lz4.size, lz4.oldAt, lz4.oldSize;
      ClearOf();
      SourceAway(ptr, size);
      op, part := MakeBlock(ptr, size, dst, at);
      AfterSource(d, z, b, y, ptr, size, end, all, made);
    }

    lemma SourceAway(ptr: nat, size: nat)
      requires Known() && tmpInSize == 0 && Outside(ptr, size) && 0 < size
      ensures Set() && SourceOk(ptr, size)
    {
      hide Made, FastStream.EndOf, Both, Shape;
    }

    lemma ClearOf()
      requires HistoryOk()
      ensures DictClear()
    {
    }

    lemma AfterSource(d: nat, z: nat, b: nat, y: nat, ptr: nat, size: nat, end: nat, all: bytes, made: bytes)
      requires InBuffer() && Holds(lz4.oldSize) && Sound(InfoOf(prefs), blocks, sent) && tmpInSize == 0 && 0 < ptr
      requires 0 < size && ptr + size <= end <= mem.Length
      requires prefs.linked ==> z == 0 || d + z <= tmpIn || tmpBuff + maxBufferSize <= d
      requires Moved(d, z, b, y, ptr, size) && Made(blocks) == made + mem[ptr..ptr + size]
        && all == made + [] + mem[ptr..end]
      requires end <= tmpBuff || tmpBuff + maxBufferSize < ptr
      requires prefs.linked ==> Disjoint(ptr, end - ptr, d, z) && Disjoint(ptr, end - ptr, b, y)
      ensures Mid(ptr + size, end, all) && DictOut()
    {
      hide Known, Holds, Sound, InfoOf, Made, PrefsOk, BlockSize;
      assert mem[ptr..end] == mem[ptr..ptr + size] + mem[ptr + size..end];
      assert Held() == [];
      assert DictOut();
      assert DictClear();
      assert Outside(ptr + size, end - ptr - size);
      KnownEmpty();
      assert HistoryOk();
    }

    lemma WrittenMore(dst: bytes, op: nat, now: bytes, op': nat, part: bytes, was: bytes, before: bytes, left: nat,
        size: nat, cap: nat)
      requires sent == was + part && op <= |dst| && was == before + dst[..op]
      requires op' <= |now| == |dst| && now[..op'] == dst[..op] + part
      requires op + RoomOf(prefs, left, prefs.autoFlush) + FrameEnd(prefs) <= cap <= |dst|
        && op' <= op + size + BlockOverhead(prefs)
      requires 0 < size <= left
        && (size == BlockSize(prefs.sizeId) || (prefs.autoFlush && size == left < BlockSize(prefs.sizeId)))
      ensures Writing(now, op', before, left - size, cap)
    {
      hide BlockSize, BlockOverhead;
      assert sent == before + now[..op'];
    }

    lemma RoomFor(size: nat, left: nat)
      requires 0 < size <= left
        && (size == BlockSize(prefs.sizeId) || (prefs.autoFlush && size == left < BlockSize(prefs.sizeId)))
      ensures size + BlockOverhead(prefs) <= RoomOf(prefs, left, prefs.autoFlush)
    {
      hide BlockSize;
    }

    /** One more block of the source, with the room for the rest. */
    method NextBlock(ptr: nat, size: nat, end: nat, dst: array<byte>, at: nat, ghost all: bytes, ghost before: bytes,
        ghost cap: nat) returns (op: nat)
      requires Mid(ptr, end, all) && ptr + size <= end && dst != mem && Writing(dst[..], at, before, end - ptr, cap)
      requires 0 < size && (size == maxBlockSize || (prefs.autoFlush && size == end - ptr < maxBlockSize))
      modifies this`blocks, this`sent, lz4, lz4.fast, lz4.fast.hashTable, lz4.high, lz4.high.ctx
      modifies lz4.high.ctx.hashTable, lz4.high.ctx.chainTable, dst
      ensures Mid(ptr + size, end, all) && DictOut() && tmpInSize == 0
        && Writing(dst[..], op, before, end - ptr - size, cap)
      ensures Grew(old(blocks), blocks, maxBlockSize, size < maxBlockSize)
    {
      hide Grew, Mid, PrefsOk, BlockSize, RoomOf, BlockOverhead, FrameEnd, DictOut;
      MidBlockSize(ptr, end, all);
      RoomFor(size, end - ptr);
      ghost var was, b := dst[..], sent;
      assert was[..at] == dst[..at];
      ghost var part;
      ghost var blocks0 := blocks;
      op, part := SourceBlock(ptr, size, end, dst, at, all);
      ghost var one: Block :| blocks == blocks0 + [one] && |one.content| == size;
      GrewOne(blocks0, one, maxBlockSize, size < maxBlockSize);
      assert dst[..][..op] == dst[..op];
      WrittenMore(was, at, dst[..], op, part, b, before, end - ptr, size, cap);
    }

    lemma MidBlockSize(ptr: nat, end: nat, all: bytes)
      requires Mid(ptr, end, all)
      ensures maxBlockSize == BlockSize(prefs.sizeId)
    {
      hide HistoryOk, Sound, Outside, Held, Made;
    }

    /** "compress full blocks", and with autoFlush what remains after them. */
    method CompressBlocks(last0: LastBlock, ptr0: nat, end: nat, dst: array<byte>, at: nat, ghost all: bytes,
        ghost before: bytes, ghost cap: nat)
      returns (last: LastBlock, ptr: nat, op: nat)
      requires Mid(ptr0, end, all) && ptr0 <= end && dst != mem && Writing(dst[..], at, before, end - ptr0, cap)
        && last0 != FromSrcBuffer
      modifies this`blocks, this`sent, lz4, lz4.fast, lz4.fast.hashTable, lz4.high, lz4.high.ctx
      modifies lz4.high.ctx.hashTable, lz4.high.ctx.chainTable, dst
      ensures Mid(ptr, end, all) && ptr <= end < ptr + maxBlockSize && (prefs.autoFlush ==> ptr == end)
      ensures Writing(dst[..], op, before, end - ptr, cap)
      ensures last == FromSrcBuffer ==> DictOut() && tmpInSize == 0
      ensures last != FromSrcBuffer && old(Inside()) ==> Inside()
      ensures Grew(old(blocks), blocks, maxBlockSize, prefs.autoFlush)
    {
      hide Grew, Mid, Writing, DictOut;
      last, ptr, op := last0, ptr0, at;
      MidBlockSize(ptr, end, all);
      GrewNone(blocks, maxBlockSize, false);
      while end - ptr >= maxBlockSize
        invariant ptr <= end && Mid(ptr, end, all) && Writing(dst[..], op, before, end - ptr, cap)
        invariant last == FromSrcBuffer ==> DictOut() && tmpInSize == 0
        invariant last != FromSrcBuffer && old(Inside()) ==> Inside()
        invariant Grew(old(blocks), blocks, maxBlockSize, false)
      {
        last := FromSrcBuffer;
        ghost var was := blocks;
        op := NextBlock(ptr, maxBlockSize, end, dst, op, all, before, cap);
        GrewMore(old(blocks), was, blocks, maxBlockSize, false);
        ptr := ptr + maxBlockSize;
      }
      GrewNone(blocks, maxBlockSize, prefs.autoFlush);
      GrewMore(old(blocks), blocks, blocks, maxBlockSize, prefs.autoFlush);
      if prefs.autoFlush && ptr < end {
        last := FromSrcBuffer;
        ghost var was := blocks;
        op := NextBlock(ptr, end - ptr, end, dst, op, all, before, cap);
        GrewMore(old(blocks), was, blocks, maxBlockSize, true);
        ptr := end;
      }
    }

    /** "preserve dictionary within @tmpBuff whenever necessary" */
    method PreserveDict(last: LastBlock, stableSrc: bool, ptr: nat, end: nat, ghost all: bytes)
      requires Mid(ptr, end, all) && (last == FromSrcBuffer ==> DictOut() && tmpInSize == 0)
      modifies this`tmpIn, lz4, lz4.fast, lz4.high, lz4.high.ctx, mem
      ensures Mid(ptr, end, all)
      ensures last == FromSrcBuffer && prefs.linked && !stableSrc ==> Inside()
      ensures last != FromSrcBuffer && old(Inside()) ==> Inside()
      ensures forall i :: 0 <= i < mem.Length && !(tmpBuff <= i < tmpBuff + maxBufferSize) ==> mem[i] == old(mem[i])
    {
      hide Mid, Known, PrefsOk, Made, Sound;
      if prefs.linked && last == FromSrcBuffer {
        MidParts(ptr, end, all);
        MidAll(ptr, end, all);
        ghost var was := mem[..];
        KnownEmpty();
        if stableSrc {
          tmpIn := tmpBuff;
          KnownEmpty();
          assert DictClear();
        } else {
          LocalSaveDict();
        }
        SliceKept(was, mem[..], ptr, end, tmpBuff, maxBufferSize);
        HeldNothing(ptr, end, all);
      }
    }

    lemma HeldNothing(ptr: nat, end: nat, all: bytes)
      requires InBuffer() && HistoryOk() && Sound(InfoOf(prefs), blocks, sent) && tmpInSize == 0
      requires 0 < ptr <= end <= mem.Length
      requires ptr == end || end <= tmpBuff || tmpBuff + maxBufferSize < ptr
      requires prefs.linked ==>
        Inside() || (Disjoint(ptr, end - ptr, lz4.at, lz4.size) && Disjoint(ptr, end - ptr, lz4.oldAt, lz4.oldSize))
      requires all == Made(blocks) + [] + mem[ptr..end]
      ensures Mid(ptr, end, all)
    {
      hide HistoryOk, PrefsOk, Made, Sound;
      assert Held() == [];
      assert Outside(ptr, end - ptr);
    }

    lemma MidAll(ptr: nat, end: nat, all: bytes)
      requires Mid(ptr, end, all) && tmpInSize == 0
      ensures ptr <= end <= mem.Length && all == Made(blocks) + [] + mem[ptr..end]
    {
      hide Known, Made, Sound;
      assert Held() == [];
    }

    /** The buffer has room for a block again. */
    method MakeRoom(ptr: nat, end: nat, ghost all: bytes)
      requires Mid(ptr, end, all)
      modifies this`tmpIn, lz4, lz4.fast, lz4.high, lz4.high.ctx, mem
      ensures Mid(ptr, end, all) && (!prefs.autoFlush ==> tmpIn + maxBlockSize <= tmpBuff + maxBufferSize)
      ensures old(Inside()) ==> Inside()
      ensures forall i :: 0 <= i < mem.Length && !(tmpBuff <= i < tmpBuff + maxBufferSize) ==> mem[i] == old(mem[i])
    {
      hide Mid, Known, PrefsOk, Made, Sound, BlockSize;
      MidLimits(ptr, end, all);
      if !prefs.autoFlush && tmpIn + maxBlockSize > tmpBuff + maxBufferSize {
        MidParts(ptr, end, all);
        MidAll(ptr, end, all);
        ghost var was := mem[..];
        KeepWithinLimits();
        SliceKept(was, mem[..], ptr, end, tmpBuff, maxBufferSize);
        HeldNothing(ptr, end, all);
      }
    }

    lemma MidLimits(ptr: nat, end: nat, all: bytes)
      requires Mid(ptr, end, all)
      ensures tmpInSize > 0 ==> tmpIn + maxBlockSize <= tmpBuff + maxBufferSize
    {
      hide HistoryOk, Sound, Outside, Held, Made, InBuffer;
    }

    /** What is left of the source, less than a block, goes into the buffer. */
    method KeepRest(ptr: nat, end: nat, ghost all: bytes)
      requires Mid(ptr, end, all) && end - ptr < maxBlockSize && (prefs.autoFlush ==> ptr == end)
      requires !prefs.autoFlush ==> tmpIn + maxBlockSize <= tmpBuff + maxBufferSize
      modifies this`tmpInSize, mem
      ensures Buffered() && HistoryOk() && Sound(InfoOf(prefs), blocks, sent) && all == Made(blocks) + Held()
      ensures forall i :: 0 <= i < mem.Length && !(tmpBuff <= i < tmpBuff + maxBufferSize) ==> mem[i] == old(mem[i])
    {
      hide HistoryOk, PrefsOk, Made, Sound, BlockSize;
      if ptr < end {
        MidAll(ptr, end, all);
        AppendTmp(ptr, end - ptr);
      }
    }

    /** The running hash and the count of bytes. */
    method CountInput(source: nat, n: nat)
      requires Counted(given) && source + n <= mem.Length
      modifies this`xxh, this`totalInSize, this`given
      ensures given == old(given) + mem[source..source + n] && Counted(given)
    {
      if prefs.contentChecksum { xxh := xxh + mem[source..source + n]; }
      totalInSize := totalInSize + n;
      given := given + mem[source..source + n];
    }

    /** Everything that goes out. */
    method SendBlocks(source: nat, n: nat, dst: array<byte>, ghost cap: nat)
        returns (last: LastBlock, ptr: nat, op: nat)
      requires Open() && Outside(source, n) && dst != mem
      requires RoomOf(prefs, tmpInSize + n, prefs.autoFlush) + FrameEnd(prefs) <= cap <= dst.Length
      modifies this`blocks, this`sent, this`tmpIn, this`tmpInSize, lz4, lz4.fast, lz4.fast.hashTable, lz4.high
      modifies lz4.high.ctx, lz4.high.ctx.hashTable, lz4.high.ctx.chainTable, dst, mem
      ensures Mid(ptr, source + n, given + old(mem[source..source + n])) && ptr <= source + n < ptr + maxBlockSize
      ensures (prefs.autoFlush ==> ptr == source + n) && Writing(dst[..], op, old(sent), source + n - ptr, cap)
      ensures last == FromSrcBuffer ==> DictOut() && tmpInSize == 0
      ensures last != FromSrcBuffer && old(Inside()) && prefs.linked ==> Inside()
      ensures forall i :: 0 <= i < mem.Length && !(tmpBuff <= i < tmpBuff + maxBufferSize) ==> mem[i] == old(mem[i])
      ensures Grew(old(blocks), blocks, maxBlockSize, prefs.autoFlush)
    {
      hide Grew, Mid, Writing, Open, Inside, DictOut, Outside, RoomOf;
      OutsideParts(source, n, 0);
      ghost var all, before := given + mem[source..source + n], sent;
      last, ptr, op := CompleteTmp(source, n, dst, cap);
      MidOrder(ptr, source + n, all);
      ghost var was := blocks;
      last, ptr, op := CompressBlocks(last, ptr, source + n, dst, op, all, before, cap);
      GrewMore(old(blocks), was, blocks, maxBlockSize, prefs.autoFlush);
    }

    lemma MidOrder(ptr: nat, end: nat, all: bytes)
      requires Mid(ptr, end, all)
      ensures ptr <= end
    {
      hide HistoryOk, Sound, Outside, Held, Made, InBuffer;
    }

    /** Everything that stays: the history and the rest of the source. */
    method StoreRest(last: LastBlock, stableSrc: bool, ptr: nat, end: nat, ghost all: bytes)
      requires Mid(ptr, end, all) && (last == FromSrcBuffer ==> DictOut() && tmpInSize == 0)
      requires end - ptr < maxBlockSize && (prefs.autoFlush ==> ptr == end)
      modifies this`tmpIn, this`tmpInSize, lz4, lz4.fast, lz4.high, lz4.high.ctx, mem
      ensures Buffered() && HistoryOk() && Sound(InfoOf(prefs), blocks, sent) && all == Made(blocks) + Held()
      ensures prefs.linked && !stableSrc && (last == FromSrcBuffer || old(Inside())) ==> Inside()
      ensures forall i :: 0 <= i < mem.Length && !(tmpBuff <= i < tmpBuff + maxBufferSize) ==> mem[i] == old(mem[i])
    {
      hide Mid, Buffered, HistoryOk, Sound, InfoOf, Made, Held, DictOut;
      PreserveDict(last, stableSrc, ptr, end, all);
      MakeRoom(ptr, end, all);
      KeepRest(ptr, end, all);
    }

    lemma UpdateRoom(n: nat)
      requires Open() && n < ADDRESS_SPACE
      ensures RoomOf(prefs, tmpInSize + n, prefs.autoFlush)
        + FrameEnd(prefs) <= CompressBoundInternal(n, prefs, tmpInSize)
    {
      hide CompressBoundInternal, HistoryOk, Flow, Counted, BlockSize;
      BoundIsRoom(n, prefs, tmpInSize);
    }

    lemma OpenAgain()
      requires Buffered() && HistoryOk() && Sound(InfoOf(prefs), blocks, sent) && given == Made(blocks) + Held()
        && Counted(given)
      ensures Open()
    {
    }

    lemma RoomLeft(dst: bytes, op: nat, before: bytes, left: nat, cap: nat)
      requires Writing(dst, op, before, left, cap)
      ensures op + FrameEnd(prefs) <= cap && op <= |dst| && sent == before + dst[..op]
    {
    }

    /** The source goes into blocks and into the buffer. */
    method Transfer(source: nat, n: nat, dst: array<byte>, stableSrc: bool, ghost cap: nat) returns (op: nat)
      requires Open() && Outside(source, n) && dst != mem
      requires RoomOf(prefs, tmpInSize + n, prefs.autoFlush) + FrameEnd(prefs) <= cap <= dst.Length
      modifies this`blocks, this`sent, this`tmpIn, this`tmpInSize, lz4, lz4.fast, lz4.fast.hashTable, lz4.high
      modifies lz4.high.ctx, lz4.high.ctx.hashTable, lz4.high.ctx.chainTable, dst, mem
      ensures Buffered() && HistoryOk() && Sound(InfoOf(prefs), blocks, sent)
      ensures given + old(mem[source..source + n]) == Made(blocks) + Held()
      ensures op + FrameEnd(prefs) <= cap && sent == old(sent) + dst[..op]
      ensures old(Inside()) && prefs.linked && !stableSrc ==> Inside()
      ensures forall i :: 0 <= i < mem.Length && !(tmpBuff <= i < tmpBuff + maxBufferSize) ==> mem[i] == old(mem[i])
      ensures Grew(old(blocks), blocks, maxBlockSize, prefs.autoFlush)
    {
      hide Grew, Mid, Open, Inside, DictOut, RoomOf, Buffered, HistoryOk, Sound, InfoOf, Made, Held, FrameEnd, Outside,
        Writing;
      OutsideParts(source, n, 0);
      ghost var all := given + mem[source..source + n];
      var last, ptr;
      last, ptr, op := SendBlocks(source, n, dst, cap);
      RoomLeft(dst[..], op, old(sent), source + n - ptr, cap);
      assert dst[..][..op] == dst[..op];
      StoreRest(last, stableSrc, ptr, source + n, all);
    }

    /** An update that has been admitted. */
    method Proceed(source: nat, n: nat, dst: array<byte>, stableSrc: bool, ghost cap: nat) returns (op: nat)
      requires Open() && Outside(source, n) && dst != mem
      requires RoomOf(prefs, tmpInSize + n, prefs.autoFlush) + FrameEnd(prefs) <= cap <= dst.Length
      modifies this`blocks, this`sent, this`given, this`tmpIn, this`tmpInSize, this`xxh, this`totalInSize
      modifies lz4, lz4.fast, lz4.fast.hashTable, lz4.high, lz4.high.ctx, lz4.high.ctx.hashTable
      modifies lz4.high.ctx.chainTable, dst, mem
      ensures Open() && given == old(given) + old(mem[source..source + n])
      ensures op + FrameEnd(prefs) <= cap && sent == old(sent) + dst[..op]
      ensures old(Inside()) && prefs.linked && !stableSrc ==> Inside()
      ensures forall i :: 0 <= i < mem.Length && !(tmpBuff <= i < tmpBuff + maxBufferSize) ==> mem[i] == old(mem[i])
      ensures Grew(old(blocks), blocks, maxBlockSize, prefs.autoFlush)
    {
      hide Grew, Open, Inside, RoomOf, Buffered, HistoryOk, Sound, InfoOf, Made, Held, Counted, FrameEnd, Outside;
      OpenParts();
      OutsideParts(source, n, 0);
      ghost var was := mem[..];
      op := Transfer(source, n, dst, stableSrc, cap);
      SliceKept(was, mem[..], source, source + n, tmpBuff, maxBufferSize);
      assert mem[..][source..source + n] == mem[source..source + n];
      CountInput(source, n);
      OpenAgain();
    }

    /** LZ4F_compressUpdate. With `stableSrc` the caller promises to leave the source in place, and the
        history may stay there. */
    method Update(source: nat, n: nat, dst: array<byte>, stableSrc: bool) returns (r: Outcome)
      requires Valid() && Outside(source, n) && n < ADDRESS_SPACE && dst != mem
      modifies this`blocks, this`sent, this`given, this`tmpIn, this`tmpInSize, this`xxh, this`totalInSize
      modifies lz4, lz4.fast, lz4.fast.hashTable, lz4.high, lz4.high.ctx, lz4.high.ctx.hashTable
      modifies lz4.high.ctx.chainTable, dst, mem
      ensures Valid()
      ensures r.Refused? <==> cStage != 1 || dst.Length < CompressBoundInternal(n, prefs, old(tmpInSize))
      ensures r.Done? ==>
        && given == old(given) + old(mem[source..source + n])
        && r.n <= dst.Length && sent == old(sent) + dst[..r.n]
        && r.n + FrameEnd(prefs) <= CompressBoundInternal(n, prefs, old(tmpInSize))
      ensures old(Inside()) && prefs.linked && !stableSrc ==> Inside()
      ensures forall i :: 0 <= i < mem.Length && !(tmpBuff <= i < tmpBuff + maxBufferSize) ==> mem[i] == old(mem[i])
      ensures r.Done? ==> Grew(old(blocks), blocks, maxBlockSize, prefs.autoFlush)
    {
      hide Grew, Mid, Writing, Open, Inside, DictOut, Outside, RoomOf, CompressBoundInternal;
      if cStage != 1 { return Refused(CompressionStateUninitialized); }
      if dst.Length < CompressBoundInternal(n, prefs, tmpInSize) { return Refused(DstMaxSizeTooSmall); }
      UpdateRoom(n);
      var op := Proceed(source, n, dst, stableSrc, CompressBoundInternal(n, prefs, tmpInSize));
      OpenFacts();
      return Done(op);
    }

    method Poke(at: nat, data: bytes)
      requires HistoryOk() && at + |data| <= mem.Length
      requires prefs.linked ==> Disjoint(lz4.at, lz4.size, at, |data|) && Disjoint(lz4.oldAt, lz4.oldSize, at, |data|)
      modifies mem
      ensures HistoryOk() && mem[at..at + |data|] == data
      ensures forall i :: 0 <= i < mem.Length && !(at <= i < at + |data|) ==> mem[i] == old(mem[i])
    {
      hide FastStream.EndOf, Made, Shape, Both, OldLeft;
      ghost var was := mem[..];
      forall i | 0 <= i < |data| {
        mem[at + i] := data[i];
      }
      if prefs.linked {
        BothKept(was, mem[..], lz4.at, lz4.size, lz4.oldAt, lz4.oldSize, OldLeft(), at, |data|);
      }
    }

    /** The caller overwrites memory of its own. */
    method Overwrite(at: nat, data: bytes)
      requires Open() && Outside(at, |data|)
      modifies mem
      ensures Open() && mem[at..at + |data|] == data
    {
      hide Open, Sound, Made, Counted, PrefsOk, BlockSize, HistoryOk, InfoOf;
      OpenParts();
      ghost var was := mem[..];
      Poke(at, data);
      SliceKept(was, mem[..], tmpIn, tmpIn + tmpInSize, at, |data|);
      OpenAgain();
    }
  }
}
