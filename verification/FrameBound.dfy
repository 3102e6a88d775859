/**
  How much room the frame compressor asks for: LZ4F_compressBound_internal, the sizes that the
  bindings allocate and the choice of a block size for a whole frame.
*/
module FrameBound {
  import opened Bytes
  import opened FrameFormat

  const ADDRESS_SPACE := 0x8000_0000_0000  // 47 bits of addresses

  /** LZ4F_preferences_t; zero means the default, or that a field is absent. */
  datatype Prefs = Prefs(linked: bool, blockChecksum: bool, contentChecksum: bool, sizeId: nat,
                         contentSize: nat, dictId: nat, autoFlush: bool, level: int)

  ghost predicate PrefsOk(p: Prefs) {
    && (p.sizeId == 0 || 4 <= p.sizeId <= 7)
    && p.contentSize < 0x1_0000_0000_0000_0000 && p.dictId < 0x1_0000_0000
  }

  /** The preferences with the default block size filled in. */
  function Concrete(p: Prefs): (q: Prefs)
    ensures PrefsOk(p) ==> PrefsOk(q) && 4 <= q.sizeId
  {
    if p.sizeId == 0 then p.(sizeId := 4) else p
  }

  /** What the header says of these preferences. */
  function InfoOf(p: Prefs): (i: Info)
    ensures PrefsOk(p) ==> InfoOk(i) && BlockSize(i.sizeId) == BlockSize(p.sizeId)
  {
    Info(p.linked, p.blockChecksum, p.contentChecksum, if p.sizeId == 0 then 4 else p.sizeId,
         if p.contentSize > 0 then Some(p.contentSize) else None,
         if p.dictId > 0 then Some(p.dictId) else None)
  }

  function BlockOverhead(p: Prefs): (n: nat) {
    BLOCK_HEADER + BLOCK_FOOTER * Bit(p.blockChecksum)
  }

  function FrameEnd(p: Prefs): (n: nat) {
    BLOCK_HEADER + BLOCK_FOOTER * Bit(p.contentChecksum)
  }

  /** LZ4F_compressBound_internal; the count of full blocks is cut to 32 bits. */
  function CompressBoundInternal(srcSize: nat, p: Prefs, alreadyBuffered: nat): nat {
    var flush := p.autoFlush || srcSize == 0;
    var blockSize := BlockSize(p.sizeId);
    var maxSrcSize: nat := srcSize + Min(alreadyBuffered, blockSize - 1);
    var nbFullBlocks := maxSrcSize / blockSize % 0x1_0000_0000;
    var lastBlockSize := if flush then maxSrcSize % blockSize else 0;
    var nbBlocks := nbFullBlocks + if lastBlockSize > 0 then 1 else 0;
    BlockOverhead(p) * nbBlocks + blockSize * nbFullBlocks + lastBlockSize + FrameEnd(p)
  }

  /** The room for `n` bytes cut into blocks one by one: the partner of the closed formula. */
  function Room(n: nat, blockSize: nat, overhead: nat, flush: bool): nat
    requires 0 < blockSize
  {
    if n >= blockSize then overhead + blockSize + Room(n - blockSize, blockSize, overhead, flush)
    else if flush && n > 0 then overhead + n
    else 0
  }

  function RoomOf(p: Prefs, n: nat, flush: bool): nat {
    Room(n, BlockSize(p.sizeId), BlockOverhead(p), flush)
  }

  lemma DivStep(n: nat, id: nat)
    requires BlockSize(id) <= n
    ensures n / BlockSize(id) == (n - BlockSize(id)) / BlockSize(id) + 1
    ensures n % BlockSize(id) == (n - BlockSize(id)) % BlockSize(id)
  {
  }

  lemma DivSmall(n: nat, id: nat)
    requires n < BlockSize(id)
    ensures n / BlockSize(id) == 0 && n % BlockSize(id) == n
  {
  }

  lemma {:induction false} RoomClosed(n: nat, id: nat, overhead: nat, flush: bool)
    ensures var b, last := BlockSize(id), if flush then n % BlockSize(id) else 0;
      Room(n, b, overhead, flush) == overhead * (n / b + if last > 0 then 1 else 0) + b * (n / b) + last
    decreases n
  {
    var b := BlockSize(id);
    if n >= b {
      DivStep(n, id);
      RoomClosed(n - b, id, overhead, flush);
      var q: nat, last := (n - b) / b, if flush then n % b else 0;
      var one := if last > 0 then 1 else 0;
      Distribute(overhead, q + one);
      Distribute(b, q);
      assert n / b + one == q + one + 1;
    } else {
      DivSmall(n, id);
    }
  }

  lemma Distribute(a: int, q: int)
    ensures a * (q + 1) == a * q + a
  {
  }

  lemma QuotientFits(n: nat, id: nat)
    requires n < 2 * ADDRESS_SPACE
    ensures n / BlockSize(id) % 0x1_0000_0000 == n / BlockSize(id)
  {
  }

  /** The closed formula is the room for the blocks plus the end of the frame. */
  lemma {:induction false} BoundIsRoom(srcSize: nat, p: Prefs, alreadyBuffered: nat)
    requires srcSize < ADDRESS_SPACE && alreadyBuffered < BlockSize(p.sizeId)
    ensures CompressBoundInternal(srcSize, p, alreadyBuffered)
            == RoomOf(p, srcSize + alreadyBuffered, p.autoFlush || srcSize == 0) + FrameEnd(p)
  {
    hide BlockSize, Room;
    QuotientFits(srcSize + alreadyBuffered, p.sizeId);
    RoomClosed(srcSize + alreadyBuffered, p.sizeId, BlockOverhead(p), p.autoFlush || srcSize == 0);
  }

  lemma {:induction false} RoomGrows(n: nat, m: nat, blockSize: nat, overhead: nat, flush: bool)
    requires n <= m && 0 < blockSize
    ensures Room(n, blockSize, overhead, flush) <= Room(m, blockSize, overhead, flush)
    decreases m
  {
    if m >= blockSize {
      RoomGrows(if n >= blockSize then n - blockSize else 0, m - blockSize, blockSize, overhead, flush);
    }
  }

  // ----- What callers allocate -----

  const SIZE_MAX := 0xFFFF_FFFF_FFFF_FFFF

  /** LZ4F_compressBound */
  function UpdateBound(srcSize: nat, p: Prefs): nat {
    CompressBoundInternal(srcSize, p, if p.autoFlush then 0 else SIZE_MAX)
  }

  /** LZ4F_compressFrameBound */
  function CompressFrameBound(srcSize: nat, p: Prefs): nat {
    MAX_HEADER + CompressBoundInternal(srcSize, p.(autoFlush := true), 0)
  }

  /** The size that compress_chunk allocates for the output. */
  function ChunkAllocation(srcSize: nat, p: Prefs): nat {
    if p.autoFlush then CompressFrameBound(srcSize, p) else UpdateBound(srcSize, p)
  }

  /** Whatever is buffered, that size passes the test of LZ4F_compressUpdate. */
  lemma {:induction false} ChunkFits(srcSize: nat, p: Prefs, buffered: nat)
    requires srcSize < ADDRESS_SPACE && buffered < BlockSize(p.sizeId) && (p.autoFlush ==> buffered == 0)
    ensures CompressBoundInternal(srcSize, p, buffered) <= ChunkAllocation(srcSize, p)
  {
    hide BlockSize, Room;
    var b := BlockSize(p.sizeId);
    if !p.autoFlush {
      BoundIsRoom(srcSize, p, buffered);
      BoundIsRoom(srcSize, p, b - 1);
      RoomGrows(srcSize + buffered, srcSize + b - 1, b, BlockOverhead(p), srcSize == 0);
    }
  }

  /** What compress_flush allocates is enough for what is buffered and the end of the frame, and for the
      larger size that LZ4F_flush asks for. */
  lemma {:induction false} FlushFits(p: Prefs, buffered: nat)
    requires buffered < BlockSize(p.sizeId) && (p.autoFlush ==> buffered == 0)
    ensures buffered > 0 ==> buffered + BLOCK_HEADER + BLOCK_FOOTER <= UpdateBound(0, p)
    ensures RoomOf(p, buffered, true) + FrameEnd(p) <= UpdateBound(0, p)
  {
    hide BlockSize;
    var b := BlockSize(p.sizeId);
    if !p.autoFlush {
      BoundIsRoom(0, p, b - 1);
    } else {
      BoundIsRoom(0, p, 0);
    }
  }

  // ----- Block size of a whole frame -----

  /** The smallest block size that holds the source, but never more than requested. */
  ghost predicate Optimal(requested: nat, srcSize: nat, id: nat) {
    if requested <= 4 then id == requested
    else
      && 4 <= id <= requested
      && (id < requested ==> srcSize <= BlockSize(id))
      && forall q :: 4 <= q < id ==> BlockSize(q) < srcSize
  }

  /** LZ4F_optimalBSID */
  method OptimalBSID(requestedBSID: nat, srcSize: nat) returns (id: nat)
    requires requestedBSID <= 7
    ensures Optimal(requestedBSID, srcSize, id)
  {
    var proposedBSID, maxBlockSize := 4, KB64;
    while requestedBSID > proposedBSID
      invariant 4 <= proposedBSID <= Max(4, requestedBSID)
      invariant requestedBSID > proposedBSID ==> maxBlockSize == BlockSize(proposedBSID)
      invariant forall q :: 4 <= q < proposedBSID ==> BlockSize(q) < srcSize
    {
      if srcSize <= maxBlockSize { return proposedBSID; }
      proposedBSID := proposedBSID + 1;
      maxBlockSize := maxBlockSize * 4;
    }
    return requestedBSID;
  }

  /** Choosing a block size does not change the room a frame takes: what a caller sized for the
      requested block size passes the test that is made with the chosen one. */
  lemma {:induction false} OptimalBoundSame(srcSize: nat, p: Prefs, id: nat, linked: bool, contentSize: nat)
    requires p.sizeId <= 7 && Optimal(p.sizeId, srcSize, id) && srcSize < ADDRESS_SPACE
    ensures CompressFrameBound(srcSize, p.(sizeId := id, linked := linked, contentSize := contentSize))
            == CompressFrameBound(srcSize, p)
  {
    hide BlockSize, Room;
    var q, r := p.(autoFlush := true),
      p.(sizeId := id, linked := linked, contentSize := contentSize, autoFlush := true);
    BoundIsRoom(srcSize, q, 0);
    BoundIsRoom(srcSize, r, 0);
    if id < p.sizeId {
      BlockSizeGrows(id, p.sizeId);
      SingleBlock(srcSize, BlockSize(id), BlockOverhead(p));
      SingleBlock(srcSize, BlockSize(p.sizeId), BlockOverhead(p));
    }
  }

  lemma BlockSizeGrows(id: nat, larger: nat)
    requires id <= larger
    ensures BlockSize(id) <= BlockSize(larger)
  {
  }

  lemma SingleBlock(n: nat, blockSize: nat, overhead: nat)
    requires n <= blockSize && 0 < blockSize
    ensures Room(n, blockSize, overhead, true) == if n > 0 then overhead + n else 0
  {
    if n == blockSize {
      assert Room(0, blockSize, overhead, true) == 0;
    }
  }
}
