/**
  Whole frames: any sequence of updates and flushes with buffers of the sizes the bindings allocate,
  the one-call form, and the way back through the decoder.
*/
module FrameTrip {
  import opened Bytes
  import opened FrameFormat
  import opened FrameBound
  import opened FrameWire
  import opened FrameEncoder
  import FrameTrack
  import FrameDecoder
  import FrameRuns
  import FrameChunks
  import FastStream

  /** What a caller does between the beginning and the end of a frame; the data are first written to their
      place, over whatever earlier data are there. */
  datatype Op = Give(at: nat, data: bytes) | FlushNow

  /** The content: all updates, one after the other. */
  function GivenBy(ops: seq<Op>, n: nat): bytes
    requires n <= |ops|
  {
    if n == 0 then []
    else GivenBy(ops, n - 1) + if ops[n - 1].Give? then ops[n - 1].data else []
  }

  /** `n` bytes at `place` are away from `size` bytes at `at`; two allocations never touch. */
  predicate Away(place: nat, n: nat, at: nat, size: nat) {
    n == 0 || place + n <= at || at + size < place
  }

  /** Between two calls for a frame. */
  ghost predicate Ready(c: Cctx, p: Prefs)
    reads c, c.lz4, c.lz4.fast, c.lz4.fast.hashTable, c.lz4.high, c.lz4.high.ctx, c.lz4.high.ctx.hashTable
    reads c.lz4.high.ctx.chainTable, c.mem
  {
    c.Valid() && c.cStage == 1 && c.prefs == Concrete(p) && (p.linked ==> c.Inside())
  }

  lemma ReadyFacts(c: Cctx, p: Prefs, at: nat, n: nat)
    requires Ready(c, p) && n < ADDRESS_SPACE && 0 < at
    ensures CompressBoundInternal(n, c.prefs, c.tmpInSize) <= ChunkAllocation(n, p)
      && UpdateBound(n, c.prefs) == UpdateBound(n, p)
    ensures c.tmpInSize > 0 ==> c.tmpInSize + BLOCK_HEADER + BLOCK_FOOTER <= UpdateBound(0, p)
    ensures c.Valid() && c.Open() && at + n <= c.mem.Length && Away(at, n, c.tmpBuff, c.maxBufferSize) ==>
      c.Outside(at, n)
  {
    hide CompressBoundInternal, ChunkAllocation, UpdateBound, Cctx.Open, Cctx.Shape;
    c.OpenFacts();
    AllocationSame(n, p, c.tmpInSize);
    AllocationSame(0, p, c.tmpInSize);
  }

  /** One update into a buffer of the size that compress_chunk allocates. */
  method GiveOne(c: Cctx, p: Prefs, at: nat, data: bytes) returns (part: bytes)
    requires Ready(c, p) && 0 < at && at + |data| <= c.mem.Length && |data| < ADDRESS_SPACE
    requires Away(at, |data|, c.tmpBuff, c.maxBufferSize)
    modifies c, c.lz4, c.lz4.fast, c.lz4.fast.hashTable, c.lz4.high, c.lz4.high.ctx, c.lz4.high.ctx.hashTable
    modifies c.lz4.high.ctx.chainTable, c.mem
    ensures Ready(c, p) && c.sent == old(c.sent) + part && c.given == old(c.given) + data
    ensures c.tmpBuff == old(c.tmpBuff) && c.maxBufferSize == old(c.maxBufferSize)
    ensures |part| <= ChunkAllocation(|data|, p)
  {
    hide Cctx.Shape, Cctx.Open, Cctx.Outside, ChunkAllocation, CompressBoundInternal, FrameEnd;
    ReadyFacts(c, p, at, |data|);
    c.Overwrite(at, data);
    var dst := new byte[ChunkAllocation(|data|, p)];
    var r := c.Update(at, |data|, dst, false);
    part := dst[..r.n];
  }

  lemma SameBlockSize(p: Prefs)
    ensures BlockSize(Concrete(p).sizeId) == BlockSize(p.sizeId)
  {
  }

  lemma AllocationSame(n: nat, p: Prefs, buffered: nat)
    requires n < ADDRESS_SPACE && buffered < BlockSize(Concrete(p).sizeId) && (p.autoFlush ==> buffered == 0)
    ensures CompressBoundInternal(n, Concrete(p), buffered) <= ChunkAllocation(n, p)
    ensures UpdateBound(n, Concrete(p)) == UpdateBound(n, p)
  {
    hide BlockSize;
    ChunkFits(n, Concrete(p), buffered);
    assert BlockSize(Concrete(p).sizeId) == BlockSize(p.sizeId) by { SameBlockSize(p); }
  }

  /** One flush into a buffer of the size that compress_flush allocates. */
  method FlushOne(c: Cctx, p: Prefs) returns (part: bytes)
    requires Ready(c, p)
    modifies c, c.lz4, c.lz4.fast, c.lz4.fast.hashTable, c.lz4.high, c.lz4.high.ctx, c.lz4.high.ctx.hashTable
    modifies c.lz4.high.ctx.chainTable, c.mem
    ensures Ready(c, p) && c.sent == old(c.sent) + part && c.given == old(c.given)
    ensures c.tmpBuff == old(c.tmpBuff) && c.maxBufferSize == old(c.maxBufferSize)
    ensures |part| <= UpdateBound(0, p)
  {
    hide Cctx.Shape, Cctx.Open, UpdateBound, CompressBoundInternal, BlockOverhead;
    ReadyFacts(c, p, 1, 0);
    var dst := new byte[UpdateBound(0, p)];
    var r := c.Flush(dst);
    part := dst[..r.n];
  }

  /** The end of the frame into such a buffer. */
  method EndOne(c: Cctx, p: Prefs) returns (part: bytes)
    requires Ready(c, p) && (p.contentSize == 0 || p.contentSize == |c.given|)
    modifies c, c.lz4, c.lz4.fast, c.lz4.fast.hashTable, c.lz4.high, c.lz4.high.ctx, c.lz4.high.ctx.hashTable
    modifies c.lz4.high.ctx.chainTable, c.mem
    ensures c.Valid() && c.cStage == 0 && c.Ended(c.given, old(c.sent) + part) && c.given == old(c.given)
    ensures c.prefs == Concrete(p)
  {
    hide Cctx.Shape, Cctx.Open, UpdateBound, Cctx.Ended;
    ReadyFacts(c, p, 1, 0);
    var dst := new byte[UpdateBound(0, p)];
    var r := c.End(dst);
    part := dst[..r.n];
  }

  /** The header. */
  method BeginOne(c: Cctx, p: Prefs, at: nat) returns (part: bytes)
    requires c.Valid() && PrefsOk(p) && 0 < at && at + RequiredBuffSize(p) <= c.mem.Length
    modifies c, c.lz4, c.lz4.fast, c.lz4.fast.hashTable, c.lz4.high, c.lz4.high.ctx, c.lz4.high.ctx.hashTable
    modifies c.lz4.high.ctx.chainTable
    ensures Ready(c, p) && c.sent == part && c.given == []
    ensures c.BufferAt(at, RequiredBuffSize(p), old(c.tmpBuff), old(c.maxBufferSize))
  {
    hide FastStream.Stream.Linked, FastStream.EndOf, Cctx.Shape, Cctx.Open, RequiredBuffSize;
    var dst := new byte[MAX_HEADER];
    var r := c.Begin(p, dst, at);
    part := dst[..r.n];
  }

  /** The data of every update come from the caller's own memory, away from the internal buffer. */
  ghost predicate Placed(ops: seq<Op>, c: Cctx, at: nat, size: nat)
    reads c
  {
    forall i :: 0 <= i < |ops| && ops[i].Give? ==>
      && 0 < ops[i].at && ops[i].at + |ops[i].data| <= c.mem.Length
      && Away(ops[i].at, |ops[i].data|, at, size) && Away(ops[i].at, |ops[i].data|, c.tmpBuff, c.maxBufferSize)
  }

  /** Begin, any updates and flushes, and end: a valid frame of all that was given, also when the content
      size is declared and right, and its header declares the preferences. No call fails with the buffers
      that the bindings allocate. */
  method EncodeFrame(c: Cctx, p: Prefs, ops: seq<Op>, at: nat) returns (output: bytes, ghost f: Frame)
    requires c.Valid() && PrefsOk(p) && 0 < at && at + RequiredBuffSize(p) <= c.mem.Length < ADDRESS_SPACE
    requires Placed(ops, c, at, RequiredBuffSize(p))
    requires p.contentSize == 0 || p.contentSize == |GivenBy(ops, |ops|)|
    modifies c, c.lz4, c.lz4.fast, c.lz4.fast.hashTable, c.lz4.high, c.lz4.high.ctx, c.lz4.high.ctx.hashTable
    modifies c.lz4.high.ctx.chainTable, c.mem
    ensures c.Valid() && c.cStage == 0
    ensures ValidFrame(f) && f.Frame? && f.dict == [] && FrameContent(f) == GivenBy(ops, |ops|) && output == Encode(f)
    ensures f.info == InfoOf(Concrete(p))
  {
    hide Cctx.Valid, Ready, Cctx.Ended, Encode, ValidFrame, FrameContent;
    output := BeginOne(c, p, at);
    for i := 0 to |ops|
      invariant Ready(c, p) && c.sent == output && c.given == GivenBy(ops, i)
      invariant c.BufferAt(at, RequiredBuffSize(p), old(c.tmpBuff), old(c.maxBufferSize))
    {
      var part;
      match ops[i] {
        case Give(place, data) => part := GiveOne(c, p, place, data);
        case FlushNow => part := FlushOne(c, p);
      }
      output := output + part;
    }
    var part := EndOne(c, p);
    output := output + part;
    f := TheFrame(c, output);
  }

  /** The frame behind an encoding that has ended. */
  ghost method TheFrame(c: Cctx, output: bytes) returns (f: Frame)
    requires c.Ended(c.given, output)
    ensures ValidFrame(f) && f.Frame? && f.dict == [] && FrameContent(f) == c.given && output == Encode(f)
    ensures f.info == InfoOf(c.prefs)
  {
    hide Encode, ValidFrame, FrameContent;
    f := FrameOf(InfoOf(c.prefs), c.blocks);
  }

  // ----- The one-call form -----

  /** What the header of a frame of `n` bytes made in one call says: the smallest block size that holds the
      source, linked blocks only if they were asked for and there is more than one block, checksums and
      dictionary as asked for, and the true size when a size was asked for. */
  ghost predicate Declares(i: Info, p: Prefs, n: nat) {
    && Optimal(if p.sizeId == 0 then 4 else p.sizeId, n, i.sizeId)
    && (i.linked <==> p.linked && BlockSize(i.sizeId) < n)
    && i.blockChecksum == p.blockChecksum && i.contentChecksum == p.contentChecksum
    && i.contentSize == (if p.contentSize != 0 && n != 0 then Some(n) else None)
    && i.dictId == if p.dictId != 0 then Some(p.dictId) else None
  }

  /** The preferences as LZ4F_compressFrame adjusts them to the source. */
  method Adjust(p: Prefs, n: nat) returns (q: Prefs)
    requires PrefsOk(p) && n < ADDRESS_SPACE
    ensures PrefsOk(q) && q.autoFlush && RequiredBuffSize(q) <= KB64
    ensures q.contentSize == if p.contentSize != 0 then n else 0
    ensures CompressFrameBound(n, q) == CompressFrameBound(n, p)
    ensures Declares(InfoOf(Concrete(q)), p, n) && q.level == p.level
  {
    hide CompressFrameBound, BlockSize;
    q := p;
    if q.contentSize != 0 { q := q.(contentSize := n); }
    var id := OptimalBSID(p.sizeId, n);
    q := q.(sizeId := id, autoFlush := true);
    if n <= BlockSize(id) { q := q.(linked := false); }
    OptimalBoundSame(n, p, id, q.linked, q.contentSize);
    SameWithFlush(n, q, p.(sizeId := id, linked := q.linked, contentSize := q.contentSize));
    SameBlockSize(q);
    OptimalDefault(p.sizeId, n, id);
  }

  lemma OptimalDefault(requested: nat, n: nat, id: nat)
    requires Optimal(requested, n, id) && (requested == 0 || 4 <= requested)
    ensures Optimal(if requested == 0 then 4 else requested, n, if id == 0 then 4 else id)
  {
  }

  lemma SameWithFlush(n: nat, q: Prefs, p: Prefs)
    requires q == p.(autoFlush := true)
    ensures CompressFrameBound(n, q) == CompressFrameBound(n, p)
  {
  }

  lemma RoomOfParts(n: nat, q: Prefs, capacity: nat)
    requires PrefsOk(q) && q.autoFlush && n < ADDRESS_SPACE && CompressFrameBound(n, q) <= capacity
    ensures MAX_HEADER + CompressBoundInternal(n, Concrete(q), 0) <= capacity
    ensures UpdateBound(0, Concrete(q)) == FrameEnd(Concrete(q))
  {
    hide BlockSize;
    SameBlockSize(q);
    BoundIsRoom(0, Concrete(q), 0);
    assert q.(autoFlush := true) == q;
  }

  /** LZ4F_compressFrame: it needs the room that LZ4F_compressFrameBound says for the preferences as they
      were asked for, and no more; then the output is a valid frame of the source. */
  method CompressFrame(c: Cctx, source: nat, n: nat, p: Prefs, capacity: nat, at: nat)
    returns (r: Outcome, output: bytes, ghost f: Frame)
    requires c.Valid() && PrefsOk(p) && 0 < at && at + KB64 <= c.mem.Length && n < ADDRESS_SPACE
    requires 0 < source && source + n <= c.mem.Length
    requires Away(source, n, at, KB64) && Away(source, n, c.tmpBuff, c.maxBufferSize)
    modifies c, c.lz4, c.lz4.fast, c.lz4.fast.hashTable, c.lz4.high, c.lz4.high.ctx, c.lz4.high.ctx.hashTable
    modifies c.lz4.high.ctx.chainTable, c.mem
    ensures c.Valid() && (r.Refused? <==> capacity < CompressFrameBound(n, p))
    ensures r.Done? ==>
      && r.n == |output| <= capacity && ValidFrame(f) && output == Encode(f)
      && f.Frame? && f.dict == [] && FrameContent(f) == old(c.mem[source..source + n])
      && Declares(f.info, p, n)
  {
    hide Cctx.Open, CompressFrameBound, CompressBoundInternal, UpdateBound, FrameEnd, BlockSize, Encode, ValidFrame,
      FrameContent, RequiredBuffSize, Cctx.Ended, Cctx.Shape;
    output, f := [], Skippable(0, []);
    var prefs := Adjust(p, n);
    if capacity < CompressFrameBound(n, prefs) {
      return Refused(DstMaxSizeTooSmall), output, f;
    }
    RoomOfParts(n, prefs, capacity);
    var size, rest := FirstParts(c, source, n, prefs, capacity, at);
    output := rest;
    var dst := new byte[capacity - size];
    r := c.End(dst);
    output := output + dst[..r.n];
    f := TheFrame(c, output);
    r := Done(size + r.n);
  }

  /** The header and the update. */
  method FirstParts(c: Cctx, source: nat, n: nat, prefs: Prefs, capacity: nat, at: nat)
      returns (size: nat, output: bytes)
    requires c.Valid() && PrefsOk(prefs) && prefs.autoFlush && 0 < at && at + KB64 <= c.mem.Length && n < ADDRESS_SPACE
    requires 0 < source && source + n <= c.mem.Length
    requires Away(source, n, at, KB64) && Away(source, n, c.tmpBuff, c.maxBufferSize)
    requires RequiredBuffSize(prefs) <= KB64 && MAX_HEADER + CompressBoundInternal(n, Concrete(prefs), 0) <= capacity
    modifies c, c.lz4, c.lz4.fast, c.lz4.fast.hashTable, c.lz4.high, c.lz4.high.ctx, c.lz4.high.ctx.hashTable
    modifies c.lz4.high.ctx.chainTable, c.mem
    ensures c.Valid() && c.cStage == 1 && c.prefs == Concrete(prefs) && c.given == old(c.mem[source..source + n])
    ensures size == |output| && c.sent == output && size + FrameEnd(c.prefs) <= capacity
  {
    hide Cctx.Open, CompressBoundInternal, FrameEnd, BlockSize, RequiredBuffSize, Cctx.Shape;
    var dst := new byte[capacity];
    var r := c.Begin(prefs, dst, at);
    output, size := dst[..r.n], r.n;
    dst := new byte[capacity - size];
    AwayFromAll(c, source, n);
    r := c.Update(source, n, dst, true);
    output, size := output + dst[..r.n], size + r.n;
  }

  lemma AwayFromAll(c: Cctx, source: nat, n: nat)
    requires (c.prefs.linked ==> c.Inside()) && 0 < source && source + n <= c.mem.Length
    requires Away(source, n, c.tmpBuff, c.maxBufferSize)
    ensures c.Outside(source, n)
  {
  }

  /** Round trip: what the compressor makes of any updates and flushes, the decoder turns back into the
      content, however the frame is cut into calls and whatever the output buffers. */
  method RoundTrip(c: Cctx, d: FrameDecoder.Dctx, p: Prefs, ops: seq<Op>, at: nat, manner: FrameRuns.Manner)
    returns (frame: bytes, content: bytes)
    requires c.Valid() && PrefsOk(p) && 0 < at && at + RequiredBuffSize(p) <= c.mem.Length < ADDRESS_SPACE
    requires Placed(ops, c, at, RequiredBuffSize(p))
    requires p.contentSize == 0 || p.contentSize == |GivenBy(ops, |ops|)|
    requires d.Valid(FrameTrack.Off) && d.Settled() && d.dStage == FrameTrack.GetFrameHeader
    requires d.frameRemainingSize == 0 && d.hist == []
    requires {c.mem} !! {d.header, d.tmpIn, d.tmpOutBuffer, d.dict}
    modifies c, c.lz4, c.lz4.fast, c.lz4.fast.hashTable, c.lz4.high, c.lz4.high.ctx, c.lz4.high.ctx.hashTable
    modifies c.lz4.high.ctx.chainTable, c.mem, d, d.header, d.tmpIn, d.tmpOutBuffer
    ensures content == GivenBy(ops, |ops|)
  {
    hide Cctx.Valid, FrameDecoder.Dctx.Valid, FrameDecoder.Dctx.Settled, Encode, ValidFrame, FrameContent, GivenBy;
    ghost var f;
    frame, f := EncodeFrame(c, p, ops, at);
    assert frame[..|frame|] == frame;
    var used;
    content, used := FrameRuns.AnySplit(d, f, frame, manner);
  }

  /** compress and decompress of the bindings: one buffer as large as the bound, the whole frame at once. */
  method WholeRoundTrip(c: Cctx, d: FrameDecoder.Dctx, source: nat, n: nat, p: Prefs, at: nat)
    returns (frame: bytes, content: bytes)
    requires c.Valid() && PrefsOk(p) && 0 < at && at + KB64 <= c.mem.Length && n < ADDRESS_SPACE
    requires 0 < source && source + n <= c.mem.Length
    requires Away(source, n, at, KB64) && Away(source, n, c.tmpBuff, c.maxBufferSize)
    requires d.Valid(FrameTrack.Off) && d.Settled() && d.dStage == FrameTrack.GetFrameHeader
    requires d.frameRemainingSize == 0 && d.hist == [] && !d.skipChecksum
    requires {c.mem} !! {d.header, d.tmpIn, d.tmpOutBuffer, d.dict}
    modifies c, c.lz4, c.lz4.fast, c.lz4.fast.hashTable, c.lz4.high, c.lz4.high.ctx, c.lz4.high.ctx.hashTable
    modifies c.lz4.high.ctx.chainTable, c.mem, d, d.header, d.tmpIn, d.tmpOutBuffer
    ensures content == old(c.mem[source..source + n]) && |frame| <= CompressFrameBound(n, p)
  {
    hide Cctx.Valid, FrameDecoder.Dctx.Valid, FrameDecoder.Dctx.Settled, Encode, ValidFrame, FrameContent,
      CompressFrameBound;
    var capacity := CompressFrameBound(n, p);
    var r;
    ghost var f;
    r, frame, f := CompressFrame(c, source, n, p, capacity, at);
    var whole := FrameChunks.Decompress(d, f, frame);
    content := whole.output;
  }
}
