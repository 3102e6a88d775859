/**
  The resumable frame decoder LZ4F_decompress: a state machine that stops whenever input or
  output runs out, with the history of linked blocks kept across a caller's buffer and its own.
*/
module FrameDecoder {
  import opened Bytes
  import opened BlockWriter
  import opened BlockApi
  import opened WildCopy
  import opened BlockDecoderSpec
  import opened FrameFormat
  import opened FrameHistory
  import opened FrameTrack
  import opened FrameWire
  import opened FrameAcceptance
  import opened BlockAcceptance

  class Dctx {
    var dStage: Stage
    var linked: bool        // frameInfo.blockMode == LZ4F_blockLinked
    var blockSum: bool      // frameInfo.blockChecksumFlag
    var contentSum: bool    // frameInfo.contentChecksumFlag
    var contentSize: nat    // frameInfo.contentSize
    var frameRemainingSize: nat
    var maxBlockSize: nat
    var maxBufferSize: nat
    var tmpIn: array<byte>
    var tmpInSize: nat
    var tmpInTarget: nat
    var tmpOutBuffer: array<byte>
    var dict: array?<byte>  // with dictStart: the pointer `dict` of the C struct
    var dictStart: nat
    var dictSize: nat
    var tmpOut: nat         // an offset in tmpOutBuffer
    var tmpOutSize: nat
    var tmpOutStart: nat
    var xxh: bytes          // what was fed to the content hash, an Xxh32.State
    var blockXxh: bytes     // what was fed to the block hash
    var skipChecksum: bool
    const header: array<byte>
    const fastLoop: bool    // LZ4_FAST_DEC_LOOP

    ghost var hist: bytes     // the dictionary of the frame
    ghost var emitted: bytes  // the content handed to the caller
    ghost var made: bytes     // the content decoded
    ghost var lent: array?<byte>  // the caller's dictionary, which it leaves alone
    ghost var log: Log        // what has been read of the frame

    // ----- Invariants -----

    /** The bytes of the current dictionary. */
    ghost function D(): bytes
      reads this`dict, this`dictStart, this`dictSize, dict
    {
      if dict != null && dictStart + dictSize <= dict.Length then dict[dictStart..dictStart + dictSize] else []
    }

    ghost predicate Shape()
      reads this`tmpIn, this`tmpOutBuffer, this`maxBufferSize
    {
      && header.Length == MAX_HEADER
      && tmpIn != header && tmpOutBuffer != header && tmpIn != tmpOutBuffer
      && tmpOutBuffer.Length == maxBufferSize
      && (maxBufferSize > 0 ==> Allocated(tmpIn.Length, maxBufferSize))
    }

    ghost predicate DictShape()
      reads this`tmpIn, this`tmpOutBuffer, this`dict, this`dictStart, this`dictSize
    {
      && (dict == null ==> dictSize == 0)
      && (dict != null ==> dictStart + dictSize <= dict.Length)
      && dict != tmpIn && dict != header
      && (dict == tmpOutBuffer ==> dictStart == 0)
    }

    /** The internal buffers are large enough for the blocks of this frame. */
    ghost predicate Ready()
      reads this`tmpIn, this`maxBufferSize, this`maxBlockSize, this`linked
    {
      && IsBlockSize(maxBlockSize)
      && maxBlockSize + BLOCK_FOOTER <= tmpIn.Length
      && maxBlockSize + (if linked then KB128 else 0) <= maxBufferSize
    }

    ghost predicate Sizes()
      reads this`dStage, this`tmpIn, this`maxBufferSize, this`maxBlockSize, this`linked, this`blockSum
      reads this`tmpInSize, this`tmpInTarget, header
    {
      match dStage
      case GetFrameHeader | GetSFrameSize | SkipSkippable => true
      case StoreFrameHeader =>
        && MIN_HEADER <= tmpInTarget <= MAX_HEADER && tmpInSize < tmpInTarget
        && (tmpInTarget > MIN_HEADER ==>
              MIN_HEADER <= tmpInSize && header.Length == MAX_HEADER && !IsSkippable(ReadLE32(header[..], 0)))
      case StoreSFrameSize => tmpInTarget == 8 && 4 <= tmpInSize < 8
      case Init => IsBlockSize(maxBlockSize)
      case GetBlockHeader | FlushOut | GetSuffix => Ready()
      case StoreBlockHeader | GetBlockChecksum | StoreSuffix => Ready() && tmpInSize < 4
      case CopyDirect => Ready() && tmpInTarget <= maxBlockSize
      case GetCBlock => Ready() && 4 * Bit(blockSum) < tmpInTarget <= maxBlockSize + 4 * Bit(blockSum)
      case StoreCBlock =>
        Ready() && 4 * Bit(blockSum) < tmpInTarget <= maxBlockSize + 4 * Bit(blockSum) && tmpInSize < tmpInTarget
    }

    /** The block waiting in the internal buffer. */
    ghost predicate Waiting()
      reads this`tmpOutBuffer, this`tmpOut, this`tmpOutSize, this`tmpOutStart, this`emitted, this`made, tmpOutBuffer
    {
      && tmpOutStart <= tmpOutSize && tmpOut + tmpOutSize <= tmpOutBuffer.Length
      && tmpOutStart <= |emitted|
      && tmpOutBuffer[tmpOut..tmpOut + tmpOutStart] == emitted[|emitted| - tmpOutStart..]
      && made == emitted + tmpOutBuffer[tmpOut + tmpOutStart..tmpOut + tmpOutSize]
    }

    /** Linked blocks, some of the last one not flushed yet: with the dictionary in the internal
        buffer, it is the history that will be there once all is flushed that counts. */
    ghost predicate HistFlushing()
      reads this`tmpOutBuffer, this`tmpOut, this`tmpOutSize, this`tmpOutStart, this`emitted, this`made, this`hist
      reads this`dict, this`dictStart, this`dictSize, tmpOutBuffer, dict
    {
      && tmpOutStart <= |emitted| && tmpOut + tmpOutSize <= tmpOutBuffer.Length
      && Min(KB64, |hist| + |emitted| - tmpOutStart) <= tmpOut <= |hist| + |emitted| - tmpOutStart
      && if dict == tmpOutBuffer then
           dictSize == tmpOut + tmpOutStart && Covers(tmpOutBuffer[..tmpOut + tmpOutSize], hist + made)
         else
           Covers(D(), hist + emitted)
    }

    /** The dictionary of the frame, as it was given. */
    ghost predicate HistFresh()
      reads this`tmpOutBuffer, this`hist, this`dict, this`dictStart, this`dictSize, dict
    {
      dict != tmpOutBuffer && D() == hist
    }

    /** The last 64 KB of history are at hand. */
    ghost predicate Hist(p: Phase)
      reads this`linked, this`tmpOutBuffer, this`tmpOut, this`tmpOutSize, this`tmpOutStart, this`emitted, this`made
      reads this`hist, this`dict, this`dictStart, this`dictSize, tmpOutBuffer, dict
    {
      match p
      case Fresh => HistFresh()
      case Between => made == emitted && if linked then Covers(D(), hist + emitted) else HistFresh() && tmpOut == 0
      case Flushing => Waiting() && if linked then HistFlushing() else HistFresh() && tmpOut == 0
      case Over => made == emitted
    }

    /** The buffers of the call are the caller's own. */
    ghost predicate Own(k: Call, op: nat)
      reads this`tmpIn, this`tmpOutBuffer
    {
      && (k.dst == null ==> k.start == k.end)
      && (k.dst != null ==> k.end <= k.dst.Length)
      && k.start <= op <= k.end
      && k.dst != tmpIn && k.dst != tmpOutBuffer && k.dst != header
    }

    /** And the dictionary is not about to be overwritten. */
    ghost predicate Place(k: Call, op: nat, p: Phase)
      reads this`tmpIn, this`tmpOutBuffer, this`dict, this`dictStart, this`dictSize
    {
      && Own(k, op)
      && (dict != null && dict == k.dst && !p.Over? ==> dictStart + dictSize <= op || k.end <= dictStart)
    }

    /** What the call has written so far is the end of the content emitted. */
    ghost predicate Written(k: Call, op: nat)
      reads this`emitted, k.dst
    {
      && k.start <= op <= k.start + |emitted|
      && (k.dst != null ==>
            && op <= k.dst.Length
            && k.dst[k.start..op] == emitted[|emitted| - (op - k.start)..])
    }

    ghost predicate Opening(f: Frame, n: nat)
      reads this`hist, this`frameRemainingSize
    {
      n == 0 && (f.Frame? ==> hist == f.dict) && frameRemainingSize == 0
    }

    ghost predicate InfoIs(f: Frame)
      reads this`hist, this`linked, this`blockSum, this`contentSum, this`maxBlockSize, this`contentSize
    {
      && ValidFrame(f) && f.Frame? && hist == f.dict
      && linked == f.info.linked && blockSum == f.info.blockChecksum && contentSum == f.info.contentChecksum
      && maxBlockSize == BlockSize(f.info.sizeId)
      && contentSize == if f.info.contentSize.Some? then f.info.contentSize.value else 0
    }

    ghost predicate Reading(f: Frame, n: nat)
      reads this`hist, this`linked, this`blockSum, this`contentSum, this`maxBlockSize, this`contentSize
      reads this`skipChecksum, this`xxh, this`made, this`frameRemainingSize
    {
      InfoIs(f) && n <= |f.blocks| && SumsOk(contentSum && !skipChecksum, xxh, made, contentSize, frameRemainingSize)
    }

    ghost predicate Skipping(f: Frame)
      reads this`frameRemainingSize, this`emitted
    {
      f.Skippable? && frameRemainingSize == 0 && emitted == []
    }

    /** `whole` remains to be read, from the header of block `n` on. */
    ghost predicate AtBlock(f: Frame, n: nat, whole: bytes)
      reads this`hist, this`linked, this`blockSum, this`contentSum, this`maxBlockSize, this`contentSize
      reads this`skipChecksum, this`xxh, this`made, this`frameRemainingSize
    {
      Reading(f, n) && made == Out(f.blocks, n) && whole == Body(f, n)
    }

    /** Within a stored block, of which `left` bytes remain. */
    ghost predicate AtCopy(f: Frame, n: nat, left: nat, whole: bytes)
      reads this`hist, this`linked, this`blockSum, this`contentSum, this`maxBlockSize, this`contentSize
      reads this`skipChecksum, this`xxh, this`made, this`frameRemainingSize, this`blockXxh
    {
      Reading(f, n) && CopyAt(f, n, left, whole, made, blockXxh, blockSum && !skipChecksum)
    }

    /** At the checksum of a stored block. */
    ghost predicate AtFooter(f: Frame, n: nat, whole: bytes)
      reads this`hist, this`linked, this`blockSum, this`contentSum, this`maxBlockSize, this`contentSize
      reads this`skipChecksum, this`xxh, this`made, this`frameRemainingSize, this`blockXxh
    {
      && Reading(f, n) && n < |f.blocks| && !f.blocks[n].compressed && blockSum
      && made == Out(f.blocks, n + 1) && whole == Tail(f, n)
      && (!skipChecksum ==> blockXxh == f.blocks[n].data)
    }

    /** At the data of a compressed block. */
    ghost predicate AtPacked(f: Frame, n: nat, whole: bytes)
      reads this`hist, this`linked, this`blockSum, this`contentSum, this`maxBlockSize, this`contentSize
      reads this`skipChecksum, this`xxh, this`made, this`frameRemainingSize, this`tmpInTarget
    {
      && Reading(f, n) && n < |f.blocks| && f.blocks[n].compressed && made == Out(f.blocks, n)
      && tmpInTarget == |f.blocks[n].data| + 4 * Bit(blockSum)
      && whole == f.blocks[n].data + Tail(f, n)
    }

    ghost predicate AtSuffix(f: Frame, n: nat, whole: bytes)
      reads this`hist, this`linked, this`blockSum, this`contentSum, this`maxBlockSize, this`contentSize
      reads this`skipChecksum, this`xxh, this`made, this`frameRemainingSize
    {
      && Reading(f, n) && n == |f.blocks| && made == FrameContent(f)
      && whole == Footer(contentSum, FrameContent(f))
    }

    ghost predicate AtSkippable(f: Frame, whole: bytes)
      reads this`frameRemainingSize, this`emitted
    {
      ValidFrame(f) && Skipping(f) && whole == LE32(|f.payload|) + f.payload
    }

    ghost predicate AtInit(f: Frame, n: nat, whole: bytes)
      reads this`hist, this`linked, this`blockSum, this`contentSum, this`maxBlockSize, this`contentSize
      reads this`frameRemainingSize
    {
      InfoIs(f) && n == 0 && whole == Body(f, 0) && frameRemainingSize == contentSize
    }

    /** What has been read and what has not make up the frame. */
    ghost predicate Follows(t: Track)
      reads this`dStage, this`tmpIn, this`tmpInSize, this`tmpInTarget, this`emitted, this`blockXxh
      reads this`hist, this`linked, this`blockSum, this`contentSum, this`maxBlockSize, this`contentSize
      reads this`skipChecksum, this`xxh, this`made, this`frameRemainingSize, header, tmpIn
    {
      match t
      case Off => true
      case Done(f) =>
        && ValidFrame(f) && emitted == FrameContent(f)
        && dStage == GetFrameHeader && frameRemainingSize == 0 && hist == []
      case On(f, n, rest) =>
        && ValidFrame(f)
        && match dStage
           case GetFrameHeader => Opening(f, n) && rest == Encode(f)
           case StoreFrameHeader =>
             && Opening(f, n) && tmpInSize <= header.Length
             && (tmpInTarget == MIN_HEADER || (f.Frame? && tmpInTarget == HeaderLength(f.info)))
             && header[..tmpInSize] + rest == Encode(f)
           case Init => AtInit(f, n, rest)
           case GetBlockHeader | FlushOut => AtBlock(f, n, rest)
           case StoreBlockHeader => tmpInSize <= tmpIn.Length && AtBlock(f, n, tmpIn[..tmpInSize] + rest)
           case CopyDirect => AtCopy(f, n, tmpInTarget, rest)
           case GetBlockChecksum => tmpInSize <= header.Length && AtFooter(f, n, header[..tmpInSize] + rest)
           case GetCBlock => AtPacked(f, n, rest)
           case StoreCBlock => tmpInSize <= tmpIn.Length && AtPacked(f, n, tmpIn[..tmpInSize] + rest)
           case GetSuffix => AtSuffix(f, n, rest)
           case StoreSuffix => tmpInSize <= tmpIn.Length && contentSum && AtSuffix(f, n, tmpIn[..tmpInSize] + rest)
           case GetSFrameSize => AtSkippable(f, rest)
           case StoreSFrameSize => 4 <= tmpInSize <= header.Length && AtSkippable(f, header[4..tmpInSize] + rest)
           case SkipSkippable => Skipping(f) && |rest| == tmpInTarget
    }

    // ----- What has been read, of any input -----

    /** The fields say what the header has said. */
    ghost predicate FieldsTold(i: Info)
      reads this`linked, this`blockSum, this`contentSum, this`maxBlockSize, this`contentSize
    {
      && linked == i.linked && blockSum == i.blockChecksum && contentSum == i.contentChecksum
      && maxBlockSize == BlockSize(i.sizeId)
      && contentSize == if i.contentSize.Some? then i.contentSize.value else 0
    }

    /** The running hash, and the size still expected modulo 2^64. */
    ghost predicate SumsTold()
      reads this`contentSum, this`skipChecksum, this`xxh, this`made, this`contentSize, this`frameRemainingSize
    {
      && (contentSum && !skipChecksum ==> xxh == made)
      && (contentSize != 0 ==> frameRemainingSize == (contentSize - |made|) % TWO64)
    }

    ghost predicate Told(g: Log)
      reads this`linked, this`blockSum, this`contentSum, this`maxBlockSize, this`contentSize
      reads this`skipChecksum, this`xxh, this`made, this`frameRemainingSize, this`hist
    {
      FieldsTold(g.info) && SumsTold() && FrontOk(g.info, g.blocks, g.front, hist, !skipChecksum)
    }

    /** Part of a header has been read. */
    ghost predicate ToldHead(g: Log)
      reads this`tmpInSize, this`tmpInTarget, header
    {
      && tmpInSize <= header.Length && g.read == header[..tmpInSize]
      && (tmpInTarget > MIN_HEADER ==>
            MIN_HEADER <= tmpInSize && ParseHeader(header[..MIN_HEADER]) == NeedMore(tmpInTarget))
    }

    ghost predicate ToldInit(g: Log)
      reads this`linked, this`blockSum, this`contentSum, this`maxBlockSize, this`contentSize, this`frameRemainingSize
    {
      && InfoOk(g.info) && FieldsTold(g.info) && g.read == Header(g.info)
      && (contentSize != 0 ==> frameRemainingSize == contentSize)
    }

    /** Behind the last complete block; `x` has been read since. */
    ghost predicate ToldBlock(g: Log, x: bytes)
      reads this`linked, this`blockSum, this`contentSum, this`maxBlockSize, this`contentSize
      reads this`skipChecksum, this`xxh, this`made, this`frameRemainingSize, this`hist
    {
      Told(g) && made == Made(g.blocks) && g.read == g.front + x
    }

    /** Within a stored block, of which `left` bytes remain; or behind its data, with `x` read since. */
    ghost predicate ToldCopy(g: Log, left: nat, x: bytes)
      reads this`linked, this`blockSum, this`contentSum, this`maxBlockSize, this`contentSize
      reads this`skipChecksum, this`xxh, this`made, this`frameRemainingSize, this`hist, this`blockXxh
    {
      && Told(g) && made == Made(g.blocks) + g.data && |g.data| + left <= maxBlockSize
      && g.read == g.front + (LE32(UNCOMPRESSED_FLAG + |g.data| + left) + g.data) + x
      && (blockSum && !skipChecksum ==> blockXxh == g.data)
    }

    /** Behind the header of a compressed block, with `x` read since. */
    ghost predicate ToldPacked(g: Log, x: bytes)
      reads this`linked, this`blockSum, this`contentSum, this`maxBlockSize, this`contentSize
      reads this`skipChecksum, this`xxh, this`made, this`frameRemainingSize, this`hist, this`tmpInTarget
    {
      && FieldsTold(g.info) && 0 <= tmpInTarget - 4 * Bit(blockSum) <= maxBlockSize
      && ToldBlock(g, LE32(tmpInTarget - 4 * Bit(blockSum)) + x)
    }

    /** At the end mark, with `x` read since. */
    ghost predicate ToldSuffix(g: Log, x: bytes)
      reads this`linked, this`blockSum, this`contentSum, this`maxBlockSize, this`contentSize
      reads this`skipChecksum, this`xxh, this`made, this`frameRemainingSize, this`hist
    {
      ToldBlock(g, LE32(0) + x)
    }

    /** At the size of a skippable frame, with `x` read of it. */
    ghost predicate ToldMagic(g: Log, x: bytes)
      reads this`emitted
    {
      emitted == [] && |g.read| == 4 + |x| && IsSkippable(ReadLE32(g.read, 0)) && g.read[4..] == x
    }

    ghost predicate ToldSkip(g: Log, left: nat)
      reads this`emitted
    {
      && emitted == [] && 8 <= |g.read| && IsSkippable(ReadLE32(g.read, 0))
        && ReadLE32(g.read, 4) == |g.read| - 8 + left
    }

    /** What has been read since the start of the frame, at every stage. */
    ghost predicate Logged(g: Log)
      reads this`dStage, this`tmpIn, this`tmpInSize, this`tmpInTarget, this`blockXxh, this`hist
      reads this`linked, this`blockSum, this`contentSum, this`maxBlockSize, this`contentSize
      reads this`skipChecksum, this`xxh, this`made, this`emitted, this`frameRemainingSize, header, tmpIn
    {
      match dStage
      case GetFrameHeader => true
      case StoreFrameHeader => ToldHead(g)
      case Init => ToldInit(g)
      case GetBlockHeader | FlushOut => ToldBlock(g, [])
      case StoreBlockHeader => tmpInSize <= tmpIn.Length && ToldBlock(g, tmpIn[..tmpInSize])
      case CopyDirect => ToldCopy(g, tmpInTarget, [])
      case GetBlockChecksum => blockSum && tmpInSize <= header.Length && ToldCopy(g, 0, header[..tmpInSize])
      case GetCBlock => ToldPacked(g, [])
      case StoreCBlock => tmpInSize <= tmpIn.Length && ToldPacked(g, tmpIn[..tmpInSize])
      case GetSuffix => ToldSuffix(g, [])
      case StoreSuffix =>
        contentSum && frameRemainingSize == 0 && tmpInSize <= tmpIn.Length && ToldSuffix(g, tmpIn[..tmpInSize])
      case GetSFrameSize => ToldMagic(g, [])
      case StoreSFrameSize => 4 <= tmpInSize <= header.Length && ToldMagic(g, header[4..tmpInSize])
      case SkipSkippable => ToldSkip(g, tmpInTarget)
    }

    lemma HeadLogged(g: Log)
      requires dStage == StoreFrameHeader
      ensures Logged(g) <==> ToldHead(g)
    {
      hide ToldHead;
    }

    lemma BlockLogged(g: Log)
      requires dStage == GetBlockHeader || dStage == FlushOut
      ensures Logged(g) <==> ToldBlock(g, [])
    {
      hide ToldBlock;
    }

    lemma StoreBlockLogged(g: Log)
      requires dStage == StoreBlockHeader
      ensures Logged(g) <==> tmpInSize <= tmpIn.Length && ToldBlock(g, tmpIn[..tmpInSize])
    {
      hide ToldBlock;
    }

    lemma CopyLogged(g: Log)
      requires dStage == CopyDirect
      ensures Logged(g) <==> ToldCopy(g, tmpInTarget, [])
    {
      hide ToldCopy;
    }

    lemma ChecksumLogged(g: Log)
      requires dStage == GetBlockChecksum
      ensures Logged(g) <==> blockSum && tmpInSize <= header.Length && ToldCopy(g, 0, header[..tmpInSize])
    {
      hide ToldCopy;
    }

    lemma PackedLogged(g: Log)
      requires dStage == GetCBlock || dStage == StoreCBlock
      ensures Logged(g) <==>
        if dStage == GetCBlock then ToldPacked(g, [])
        else tmpInSize <= tmpIn.Length && ToldPacked(g, tmpIn[..tmpInSize])
    {
      hide ToldPacked;
    }

    lemma SuffixLogged(g: Log)
      requires dStage == GetSuffix || dStage == StoreSuffix
      ensures Logged(g) <==>
        if dStage == GetSuffix then ToldSuffix(g, [])
        else contentSum && frameRemainingSize == 0 && tmpInSize <= tmpIn.Length && ToldSuffix(g, tmpIn[..tmpInSize])
    {
      hide ToldSuffix;
    }

    lemma SkipLogged(g: Log)
      requires dStage == GetSFrameSize || dStage == StoreSFrameSize || dStage == SkipSkippable
      ensures Logged(g) <==>
        if dStage == GetSFrameSize then ToldMagic(g, [])
        else if dStage == StoreSFrameSize then 4 <= tmpInSize <= header.Length && ToldMagic(g, header[4..tmpInSize])
        else ToldSkip(g, tmpInTarget)
    {
      hide ToldMagic, ToldSkip;
    }

    /** Where a call may stop: there is always something left to read before the end of the frame. */
    ghost predicate Rests()
      reads this`dStage, this`tmpInTarget
    {
      dStage != Init && dStage != GetSuffix && (dStage == SkipSkippable ==> tmpInTarget > 0)
    }

    /** How much a call asks for when it stops: what is missing of the item it is at, and the block header
        behind that. */
    function Wanted(): (n: int)
      reads this`dStage, this`tmpInTarget, this`tmpInSize, this`blockSum
    {
      match dStage
      case GetFrameHeader => MIN_HEADER
      case StoreFrameHeader => tmpInTarget - tmpInSize + BLOCK_HEADER
      case StoreBlockHeader => BLOCK_HEADER - tmpInSize
      case CopyDirect => tmpInTarget + BLOCK_FOOTER * Bit(blockSum) + BLOCK_HEADER
      case GetBlockChecksum => 1
      case GetCBlock => tmpInTarget + BLOCK_HEADER
      case StoreCBlock => tmpInTarget - tmpInSize + BLOCK_FOOTER * Bit(blockSum) + BLOCK_HEADER
      case FlushOut => BLOCK_HEADER
      case StoreSuffix => BLOCK_FOOTER - tmpInSize
      case StoreSFrameSize => tmpInTarget - tmpInSize
      case SkipSkippable => tmpInTarget
      case _ => 0
    }

    ghost predicate Young()
      reads this`dStage, this`emitted, this`made
    {
      dStage == StoreFrameHeader || dStage == Init ==> emitted == [] && made == []
    }

    /** Between two calls. */
    ghost predicate Valid(t: Track)
      reads this, header, tmpIn, tmpOutBuffer, dict
    {
      State(t) && Logged(log)
    }

    ghost predicate State(t: Track)
      reads this, header, tmpIn, tmpOutBuffer, dict
    {
      Shape() && DictShape() && Sizes() && Hist(PhaseOf(dStage)) && Young() && Follows(t)
    }

    /** Within a call, `k.src[..ip]` read and `k.dst[k.start..op]` written. */
    ghost predicate Inv(k: Call, ip: nat, op: nat, t: Track)
      reads this, header, tmpIn, tmpOutBuffer, dict, k.dst
    {
      && State(t) && Place(k, op, PhaseOf(dStage)) && Written(k, op) && ip <= |k.src|
      && (t.On? ==> Agree(k.src[ip..], t.rest))
    }

    // ----- Reading the header -----

    /** The common end of the storing stages: what fits of the input goes behind the bytes held. */
    method Store(buf: array<byte>, size: nat, target: nat, k: Call, ip: nat) returns (c: nat)
      requires size <= target <= buf.Length && ip <= |k.src|
      modifies buf
      ensures c == Min(target - size, |k.src| - ip)
      ensures buf[..size + c] == old(buf[..size]) + k.src[ip..ip + c]
      ensures buf[size + c..] == old(buf[size + c..])
    {
      c := Min(target - size, |k.src| - ip);
      PutBehind(buf, size, k.src[ip..ip + c], buf[..size]);
    }

    /** The fields that LZ4F_decodeHeader sets from a complete header. */
    ghost predicate HeaderRead(i: Info, remaining: nat)
      reads this`linked, this`blockSum, this`contentSum, this`maxBlockSize, this`contentSize, this`frameRemainingSize
    {
      && linked == i.linked && blockSum == i.blockChecksum && contentSum == i.contentChecksum
      && maxBlockSize == BlockSize(i.sizeId)
      && contentSize == (if i.contentSize.Some? then i.contentSize.value else 0)
      && frameRemainingSize == if i.contentSize.Some? then i.contentSize.value else remaining
    }

    /** LZ4F_decodeHeader; the result is the number of bytes read or an error. */
    method DecodeHeader(s: bytes, inHeader: bool) returns (r: SizeResult)
      requires header.Length == MAX_HEADER
      requires inHeader ==> |s| <= MAX_HEADER && s == header[..|s|]
      modifies this`linked, this`blockSum, this`contentSum, this`maxBlockSize, this`contentSize, this`frameRemainingSize
      modifies this`tmpInSize, this`tmpInTarget, this`dStage, header
      ensures var p := ParseHeader(s);
        match p
        case Failed(code) => r == Unknown(code)
        case SkippableStart =>
          && frameRemainingSize == old(frameRemainingSize)
          && if inHeader then
               && r == Size(|s|) && dStage == StoreSFrameSize && tmpInSize == |s| && tmpInTarget == 8
               && header[..] == old(header[..])
             else
               r == Size(4) && dStage == GetSFrameSize
        case NeedMore(target) =>
          && frameRemainingSize == old(frameRemainingSize)
          && r == Size(|s|) && dStage == StoreFrameHeader && tmpInSize == |s| && tmpInTarget == target
          && MIN_HEADER <= |s| < target <= MAX_HEADER && header[..|s|] == s
        case Complete(info) =>
          && r == Size(HeaderLength(info)) && dStage == Init && HeaderRead(info, old(frameRemainingSize))
          && IsBlockSize(maxBlockSize) && HeaderLength(info) <= |s|
    {
      hide ReadLE32, ReadLE64, HeaderChecksum, BlockSize;
      if |s| < MIN_HEADER { return Unknown(FrameHeaderIncomplete); }
      linked, blockSum, contentSum, contentSize := true, false, false, 0;
      if IsSkippable(ReadLE32(s, 0)) {
        if inHeader {
          tmpInSize, tmpInTarget, dStage := |s|, 8, StoreSFrameSize;
          return Size(|s|);
        } else {
          dStage := GetSFrameSize;
          return Size(4);
        }
      }
      if ReadLE32(s, 0) != MAGICNUMBER { return Unknown(FrameTypeUnknown); }
      var flg := s[4];
      var version := flg / 64 % 4;
      var contentSizeFlag, dictIDFlag := flg / 8 % 2, flg % 2;
      if flg / 2 % 2 != 0 { return Unknown(ReservedFlagSet); }
      if version != 1 { return Unknown(HeaderVersionWrong); }
      var size := MIN_HEADER + (if contentSizeFlag == 1 then 8 else 0) + (if dictIDFlag == 1 then 4 else 0);
      if |s| < size {
        if !inHeader {
          MemcpyFrom(header, 0, s, 0, |s|);
        }
        tmpInSize, tmpInTarget, dStage := |s|, size, StoreFrameHeader;
        return Size(|s|);
      }
      var bd := s[5];
      if bd / 128 % 2 != 0 { return Unknown(ReservedFlagSet); }
      if bd / 16 % 8 < 4 { return Unknown(MaxBlockSizeInvalid); }
      if bd % 16 != 0 { return Unknown(ReservedFlagSet); }
      if HeaderChecksum(s[4..size - 1]) != s[size - 1] { return Unknown(HeaderChecksumInvalid); }
      SetFields(s, flg, bd);
      return Size(size);
    }

    /** "save": the fields of a complete header. */
    method SetFields(s: bytes, flg: byte, bd: byte)
      requires ParseHeader(s).Complete? && flg == s[4] && bd == s[5] && contentSize == 0
      modifies this`linked, this`blockSum, this`contentSum, this`maxBlockSize, this`contentSize, this`frameRemainingSize
      modifies this`dStage
      ensures dStage == Init && HeaderRead(ParseHeader(s).info, old(frameRemainingSize)) && IsBlockSize(maxBlockSize)
    {
      hide ReadLE32, ReadLE64, HeaderChecksum, BlockSize;
      linked, blockSum, contentSum := flg / 32 % 2 == 0, flg / 16 % 2 == 1, flg / 4 % 2 == 1;
      maxBlockSize := BlockSize(bd / 16 % 8);
      BlockSizeIs(bd / 16 % 8);
      if flg / 8 % 2 == 1 {
        contentSize := ReadLE64(s, 6);
        frameRemainingSize := contentSize;
      }
      dStage := Init;
    }

    /** The header that has been read. */
    lemma HeaderHeard(s: bytes, p: HeaderResult, remaining: nat) returns (g: Log)
      requires p == ParseHeader(s) && (p.SkippableStart? || p.Complete?)
      requires p.SkippableStart? ==> dStage == GetSFrameSize && emitted == []
      requires p.Complete? ==> dStage == Init && HeaderRead(p.info, remaining)
      ensures p.SkippableStart? ==> 4 <= |s| && Logged(g) && g.read == s[..4]
      ensures p.Complete? ==> HeaderLength(p.info) <= |s| && Logged(g) && g.read == s[..HeaderLength(p.info)]
    {
      hide ParseHeader, Header, IsSkippable, ReadLE32, InfoOk;
      ParseFacts(s);
      if p.Complete? {
        HeaderSound(s);
        g := Log(p.info, [], [], [], Header(p.info));
      } else {
        SameMagic(s, 4);
        g := Log(Info(false, false, false, 4, None, None), [], [], [], s[..4]);
      }
    }

    /** And one that has been gathered. */
    lemma StoredHeard(s: bytes, p: HeaderResult, remaining: nat, g: Log) returns (g': Log)
      requires p == ParseHeader(s) && g.read == s && header.Length == MAX_HEADER && !p.Failed?
      requires p.Complete? ==> dStage == Init && HeaderRead(p.info, remaining) && HeaderLength(p.info) == |s|
      requires p.NeedMore? ==>
        dStage == StoreFrameHeader && tmpInSize == |s| == MIN_HEADER && header[..|s|] == s && tmpInTarget == p.target
      requires p.SkippableStart? ==>
        dStage == StoreSFrameSize && tmpInSize == |s| <= header.Length && header[..|s|] == s && emitted == []
      ensures Logged(g') && g'.read == s
    {
      hide ParseHeader, Header, ReadLE32, IsSkippable, InfoOk;
      ParseFacts(s);
      g' := g;
      if p.Complete? {
        HeaderSound(s);
        assert s[..|s|] == s;
        g' := Log(p.info, [], [], [], s);
      } else if p.SkippableStart? {
        assert s[4..] == header[..|s|][4..] == header[4..|s|];
      }
    }

    /** A header that lies whole in the input. */
    method HeaderFromSource(k: Call, ip: nat, op: nat, ghost t: Track, ghost g: Log)
      returns (ip': nat, step: Step, ghost t': Track, ghost g': Log)
      requires Inv(k, ip, op, t) && dStage == GetFrameHeader && ip + MIN_HEADER <= |k.src|
      requires emitted == [] && made == [] && !t.Done? && !ParseHeader(k.src[ip..]).NeedMore? && g.read == []
      modifies this`linked, this`blockSum, this`contentSum, this`maxBlockSize, this`contentSize, this`frameRemainingSize
      modifies this`tmpInSize, this`tmpInTarget, this`dStage, header
      ensures step.Again? || step.Fail?
      ensures step.Fail? ==> !t.On?
      ensures step.Again? ==> ip < ip' && Inv(k, ip', op, t') && Next(t, t', ip' - ip) && !t'.Done?
      ensures step.Again? ==> dStage != GetFrameHeader && dStage != StoreFrameHeader
      ensures step.Again? && t.On? && t.f.Frame? ==>
        dStage == Init && ip' - ip == HeaderLength(t.f.info) && HeaderRead(t.f.info, old(frameRemainingSize))
      ensures step.Again? && t.On? && t.f.Skippable? ==> dStage == GetSFrameSize && ip' - ip == 4
      ensures step.Again? ==> Logged(g') && Heard(g, g', k, ip, ip')
    {
      hide Inv, Follows, Hist, Sizes, Place, Written, HistFresh, ParseHeader, Encode, Body, ReadLE32, IsSkippable,
        ValidFrame, Shape, DictShape, LE32, HeaderLength, Agree, Logged, AtInit, AtSkippable;
      var s := k.src[ip..];
      HeaderOpen(k, ip, op, t);
      ip', t', g' := ip, t, g;
      var r := DecodeHeader(s, false);
      if r.Unknown? {
        if t.On? { StartOfFrame(t.f, s); }
        return ip, Fail(r.code), t, g;
      }
      g' := HeaderHeard(s, ParseHeader(s), old(frameRemainingSize));
      ip', step := ip + r.value, Again;
      NoHistory(k, op);
      assert s[..r.value] == k.src[ip..ip'];
      if t.On? {
        StartOfFrame(t.f, s);
        Consume(k.src, ip, t.rest, r.value);
        t' := On(t.f, 0, t.rest[r.value..]);
        HeaderTracked(t.f, t.rest, t'.rest, old(frameRemainingSize));
      }
      HeaderClose(k, ip', op, t');
    }

    lemma HeaderOpen(k: Call, ip: nat, op: nat, t: Track)
      requires Inv(k, ip, op, t) && dStage == GetFrameHeader && !t.Done?
      ensures Shape() && DictShape() && HistFresh() && Place(k, op, Fresh) && Written(k, op) && ip <= |k.src|
      ensures header.Length == MAX_HEADER && k.dst != header && dict != header && tmpIn != header
        && tmpOutBuffer != header
      ensures t.Off? || (t.On? && ValidFrame(t.f) && Agree(k.src[ip..], t.rest) && t.rest == Encode(t.f))
      ensures t.On? ==> t.n == 0 && frameRemainingSize == 0 && (t.f.Frame? ==> hist == t.f.dict)
    {
      hide Place, Written, HistFresh, Encode, ValidFrame, Agree, Shape, DictShape;
      Apart(k, op, Fresh);
    }

    lemma HeaderTracked(f: Frame, all: bytes, rest: bytes, remaining: nat)
      requires ValidFrame(f) && all == Encode(f) && emitted == [] && remaining == 0
      requires f.Frame? ==>
        && dStage == Init && hist == f.dict && HeaderRead(f.info, remaining) && HeaderLength(f.info) <= |all|
        && rest == all[HeaderLength(f.info)..] && all[HeaderLength(f.info)..] == Body(f, 0)
      requires f.Skippable? ==>
        && dStage == GetSFrameSize && frameRemainingSize == remaining && 4 <= |all| && rest == all[4..]
        && all[4..] == LE32(|f.payload|) + f.payload
      ensures f.Frame? ==> AtInit(f, 0, rest)
      ensures f.Skippable? ==> AtSkippable(f, rest)
    {
      hide Encode, Body, LE32, HeaderLength, BlockSize;
    }

    lemma HeaderClose(k: Call, ip: nat, op: nat, t: Track)
      requires dStage == Init || dStage == GetSFrameSize
      requires Shape() && DictShape() && HistFresh() && Place(k, op, PhaseOf(dStage)) && Written(k, op) && ip <= |k.src|
      requires emitted == [] && made == [] && (dStage == Init ==> IsBlockSize(maxBlockSize))
      requires t.Off? || (t.On? && ValidFrame(t.f) && Agree(k.src[ip..], t.rest))
      requires t.On? ==> if dStage == Init then AtInit(t.f, t.n, t.rest) else AtSkippable(t.f, t.rest)
      ensures Inv(k, ip, op, t)
    {
      hide Place, Written, HistFresh, ValidFrame, Agree, Shape, DictShape, AtInit, AtSkippable;
    }

    /** A header gathered in `header`. */
    method HeaderFromStore(k: Call, ip: nat, op: nat, ghost t: Track, ghost g: Log)
      returns (step: Step, ghost t': Track, ghost g': Log)
      requires Shape() && DictShape() && Hist(Fresh) && Place(k, op, Fresh) && Written(k, op) && ip <= |k.src|
      requires dStage == StoreFrameHeader && MIN_HEADER <= tmpInTarget <= MAX_HEADER && tmpInSize == tmpInTarget
      requires tmpInTarget > MIN_HEADER ==> header.Length == MAX_HEADER && !IsSkippable(ReadLE32(header[..], 0))
      requires Follows(t) && (t.On? ==> Agree(k.src[ip..], t.rest))
      requires emitted == [] && made == [] && !t.Done? && ToldHead(g)
      modifies this`linked, this`blockSum, this`contentSum, this`maxBlockSize, this`contentSize, this`frameRemainingSize
      modifies this`tmpInSize, this`tmpInTarget, this`dStage, header
      ensures step.Again? || step.Fail?
      ensures step.Fail? ==> !t.On?
      ensures step.Again? ==> Inv(k, ip, op, t') && Next(t, t', 0) && !t'.Done? && dStage != GetFrameHeader
      ensures step.Again? ==> Logged(g') && g'.read == g.read
    {
      hide ToldHead, Logged, Place, Written, HistFresh, HistFlushing, Waiting, ParseHeader, Encode, Body, ReadLE32,
        IsSkippable,
        ValidFrame, Shape, DictShape, LE32, HeaderLength, Agree;
      Apart(k, op, Fresh);
      ghost var s := header[..tmpInTarget];
      t', g' := t, g;
      HeadWhole(g, s);
      if t.On? {
        HeaderLengthMax(t.f);
        AgreePrefix(s, t.rest);
        StartOfFrame(t.f, s);
      }
      var r := DecodeHeader(header[..tmpInTarget], true);
      if r.Unknown? {
        return Fail(r.code), t, g;
      }
      g' := StoredHeard(s, ParseHeader(s), old(frameRemainingSize), g);
      step := Again;
      NoHistory(k, op);
      SameMagic(header[..], |s|);
      ParseFacts(s);
      if t.On? {
        t' := On(t.f, 0, t.rest);
        assert t.rest == t.rest[0..];
        if t.f.Frame? {
          if dStage == Init {
            assert |s| == HeaderLength(t.f.info);
            assert (s + t.rest)[HeaderLength(t.f.info)..] == t.rest;
          }
        } else {
          assert (s + t.rest)[4..] == s[4..] + t.rest;
        }
      }
    }

    lemma HeadWhole(g: Log, s: bytes)
      requires ToldHead(g) && MIN_HEADER <= tmpInTarget == tmpInSize <= header.Length && s == header[..tmpInTarget]
      ensures g.read == s && (ParseHeader(s).NeedMore? ==> |s| == MIN_HEADER)
      ensures ParseHeader(s).Complete? ==> HeaderLength(ParseHeader(s).info) == |s|
    {
      hide ParseHeader, HeaderLength;
      assert s[..MIN_HEADER] == header[..MIN_HEADER];
      StoredWhole(s, tmpInTarget);
    }

    lemma StoreHeaderStage(t: Track)
      requires dStage == StoreFrameHeader
      ensures Follows(t) <==>
              t.Off? || (t.On? && ValidFrame(t.f) && Opening(t.f, t.n) && tmpInSize <= header.Length
                         && (tmpInTarget == MIN_HEADER || (t.f.Frame? && tmpInTarget == HeaderLength(t.f.info)))
                         && header[..tmpInSize] + t.rest == Encode(t.f))
      ensures Sizes() <==>
              && MIN_HEADER <= tmpInTarget <= MAX_HEADER && tmpInSize < tmpInTarget
              && (tmpInTarget > MIN_HEADER ==>
                    MIN_HEADER <= tmpInSize && header.Length == MAX_HEADER && !IsSkippable(ReadLE32(header[..], 0)))
    {
      hide ValidFrame, Opening, Encode, ReadLE32, IsSkippable, HeaderLength;
    }

    /** More of the header goes behind the bytes held. */
    method GatherHeader(k: Call, ip: nat, op: nat, ghost t: Track, ghost g: Log)
      returns (ip': nat, ghost t': Track, ghost g': Log)
      requires Inv(k, ip, op, t) && dStage == StoreFrameHeader && !t.Done? && ToldHead(g)
      modifies this`tmpInSize, header
      ensures ip <= ip' <= |k.src| && (tmpInSize == tmpInTarget ==> ip < ip')
      ensures Shape() && DictShape() && Hist(Fresh) && Place(k, op, Fresh) && Written(k, op)
      ensures tmpInSize <= tmpInTarget && MIN_HEADER <= tmpInTarget <= MAX_HEADER
      ensures tmpInSize < tmpInTarget ==> ip' == |k.src| && Sizes()
      ensures tmpInTarget > MIN_HEADER ==> header.Length == MAX_HEADER && !IsSkippable(ReadLE32(header[..], 0))
      ensures Follows(t') && (t'.On? ==> Agree(k.src[ip'..], t'.rest)) && Next(t, t', ip' - ip) && !t'.Done?
      ensures t.On? <==> t'.On?
      ensures ToldHead(g') && Heard(g, g', k, ip, ip')
    {
      hide ToldHead, Place, Written, Hist, ParseHeader, Encode, Body, ReadLE32, IsSkippable, ValidFrame, Shape,
        DictShape, LE32,
        HeaderLength, Agree, Follows, Sizes, Opening;
      StoreHeaderStage(t);
      Apart(k, op, Fresh);
      t' := t;
      if t.On? { EncodeLength(t.f); }
      ghost var held, all := header[..tmpInSize], header[..];
      HeadKnown(all, held, g);
      var c := Store(header, tmpInSize, tmpInTarget, k, ip);
      if t.On? {
        Stored(held, k.src, ip, t.rest, c, Encode(t.f));
        t' := On(t.f, t.n, t.rest[c..]);
      }
      SameStart(all, header[..], tmpInSize, held, k.src[ip..ip + c]);
      tmpInSize := tmpInSize + c;
      ip', g' := ip + c, MoreRead(g, k.src[ip..ip + c]);
      HeadMore(all, held, k.src[ip..ip + c], g');
      StoreHeaderStage(t');
    }

    lemma HeadKnown(all: bytes, held: bytes, g: Log)
      requires ToldHead(g) && all == header[..] && held == header[..tmpInSize]
      ensures g.read == held
      ensures tmpInTarget > MIN_HEADER ==>
        MIN_HEADER <= tmpInSize && ParseHeader(all[..MIN_HEADER]) == NeedMore(tmpInTarget)
    {
      hide ParseHeader;
    }

    lemma HeadMore(all: bytes, held: bytes, x: bytes, g: Log)
      requires tmpInSize == |held| + |x| <= header.Length == |all| && held == all[..|held|]
      requires g.read == held + x && header[..tmpInSize] == held + x
      requires tmpInTarget > MIN_HEADER ==>
        MIN_HEADER <= |held| && ParseHeader(all[..MIN_HEADER]) == NeedMore(tmpInTarget)
      ensures ToldHead(g)
    {
      hide ParseHeader;
      if tmpInTarget > MIN_HEADER {
        assert header[..MIN_HEADER] == header[..tmpInSize][..MIN_HEADER] == held[..MIN_HEADER] == all[..MIN_HEADER];
      }
    }

    method StoreHeader(k: Call, ip: nat, op: nat, ghost t: Track, ghost g: Log)
      returns (ip': nat, step: Step, ghost t': Track, ghost g': Log)
      requires Inv(k, ip, op, t) && dStage == StoreFrameHeader && !t.Done? && ToldHead(g)
      modifies this`linked, this`blockSum, this`contentSum, this`maxBlockSize, this`contentSize, this`frameRemainingSize
      modifies this`tmpInSize, this`tmpInTarget, this`dStage, header
      ensures step.Fail? ==> !t.On?
      ensures !step.Fail? ==> Logged(g') && Heard(g, g', k, ip, ip')
      ensures !step.Fail? ==> ip <= ip' && Inv(k, ip', op, t') && Next(t, t', ip' - ip) && !t'.Done?
      ensures step.Again? ==> ip < ip' && dStage != GetFrameHeader
      ensures step.Stop? ==> step.hint > 0 && ip' == |k.src|
      ensures step.Stop? ==> Rests() && (step.hint > 0 ==> step.hint == Wanted())
      ensures step.Stop? && dStage == GetFrameHeader ==>
        step.hint == 0 || (old(dStage) == GetFrameHeader && ip == |k.src|)
    {
      hide ToldHead, Logged, Place, Written, Hist, ParseHeader, Encode, Body, ReadLE32, IsSkippable, ValidFrame, Shape,
        DictShape, LE32,
        HeaderLength, Agree, Follows, Sizes, Opening;
      StoreHeaderStage(t);
      ghost var g1;
      ip', t', g1 := GatherHeader(k, ip, op, t, g);
      if tmpInSize < tmpInTarget {
        HeadLogged(g1);
        return ip', Stop(tmpInTarget - tmpInSize + BLOCK_HEADER), t', g1;
      }
      ghost var t1 := t';
      step, t', g' := HeaderFromStore(k, ip', op, t1, g1);
      assert t1.On? && t'.On? ==> t'.rest == t1.rest[0..] == t1.rest;
    }

    method ClearHeld(k: Call, ip: nat, op: nat, ghost t: Track)
      requires Inv(k, ip, op, t) && dStage == GetFrameHeader
      modifies this`tmpInSize
      ensures Inv(k, ip, op, t) && tmpInSize == 0
    {
      hide Place, Written, Hist, Encode, ValidFrame, Shape, DictShape, Agree;
      tmpInSize := 0;
    }

    method StartStore(k: Call, ip: nat, op: nat, ghost t: Track, ghost g: Log)
      requires Inv(k, ip, op, t) && dStage == GetFrameHeader && emitted == [] && made == [] && !t.Done?
      requires g.read == [] && tmpInSize == 0
      modifies this`tmpInTarget, this`dStage
      ensures Inv(k, ip, op, t) && dStage == StoreFrameHeader && tmpInTarget == MIN_HEADER && ToldHead(g)
    {
      hide Place, Written, HistFresh, HistFlushing, Waiting, ParseHeader, Encode, Body, ReadLE32, IsSkippable,
        ValidFrame, Shape, DictShape, LE32, HeaderLength, Agree;
      tmpInTarget := MIN_HEADER;
      dStage := StoreFrameHeader;
      assert header[..0] == [];
    }

    /** dstage_getFrameHeader, dstage_storeFrameHeader */
    method StepFrameHeader(k: Call, ip: nat, op: nat, ghost t: Track, ghost g: Log)
      returns (ip': nat, step: Step, ghost t': Track, ghost g': Log)
      requires Inv(k, ip, op, t) && (dStage == GetFrameHeader || dStage == StoreFrameHeader)
      requires emitted == [] && made == [] && !t.Done? && Logged(g)
      requires dStage == GetFrameHeader ==> g.read == []
      modifies this`linked, this`blockSum, this`contentSum, this`maxBlockSize, this`contentSize, this`frameRemainingSize
      modifies this`tmpInSize, this`tmpInTarget, this`dStage, header
      ensures step.Fail? ==> !t.On?
      ensures !step.Fail? ==> Logged(g') && Heard(g, g', k, ip, ip')
      ensures !step.Fail? ==> ip <= ip' && Inv(k, ip', op, t') && Next(t, t', ip' - ip) && !t'.Done?
      ensures step.Again? ==> ip < ip' && dStage != GetFrameHeader
      ensures step.Stop? ==> step.hint > 0 && ip' == |k.src|
      ensures step.Stop? ==> Rests() && (step.hint > 0 ==> step.hint == Wanted())
      ensures step.Stop? && dStage == GetFrameHeader ==>
        step.hint == 0 || (old(dStage) == GetFrameHeader && ip == |k.src|)
    {
      hide ToldHead, Logged, Follows, Hist, Sizes, Place, Written, HistFresh, HistFlushing, Waiting, ParseHeader,
        Encode, Body, ReadLE32, IsSkippable,
        ValidFrame, Shape, DictShape, LE32, HeaderLength, Agree;
      if dStage == GetFrameHeader {
        if |k.src| - ip >= MAX_HEADER {
          LongEnough(k.src[ip..]);
          ip', step, t', g' := HeaderFromSource(k, ip, op, t, g);
          return;
        }
        ClearHeld(k, ip, op, t);
        if |k.src| == ip {
          assert t.On? ==> t.rest == t.rest[0..];
          NothingMore(g);
          return ip, Stop(MIN_HEADER), t, g;
        }
        StartStore(k, ip, op, t, g);
      }
      HeadLogged(g);
      ip', step, t', g' := StoreHeader(k, ip, op, t, g);
    }

    // ----- dstage_init -----

    /** The internal buffers, allocated anew when they are too small. */
    method Allocate(k: Call, op: nat)
      requires Shape() && IsBlockSize(maxBlockSize) && DictShape() && HistFresh() && Place(k, op, Fresh)
      modifies this`maxBufferSize, this`tmpIn, this`tmpOutBuffer
      ensures Shape() && Ready() && DictShape() && HistFresh() && Place(k, op, Between)
      ensures tmpIn == old(tmpIn) || fresh(tmpIn)
      ensures tmpOutBuffer == old(tmpOutBuffer) || fresh(tmpOutBuffer)
    {
      hide D;
      var bufferNeeded := maxBlockSize + (if linked then KB128 else 0);
      if bufferNeeded > maxBufferSize {
        tmpIn := new byte[maxBlockSize + BLOCK_FOOTER];
        tmpOutBuffer := new byte[bufferNeeded];
        maxBufferSize := bufferNeeded;
      }
    }

    method StepInit(k: Call, ip: nat, op: nat, ghost t: Track, ghost g: Log) returns (ghost g': Log)
      requires Inv(k, ip, op, t) && dStage == Init && !t.Done? && Logged(g)
      modifies this`xxh, this`maxBufferSize, this`tmpIn, this`tmpOutBuffer, this`tmpInSize, this`tmpInTarget
      modifies this`tmpOut, this`tmpOutStart, this`tmpOutSize, this`dStage
      ensures Inv(k, ip, op, t) && dStage == GetBlockHeader && Logged(g') && g'.read == g.read
      ensures (tmpIn == old(tmpIn) || fresh(tmpIn)) && (tmpOutBuffer == old(tmpOutBuffer) || fresh(tmpOutBuffer))
    {
      hide Logged, ToldInit, ToldBlock, D, Written, ValidFrame, Agree, Shape, Ready, Covers, AtInit, AtBlock, Place,
        DictShape, HistFresh, Follows,
        Sizes, Hist;
      InitStage(t);
      InitLogged(g);
      Allocate(k, op);
      StartBlocks();
      FreshCovers();
      if t.On? { InitToBlock(t.f, t.n, t.rest); }
      BlockStage(t);
      g' := StartHeard(g);
      BlockLogged(g');
    }

    lemma InitLogged(g: Log)
      requires dStage == Init && Logged(g)
      ensures ToldInit(g)
    {
      hide ToldInit;
    }

    /** The header is complete, no block is. */
    lemma StartHeard(g: Log) returns (g': Log)
      requires ToldInit(g) && made == [] && (contentSum ==> xxh == [])
      ensures ToldBlock(g', []) && g'.read == g.read
    {
      hide Header, BlockSize, FrontOk;
      g' := Log(g.info, [], g.read, [], g.read);
      FrontStart(g.info, [], g.read, hist, !skipChecksum);
      assert g.read == g'.front + [];
    }

    lemma InitStage(t: Track)
      requires dStage == Init && Hist(Fresh) && Follows(t) && Sizes()
      ensures HistFresh() && IsBlockSize(maxBlockSize)
      ensures t.On? ==> ValidFrame(t.f) && AtInit(t.f, t.n, t.rest)
    {
      hide HistFresh, ValidFrame, AtInit;
    }

    lemma BlockStage(t: Track)
      requires dStage == GetBlockHeader || dStage == FlushOut
      ensures Follows(t) <==> t.Off? || (t.On? && ValidFrame(t.f) && AtBlock(t.f, t.n, t.rest))
      ensures Sizes() <==> Ready()
    {
      hide ValidFrame, AtBlock, Ready;
    }

    method StartBlocks()
      modifies this`xxh, this`tmpInSize, this`tmpInTarget, this`tmpOut, this`tmpOutStart, this`tmpOutSize, this`dStage
      ensures dStage == GetBlockHeader && (contentSum ==> xxh == [])
      ensures tmpInSize == 0 && tmpInTarget == 0 && tmpOut == 0 && tmpOutStart == 0 && tmpOutSize == 0
    {
      if contentSum { xxh := []; }
      tmpInSize, tmpInTarget := 0, 0;
      tmpOut, tmpOutStart, tmpOutSize := 0, 0, 0;
      dStage := GetBlockHeader;
    }

    lemma FreshCovers()
      requires HistFresh() && made == emitted == [] && tmpOut == 0
      ensures Hist(Between)
    {
      hide D;
      assert hist + emitted == hist;
      CoversSelf(hist);
    }

    lemma InitToBlock(f: Frame, n: nat, rest: bytes)
      requires AtInit(f, n, rest) && made == [] && (contentSum ==> xxh == [])
      ensures AtBlock(f, n, rest)
    {
      hide Body, InfoIs;
      InfoFrame(f);
    }

    lemma InfoFrame(f: Frame)
      requires InfoIs(f)
      ensures f.Frame? && ValidFrame(f) && hist == f.dict
      ensures linked == f.info.linked && blockSum == f.info.blockChecksum && contentSum == f.info.contentChecksum
      ensures maxBlockSize == BlockSize(f.info.sizeId)
    {
      hide ValidFrame, BlockSize;
    }

    // ----- Block headers -----

    /** Four bytes, straight from the input, or gathered in `tmpIn` over several calls. */
    method Take(k: Call, ip: nat, direct: bool, storing: Stage) returns (ip': nat, selected: Option<bytes>)
      requires BLOCK_HEADER <= tmpIn.Length && ip <= |k.src|
      requires !direct ==> tmpInSize < BLOCK_HEADER && dStage == storing
      modifies this`tmpInSize, this`dStage, tmpIn
      ensures ip <= ip' <= |k.src|
      ensures var held := if direct then [] else old(tmpIn[..tmpInSize]);
        match selected
        case Some(s) => |s| == BLOCK_HEADER && s == held + k.src[ip..ip'] && ip < ip'
        case None =>
          && ip' == |k.src| && dStage == storing && tmpInSize < BLOCK_HEADER
          && tmpIn[..tmpInSize] == held + k.src[ip..ip']
    {
      if direct {
        if |k.src| - ip >= BLOCK_HEADER {
          return ip + BLOCK_HEADER, Some(k.src[ip..ip + BLOCK_HEADER]);
        }
        tmpInSize := 0;
        dStage := storing;
      }
      var c := Store(tmpIn, tmpInSize, BLOCK_HEADER, k, ip);
      ip' := ip + c;
      tmpInSize := tmpInSize + c;
      if tmpInSize < BLOCK_HEADER { return ip', None; }
      selected := Some(tmpIn[..BLOCK_HEADER]);
    }

    method Enter(s: Stage, target: nat, hashing: bool)
      modifies this`dStage, this`tmpInTarget, this`blockXxh
      ensures dStage == s && tmpInTarget == target
      ensures blockXxh == if hashing then [] else old(blockXxh)
    {
      if hashing { blockXxh := []; }
      tmpInTarget, dStage := target, s;
    }

    /** What DecodeBlockHeader knows of the frame: four bytes of `whole` are in hand. */
    ghost predicate HeaderInHand(f: Frame, n: nat, selected: bytes, rest: bytes)
      reads this`hist, this`linked, this`blockSum, this`contentSum, this`maxBlockSize, this`contentSize
      reads this`skipChecksum, this`xxh, this`made, this`frameRemainingSize
    {
      ValidFrame(f) && AtBlock(f, n, selected + rest) && |selected| == BLOCK_HEADER
    }

    /** More has been read behind the last complete block. */
    lemma BlockMore(g: Log, x: bytes, y: bytes)
      requires ToldBlock(g, x)
      ensures ToldBlock(MoreRead(g, y), x + y)
    {
      hide FrontOk, Made, FieldsTold, SumsTold;
      assert g.front + x + y == g.front + (x + y);
    }

    /** What the number read makes of the block that begins. */
    lemma HeadingHeard(selected: bytes, size: nat, g: Log) returns (g': Log)
      requires |selected| == BLOCK_HEADER && ToldBlock(g, selected) && size <= maxBlockSize
      requires dStage == GetSuffix || dStage == CopyDirect || dStage == GetCBlock
      requires dStage == GetSuffix ==> ReadLE32(selected, 0) == 0
      requires dStage == CopyDirect ==>
        ReadLE32(selected, 0) == UNCOMPRESSED_FLAG + size && tmpInTarget == size && (blockSum ==> blockXxh == [])
      requires dStage == GetCBlock ==> ReadLE32(selected, 0) == size && tmpInTarget == size + 4 * Bit(blockSum)
      ensures Logged(g') && g'.read == g.read
    {
      hide Made, LE32, ReadLE32, BlockSize, FrontOk, SumsTold;
      LE32Written(selected);
      g' := g.(data := []);
      assert made == Made(g.blocks) + [];
      var n := ReadLE32(selected, 0);
      assert LE32(n) + [] == LE32(n) && g.front + LE32(n) + [] == g.front + LE32(n);
    }

    /** The block header says what comes next. */
    method DecodeBlockHeader(selected: bytes, k: Call, ip: nat, op: nat, ghost t: Track, ghost g: Log)
      returns (step: Step, ghost g': Log)
      requires |selected| == BLOCK_HEADER && ip <= |k.src|
      requires Shape() && DictShape() && Ready() && Hist(Between) && Place(k, op, Between) && Written(k, op)
      requires t.Off? || (t.On? && HeaderInHand(t.f, t.n, selected, t.rest) && Agree(k.src[ip..], t.rest))
      requires ToldBlock(g, selected)
      modifies this`dStage, this`tmpInTarget, this`blockXxh
      ensures !step.Fail? ==> Logged(g') && g'.read == g.read
      ensures step.Fail? ==> !t.On?
      ensures !step.Fail? ==> Inv(k, ip, op, t)
      ensures step.Stop? ==> step.hint > 0 && (ip == |k.src| || op == k.end)
      ensures !step.Fail? ==> !PhaseOf(dStage).Fresh?
      ensures step.Stop? ==> Rests() && (step.hint > 0 ==> step.hint == Wanted())
    {
      hide Logged, ToldBlock, Shape, DictShape, Ready, D, Place, Written, Covers, HistFresh, HeaderInHand, Agree,
        Follows, AtBlock,
        AtCopy, AtPacked, AtSuffix, ValidFrame, ReadLE32, Sizes;
      var blockHeader := ReadLE32(selected, 0);
      var nextCBlockSize := blockHeader % UNCOMPRESSED_FLAG;
      var crcSize := BLOCK_FOOTER * Bit(blockSum);
      if t.On? { HeaderMeans(t.f, t.n, selected, t.rest); }
      step, g' := Again, g;
      if blockHeader == 0 {
        Enter(GetSuffix, tmpInTarget, false);
        NoHistory(k, op);
        if t.On? { NowSuffix(t.f, t.n, selected, t.rest); }
        SuffixStage(t);
        g' := HeadingHeard(selected, 0, g);
      } else if nextCBlockSize > maxBlockSize {
        step := Fail(MaxBlockSizeInvalid);
      } else if blockHeader >= UNCOMPRESSED_FLAG {
        Enter(CopyDirect, nextCBlockSize, blockSum);
        if t.On? { NowCopy(t.f, t.n, selected, t.rest); }
        CopyStage(t);
        g' := HeadingHeard(selected, nextCBlockSize, g);
      } else {
        Enter(GetCBlock, nextCBlockSize + crcSize, false);
        if t.On? { NowPacked(t.f, t.n, selected, t.rest); }
        PackedStage(t);
        g' := HeadingHeard(selected, nextCBlockSize, g);
        if op == k.end || ip == |k.src| {
          step := Stop(BLOCK_HEADER + nextCBlockSize + crcSize);
        }
      }
    }

    /** The number read is the header of the next block, or 0 after the last one. */
    lemma HeaderMeans(f: Frame, n: nat, selected: bytes, rest: bytes)
      requires HeaderInHand(f, n, selected, rest)
      ensures ValidFrame(f) && f.Frame? && n <= |f.blocks|
      ensures n == |f.blocks| ==> ReadLE32(selected, 0) == 0
      ensures n < |f.blocks| ==>
                var b := f.blocks[n];
                && |b.data| <= maxBlockSize && |b.data| < UNCOMPRESSED_FLAG
                && ReadLE32(selected, 0) == (if b.compressed then |b.data| else |b.data| + UNCOMPRESSED_FLAG)
                && ReadLE32(selected, 0) != 0
    {
      hide Body, LE32, ReadLE32, BlockOk, IsBlockOf, ValidFrame;
      HeaderSplit(f, n, selected, rest);
      assert selected[0..4] == selected;
      if n < |f.blocks| {
        var b := f.blocks[n];
        BlockDataFits(b, Before(f, n), BlockSize(f.info.sizeId));
        LE32Read(selected, 0, BlockHeader(b));
        if b.compressed { BlockNotEmpty(Before(f, n), b.content, b.data); }
      } else {
        LE32Read(selected, 0, 0);
      }
    }

    lemma HeaderSplit(f: Frame, n: nat, selected: bytes, rest: bytes)
      requires HeaderInHand(f, n, selected, rest)
      ensures ValidFrame(f) && f.Frame? && n <= |f.blocks| && Reading(f, n) && made == Out(f.blocks, n)
      ensures maxBlockSize == BlockSize(f.info.sizeId)
      ensures n < |f.blocks| ==>
                var b := f.blocks[n];
                && BlockOk(b, Before(f, n), BlockSize(f.info.sizeId)) && |b.data| < UNCOMPRESSED_FLAG
                && selected == LE32(BlockHeader(b)) && rest == b.data + Tail(f, n)
      ensures n == |f.blocks| ==> selected == LE32(0) && rest == Footer(contentSum, FrameContent(f))
    {
      hide Body, LE32, BlockOk, ValidFrame, BlockHeader, Footer;
      BodyStart(f, n);
      var whole := Body(f, n);
      assert selected == whole[..4] && rest == whole[4..];
      if n < |f.blocks| {
        var b := f.blocks[n];
        assert b.data + Footer(f.info.blockChecksum, b.data) + Body(f, n + 1)
            == b.data + (Footer(f.info.blockChecksum, b.data) + Body(f, n + 1));
      }
    }

    lemma NowSuffix(f: Frame, n: nat, selected: bytes, rest: bytes)
      requires HeaderInHand(f, n, selected, rest) && n == |f.blocks|
      ensures AtSuffix(f, n, rest)
    {
      hide HeaderInHand, Footer;
      HeaderSplit(f, n, selected, rest);
    }

    lemma NowCopy(f: Frame, n: nat, selected: bytes, rest: bytes)
      requires HeaderInHand(f, n, selected, rest) && n < |f.blocks| && !f.blocks[n].compressed
      requires tmpInTarget == |f.blocks[n].data| && (blockSum ==> blockXxh == [])
      ensures AtCopy(f, n, tmpInTarget, rest)
    {
      hide HeaderInHand, Reading, BlockOk, LE32, Tail, ValidFrame;
      HeaderSplit(f, n, selected, rest);
      var data := f.blocks[n].data;
      assert data[0..] == data && Out(f.blocks, n) + data[..0] == Out(f.blocks, n);
    }

    lemma NowPacked(f: Frame, n: nat, selected: bytes, rest: bytes)
      requires HeaderInHand(f, n, selected, rest) && n < |f.blocks| && f.blocks[n].compressed
      requires tmpInTarget == |f.blocks[n].data| + 4 * Bit(blockSum)
      ensures AtPacked(f, n, rest)
    {
      hide HeaderInHand, Reading, BlockOk, LE32, Tail, ValidFrame;
      HeaderSplit(f, n, selected, rest);
    }

    lemma CopyStage(t: Track)
      requires dStage == CopyDirect
      ensures Follows(t) <==> t.Off? || (t.On? && ValidFrame(t.f) && AtCopy(t.f, t.n, tmpInTarget, t.rest))
      ensures Sizes() <==> Ready() && tmpInTarget <= maxBlockSize
    {
      hide ValidFrame, AtCopy, Ready;
    }

    lemma PackedStage(t: Track)
      requires dStage == GetCBlock
      ensures Follows(t) <==> t.Off? || (t.On? && ValidFrame(t.f) && AtPacked(t.f, t.n, t.rest))
      ensures Sizes() <==> Ready() && 4 * Bit(blockSum) < tmpInTarget <= maxBlockSize + 4 * Bit(blockSum)
    {
      hide ValidFrame, AtPacked, Ready;
    }

    lemma SuffixStage(t: Track)
      requires dStage == GetSuffix
      ensures Follows(t) <==> t.Off? || (t.On? && ValidFrame(t.f) && AtSuffix(t.f, t.n, t.rest))
      ensures Sizes() <==> Ready()
    {
      hide ValidFrame, AtSuffix, Ready;
    }

    lemma StoreBlockStage(t: Track)
      requires dStage == StoreBlockHeader
      ensures Follows(t) <==>
              t.Off? || (t.On? && ValidFrame(t.f) && tmpInSize <= tmpIn.Length
                         && AtBlock(t.f, t.n, tmpIn[..tmpInSize] + t.rest))
      ensures Sizes() <==> Ready() && tmpInSize < BLOCK_HEADER
    {
      hide ValidFrame, AtBlock, Ready;
    }

    /** dstage_getBlockHeader, dstage_storeBlockHeader */
    method StepBlockHeader(k: Call, ip: nat, op: nat, ghost t: Track, ghost g: Log)
      returns (ip': nat, step: Step, ghost t': Track, ghost g': Log)
      requires Inv(k, ip, op, t) && (dStage == GetBlockHeader || dStage == StoreBlockHeader) && Logged(g)
      modifies this`dStage, this`tmpInTarget, this`tmpInSize, this`blockXxh, tmpIn
      ensures step.Fail? ==> !t.On?
      ensures !step.Fail? ==> Logged(g') && Heard(g, g', k, ip, ip')
      ensures !step.Fail? ==> ip <= ip' && Inv(k, ip', op, t') && Next(t, t', ip' - ip) && !t'.Done?
      ensures step.Again? ==> ip < ip'
      ensures step.Stop? ==> step.hint > 0 && (ip' == |k.src| || op == k.end)
      ensures !step.Fail? ==> !PhaseOf(dStage).Fresh?
      ensures step.Stop? ==> Rests() && (step.hint > 0 ==> step.hint == Wanted())
    {
      hide Logged, ToldBlock, Shape, DictShape, Ready, D, Place, Written, Covers, HistFresh, HeaderInHand, Agree,
        Follows, AtBlock,
        ValidFrame, Sizes, ReadLE32;
      var direct := dStage == GetBlockHeader;
      if direct {
        BlockStage(t);
        BlockLogged(g);
      } else {
        StoreBlockStage(t);
        StoreBlockLogged(g);
      }
      Apart(k, op, Between);
      Fits();
      ghost var held := if direct then [] else tmpIn[..tmpInSize];
      assert t.On? ==> [] + t.rest == t.rest;
      var selected;
      ip', selected := Take(k, ip, direct, StoreBlockHeader);
      t', g' := t, MoreRead(g, k.src[ip..ip']);
      BlockMore(g, held, k.src[ip..ip']);
      if t.On? {
        t' := GatherBlockHeader(k, ip, ip', held, t, selected);
      }
      if selected.None? {
        StoreBlockStage(t');
        StoreBlockLogged(g');
        return ip', Stop(BLOCK_HEADER - tmpInSize), t', g';
      }
      step, g' := DecodeBlockHeader(selected.value, k, ip', op, t', g');
    }

    lemma Fits()
      requires Ready()
      ensures BLOCK_HEADER <= tmpIn.Length
    {
    }

    /** What was gathered of the header and what remains are the header and what follows it. */
    lemma GatherBlockHeader(k: Call, ip: nat, ip': nat, held: bytes, t: Track, selected: Option<bytes>)
        returns (t': Track)
      requires t.On? && ValidFrame(t.f) && AtBlock(t.f, t.n, held + t.rest)
      requires ip <= ip' <= |k.src| && Agree(k.src[ip..], t.rest)
      requires selected.Some? ==> |selected.value| == BLOCK_HEADER && selected.value == held + k.src[ip..ip']
      requires |held + k.src[ip..ip']| <= BLOCK_HEADER
      ensures t'.On? && Next(t, t', ip' - ip) && t'.f == t.f && t'.n == t.n && Agree(k.src[ip'..], t'.rest)
      ensures selected.Some? ==> HeaderInHand(t.f, t.n, selected.value, t'.rest)
      ensures AtBlock(t.f, t.n, held + k.src[ip..ip'] + t'.rest)
    {
      hide Agree, ValidFrame, Body;
      assert AtBlock(t.f, t.n, held + t.rest);
      BodyStart(t.f, t.n);
      var c := ip' - ip;
      Stored(held, k.src, ip, t.rest, c, held + t.rest);
      t' := On(t.f, t.n, t.rest[c..]);
    }

    // ----- LZ4F_updateDict -----

    /** The dictionary after `x` has been handed over while a decoded block is flushed. */
    ghost predicate FlushedTo(x: bytes)
      reads this`tmpOutBuffer, this`tmpOut, this`tmpOutSize, this`tmpOutStart, this`emitted, this`made, this`hist
      reads this`dict, this`dictStart, this`dictSize, tmpOutBuffer, dict
    {
      if dict == tmpOutBuffer then
        && tmpOut + tmpOutSize <= tmpOutBuffer.Length
        && dictSize == tmpOut + tmpOutStart + |x| && Covers(tmpOutBuffer[..tmpOut + tmpOutSize], hist + made)
      else
        Covers(D(), hist + emitted + x)
    }

    /** Copies the end of the dictionary in front of the block that waits in `tmpOut`. */
    method CopyFront()
      requires Shape() && DictShape() && Waiting() && HistFlushing() && dict != null && dict != tmpOutBuffer
      modifies tmpOutBuffer
      ensures tmpOut + tmpOutSize <= tmpOutBuffer.Length
      ensures Covers(tmpOutBuffer[..tmpOut + tmpOutSize], hist + made)
      ensures tmpOutBuffer[tmpOut..] == old(tmpOutBuffer[tmpOut..])
    {
      hide Covers, Shape, D, Waiting, HistFlushing, FrontReady, DictShape;
      Distinct();
      ghost var b := Block();
      var preserveSize := tmpOut;
      var copySize := if tmpOutSize > KB64 then 0 else KB64 - tmpOutSize;
      if copySize > preserveSize { copySize := preserveSize; }
      var oldDictEnd: int := dictStart + dictSize - tmpOutStart;
      ghost var part := FrontPart(b, copySize, oldDictEnd - copySize);
      ghost var was := tmpOutBuffer[..];
      CopyBefore(preserveSize, oldDictEnd - copySize, copySize, part);
      ghost var now := tmpOutBuffer[..];
      assert now[preserveSize..] == was[preserveSize..] && now[preserveSize - copySize..preserveSize] == part;
      FrontNow(was, now, preserveSize, part, b, hist + made);
      assert tmpOutBuffer[..tmpOut + tmpOutSize] == now[..tmpOut + tmpOutSize];
    }

    lemma FrontPart(b: bytes, c: nat, from: int) returns (part: bytes)
      requires DictShape() && Waiting() && HistFlushing() && dict != null && dict != tmpOutBuffer
      requires b == Block() && c == Min(Max(0, KB64 - tmpOutSize), tmpOut)
      requires from == dictStart + dictSize - tmpOutStart - c
      ensures |part| == c && tmpOut + |b| <= tmpOutBuffer.Length && b == tmpOutBuffer[..][tmpOut..tmpOut + |b|]
      ensures |b| == tmpOutSize
      ensures c > 0 ==> 0 <= from && from + c <= dict.Length && dict[from..from + c] == part
      ensures FrontReady(part, b, tmpOut, hist + made)
    {
      hide Covers, D, Waiting, HistFlushing;
      var h, d := hist + emitted, D();
      FrontPlan(b, d, h, c);
      part := if c > 0 then dict[from..from + c] else [];
      if c > 0 { SubSlice(dict[..], dictStart, dictStart + dictSize, |d| - tmpOutStart - c, |d| - tmpOutStart); }
      FrontIsReady(d, h, tmpOutStart, tmpOut, b, part, hist + made);
    }

    /** memcpy right before position `at` of the internal buffer; no byte is read when `n` is 0. */
    method CopyBefore(at: nat, from: int, n: nat, ghost part: bytes)
      requires n <= at <= tmpOutBuffer.Length && |part| == n
      requires n > 0 ==>
        && dict != null && dict != tmpOutBuffer && 0 <= from && from + n <= dict.Length && dict[from..from + n] == part
      modifies tmpOutBuffer
      ensures tmpOutBuffer[at - n..at] == part
      ensures tmpOutBuffer[at..] == old(tmpOutBuffer[at..])
    {
      if n > 0 {
        CopyFromDict(at - n, from, n, part);
      }
    }

    method PreserveFront(size: nat)
      requires Shape() && DictShape() && Waiting() && HistFlushing() && dict != null && dict != tmpOutBuffer
      requires tmpOutStart + size <= tmpOutSize
      modifies this`dict, this`dictStart, this`dictSize, tmpOutBuffer
      ensures dict == tmpOutBuffer && dictStart == 0 && dictSize == tmpOut + tmpOutStart + size
      ensures tmpOut + tmpOutSize <= tmpOutBuffer.Length
      ensures Covers(tmpOutBuffer[..tmpOut + tmpOutSize], hist + made)
      ensures tmpOutBuffer[tmpOut..] == old(tmpOutBuffer[tmpOut..])
      ensures DictShape()
    {
      hide Covers, Shape, Waiting, HistFlushing;
      Distinct();
      CopyFront();
      PointAt(tmpOutBuffer, 0, tmpOut + tmpOutStart + size);
    }

    method PointAt(a: array<byte>, start: nat, size: nat)
      modifies this`dict, this`dictStart, this`dictSize
      ensures dict == a && dictStart == start && dictSize == size
    {
      dict, dictStart, dictSize := a, start, size;
    }

    lemma FrontPlan(b: bytes, d: bytes, h: bytes, c: nat)
      requires DictShape() && Waiting() && HistFlushing() && dict != null && dict != tmpOutBuffer
      requires b == Block() && d == D() && h == hist + emitted && c == Min(Max(0, KB64 - tmpOutSize), tmpOut)
      ensures tmpOut + tmpOutSize <= tmpOutBuffer.Length && b == tmpOutBuffer[tmpOut..tmpOut + tmpOutSize]
      ensures tmpOutStart <= |b| && tmpOutStart <= |h| && h[|h| - tmpOutStart..] == b[..tmpOutStart]
      ensures hist + made == h + b[tmpOutStart..]
      ensures Covers(d, h) && dictStart + dictSize <= dict.Length && d == dict[dictStart..dictStart + dictSize]
      ensures Min(KB64, |h| - tmpOutStart) <= tmpOut <= |h| - tmpOutStart
      ensures c > 0 ==> tmpOutStart + c <= dictSize
    {
      hide Covers, D, Waiting, HistFlushing;
      WaitingBlock(b);
      FrontDict(d, h, c);
    }

    lemma FrontDict(d: bytes, h: bytes, c: nat)
      requires DictShape() && HistFlushing() && dict != null && dict != tmpOutBuffer && tmpOutStart <= tmpOutSize
      requires d == D() && h == hist + emitted && c == Min(Max(0, KB64 - tmpOutSize), tmpOut)
      ensures Covers(d, h) && dictStart + dictSize <= dict.Length && d == dict[dictStart..dictStart + dictSize]
      ensures tmpOutStart <= |h| && Min(KB64, |h| - tmpOutStart) <= tmpOut <= |h| - tmpOutStart
      ensures c > 0 ==> tmpOutStart + c <= dictSize
    {
      hide Covers, D, HistFlushing;
      FlushingDict(d, h);
      CoversLength(d, h);
      FrontFits(|h|, tmpOutStart, tmpOutSize, tmpOut, c);
    }

    lemma BlockKept(was: bytes, now: bytes, at: nat, n: nat)
      requires at + n <= |was| == |now| && now[at..] == was[at..]
      ensures now[at..at + n] == was[at..at + n]
    {
      assert now[at..][..n] == now[at..at + n] && was[at..][..n] == was[at..at + n];
    }

    /** memcpy from the dictionary into the internal buffer. */
    method CopyFromDict(at: nat, from: nat, n: nat, ghost part: bytes)
      requires dict != null && dict != tmpOutBuffer && from + n <= dict.Length && at + n <= tmpOutBuffer.Length
      requires dict[from..from + n] == part
      modifies tmpOutBuffer
      ensures tmpOutBuffer[at..at + n] == part
      ensures tmpOutBuffer[at + n..] == old(tmpOutBuffer[at + n..])
    {
      MemcpyFrom(tmpOutBuffer, at, dict[..], from, n);
    }

    /** The dictionary is the start of the internal buffer. */
    method PointAtTmp(n: nat, ghost part: bytes)
      requires n <= tmpOutBuffer.Length && tmpOutBuffer[..n] == part
      modifies this`dict, this`dictStart, this`dictSize
      ensures dict == tmpOutBuffer && dictStart == 0 && dictSize == n && D() == part
    {
      dict, dictStart, dictSize := tmpOutBuffer, 0, n;
    }

    lemma Distinct()
      requires Shape()
      ensures tmpOutBuffer != tmpIn && tmpOutBuffer != header && tmpOutBuffer.Length == maxBufferSize
    {
    }

    /** The block in the internal buffer, whole. */
    ghost function Block(): bytes
      requires Waiting()
      reads this`tmpOutBuffer, this`tmpOut, this`tmpOutSize, this`tmpOutStart, this`emitted, this`made, tmpOutBuffer
      ensures tmpOut + tmpOutSize <= tmpOutBuffer.Length && Block() == tmpOutBuffer[tmpOut..tmpOut + tmpOutSize]
    {
      tmpOutBuffer[tmpOut..tmpOut + tmpOutSize]
    }

    lemma FlushingDict(d: bytes, h: bytes)
      requires DictShape() && HistFlushing() && dict != null && dict != tmpOutBuffer && d == D() && h == hist + emitted
      ensures Covers(d, h) && d == dict[dictStart..dictStart + dictSize]
      ensures tmpOutStart <= |h| && Min(KB64, |h| - tmpOutStart) <= tmpOut <= |h| - tmpOutStart
    {
      hide Covers;
    }

    lemma WaitingBlock(b: bytes)
      requires Waiting() && tmpOut + tmpOutSize <= tmpOutBuffer.Length && b == tmpOutBuffer[tmpOut..tmpOut + tmpOutSize]
      ensures tmpOutStart <= tmpOutSize && tmpOut + tmpOutSize <= tmpOutBuffer.Length && tmpOutStart <= |emitted|
      ensures var h := hist + emitted;
        && tmpOutStart <= |b| && tmpOutStart <= |h| && h[|h| - tmpOutStart..] == b[..tmpOutStart]
        && hist + made == h + b[tmpOutStart..]
    {
      var h, rest := hist + emitted, b[tmpOutStart..];
      assert rest == tmpOutBuffer[tmpOut + tmpOutStart..tmpOut + tmpOutSize];
      assert hist + (emitted + rest) == h + rest;
      assert b[..tmpOutStart] == tmpOutBuffer[tmpOut..tmpOut + tmpOutStart];
    }

    /** memcpy of `x` behind the `n` bytes at the start of a buffer. */
    static method PutBehind(buf: array<byte>, n: nat, x: bytes, ghost front: bytes)
      requires n + |x| <= buf.Length && buf[..n] == front
      modifies buf
      ensures buf[..n + |x|] == front + x
      ensures buf[n + |x|..] == old(buf[n + |x|..])
    {
      MemcpyFrom(buf, n, x, 0, |x|);
    }

    /** memcpy of the `n` bytes before `end` to the start of the internal buffer. */
    method MoveToFront(end: nat, n: nat, ghost part: bytes)
      requires 2 * n <= end <= tmpOutBuffer.Length && tmpOutBuffer[end - n..end] == part
      modifies tmpOutBuffer
      ensures tmpOutBuffer[..n] == part
    {
      ghost var was := tmpOutBuffer[end - n..end];
      Memcpy(tmpOutBuffer, 0, end - n, n);
      forall i | 0 <= i < n ensures tmpOutBuffer[..n][i] == was[i] {
      }
    }

    lemma TmpDict(d: bytes, n: nat) returns (part: bytes)
      requires DictShape() && dict == tmpOutBuffer && n <= dictSize && d == D()
      ensures |d| == dictSize <= tmpOutBuffer.Length
      ensures part == d[|d| - n..] && tmpOutBuffer[dictSize - n..dictSize] == part
    {
      part := tmpOutBuffer[dictSize - n..dictSize];
      assert d == tmpOutBuffer[..dictSize];
      assert tmpOutBuffer[..dictSize][dictSize - n..] == part;
    }

    lemma TmpDictAll(d: bytes)
      requires DictShape() && dict == tmpOutBuffer && d == D()
      ensures |d| == dictSize <= tmpOutBuffer.Length && tmpOutBuffer[..dictSize] == d
    {
    }

    /** The end of the dictionary that is worth keeping in front of `x`, moved to the start of the buffer. */
    method Compact(x: bytes) returns (n: nat, ghost front: bytes)
      requires DictShape() && dict == tmpOutBuffer && |x| < KB64 && KB64 + KB128 <= tmpOutBuffer.Length
      requires Covers(D(), hist + emitted)
      modifies tmpOutBuffer
      ensures n + |x| <= tmpOutBuffer.Length && tmpOutBuffer[..n] == front && Covers(front + x, hist + emitted + x)
    {
      hide Covers, D;
      ghost var h, d := hist + emitted, D();
      n := dictSize;
      front := d;
      TmpDictAll(d);
      if dictSize + |x| > tmpOutBuffer.Length {
        n := KB64 - |x|;
        front := TmpDict(d, n);
        CoversKept(d, h, x, n);
        MoveToFront(dictSize, n, front);
      } else {
        CoversAppend(d, h, x);
      }
    }

    /** The dictionary is in the internal buffer: `x`, just written to the caller's, goes behind it. */
    method AppendToTmp(x: bytes)
      requires Shape() && DictShape() && dict == tmpOutBuffer && |x| < KB64 && KB64 + KB128 <= maxBufferSize
      requires Covers(D(), hist + emitted)
      modifies this`dict, this`dictStart, this`dictSize, tmpOutBuffer
      ensures DictShape() && dict == tmpOutBuffer && Covers(D(), hist + emitted + x)
    {
      hide Covers, D, Shape, DictShape;
      Distinct();
      var n;
      ghost var front;
      n, front := Compact(x);
      PutBehind(tmpOutBuffer, n, x, front);
      PointAtTmp(n + |x|, front + x);
      NowShaped();
    }

    /** The end of the dictionary worth keeping, at the start of the internal buffer. */
    method BringEnd(x: bytes) returns (n: nat, ghost front: bytes)
      requires DictShape() && dict != null && dict != tmpOutBuffer && |x| < KB64 && KB64 + KB128 <= tmpOutBuffer.Length
      requires Covers(D(), hist + emitted)
      modifies tmpOutBuffer
      ensures n + |x| <= tmpOutBuffer.Length && tmpOutBuffer[..n] == front && Covers(front + x, hist + emitted + x)
    {
      hide Covers, D, DictShape;
      ghost var h, d := hist + emitted, D();
      n := KB64 - |x|;
      if n > dictSize { n := dictSize; }
      front := EndOfDict(d, dictStart + dictSize - n, n);
      CopyFromDict(0, dictStart + dictSize - n, n, front);
      assert tmpOutBuffer[..n] == tmpOutBuffer[0..n];
      JoinFits(d, h, x, n);
      CoversKept(d, h, x, n);
    }

    /** The dictionary is elsewhere: its end and `x` are joined in the internal buffer. */
    method JoinInTmp(x: bytes)
      requires Shape() && DictShape() && dict != null && dict != tmpOutBuffer && |x| < KB64
        && KB64 + KB128 <= maxBufferSize
      requires Covers(D(), hist + emitted)
      modifies this`dict, this`dictStart, this`dictSize, tmpOutBuffer
      ensures DictShape() && dict == tmpOutBuffer && Covers(D(), hist + emitted + x)
    {
      hide Covers, D, Shape, DictShape;
      Distinct();
      var preserveSize;
      ghost var front;
      preserveSize, front := BringEnd(x);
      PutBehind(tmpOutBuffer, preserveSize, x, front);
      PointAtTmp(preserveSize + |x|, front + x);
      NowShaped();
    }

    lemma JoinFits(d: bytes, h: bytes, x: bytes, p: nat)
      requires Covers(d, h) && p == Min(KB64 - |x|, |d|) && |x| < KB64
      ensures Min(KB64, |h + x|) <= p + |x|
    {
      hide Covers;
      CoversLength(d, h);
    }

    lemma CoversLength(d: bytes, h: bytes)
      requires Covers(d, h)
      ensures Min(KB64, |h|) <= |d| <= |h|
    {
    }

    /** The dictionary ends where the output goes on: it just grows. */
    method ExtendPrefix(k: Call, op: nat, size: nat)
      requires DictShape() && Place(k, op, Between) && k.dst != null && op + size <= k.end
      requires dict == k.dst && dictStart + dictSize == op && Covers(D(), hist + emitted)
      modifies this`dictSize
      ensures DictShape() && Place(k, op + size, Between) && Covers(D(), hist + emitted + k.dst[op..op + size])
    {
      hide Covers;
      ghost var d, x := D(), k.dst[op..op + size];
      CoversAppend(d, hist + emitted, x);
      dictSize := dictSize + size;
      assert D() == d + x;
    }

    /** What this call has written is enough history. */
    method SwitchToDst(k: Call, op: nat, size: nat)
      requires DictShape() && Place(k, op, Between) && Written(k, op) && k.dst != null && op + size <= k.end
      requires op - k.start + size >= KB64
      modifies this`dict, this`dictStart, this`dictSize
      ensures DictShape() && Place(k, op + size, Between) && dict == k.dst
      ensures Covers(D(), hist + emitted + k.dst[op..op + size])
    {
      hide Covers;
      ghost var w, x := k.dst[k.start..op], k.dst[op..op + size];
      PointAt(k.dst, k.start, op - k.start + size);
      assert k.dst[k.start..op + size] == w + x;
      DstCovers(w + x, w, x, hist, emitted);
      assert D() == w + x;
    }

    lemma DstCovers(d: bytes, w: bytes, x: bytes, h: bytes, e: bytes)
      requires d == w + x && |w| <= |e| && e[|e| - |w|..] == w && KB64 <= |d|
      ensures Covers(d, h + e + x)
    {
      hide Covers;
      var all := h + e + x;
      assert e == e[..|e| - |w|] + w;
      assert all == h + e[..|e| - |w|] + d;
      CoversEnd(d, all);
    }

    /** What the dictionary is worth on entry. */
    lemma DictCovers(withinTmp: bool)
      requires DictShape()
      requires withinTmp ==> Waiting() && HistFlushing()
      requires !withinTmp ==> Covers(D(), hist + emitted)
      ensures dictSize == 0 ==> hist + emitted == []
      ensures !withinTmp || dict != tmpOutBuffer ==> Covers(D(), hist + emitted)
      ensures withinTmp && dict == tmpOutBuffer ==>
        && tmpOut + tmpOutSize <= tmpOutBuffer.Length && dictSize == tmpOut + tmpOutStart
        && Covers(tmpOutBuffer[..tmpOut + tmpOutSize], hist + made)
    {
      hide Waiting, Covers;
      if dictSize == 0 {
        assert D() == [];
        if !withinTmp || dict != tmpOutBuffer { CoversLength(D(), hist + emitted); }
      }
    }

    /** LZ4F_updateDict: `size` bytes have been written at `op`; within a flush they come from `tmpOut`. */
    method UpdateDict(k: Call, op: nat, size: nat, withinTmp: bool)
      requires Shape() && DictShape() && Place(k, op, Between) && Written(k, op)
      requires k.dst != null && op + size <= k.end && KB64 + KB128 <= maxBufferSize
      requires withinTmp ==> Waiting() && HistFlushing() && tmpOutStart + size <= tmpOutSize
      requires !withinTmp ==> Covers(D(), hist + emitted)
      modifies this`dict, this`dictStart, this`dictSize, tmpOutBuffer
      ensures DictShape() && Place(k, op + size, Between) && dict != null
      ensures withinTmp ==>
        && FlushedTo(k.dst[op..op + size]) && tmpOut <= tmpOutBuffer.Length
        && tmpOutBuffer[tmpOut..] == old(tmpOutBuffer[tmpOut..])
      ensures !withinTmp ==> Covers(D(), hist + emitted + k.dst[op..op + size])
    {
      hide Covers, D, Waiting, HistFlushing, Shape, Written;
      Distinct();
      DictCovers(withinTmp);
      if withinTmp { FlushFits(); }
      if dictSize == 0 {
        PointAt(k.dst, op, 0);
        NoDictYet();
      }
      if dict == k.dst && dictStart + dictSize == op {
        ExtendPrefix(k, op, size);
      } else if op - k.start + size >= KB64 {
        SwitchToDst(k, op, size);
      } else if withinTmp && dict == tmpOutBuffer {
        dictSize := dictSize + size;
      } else if withinTmp {
        PreserveFront(size);
      } else if dict == tmpOutBuffer {
        AppendToTmp(k.dst[op..op + size]);
      } else {
        JoinInTmp(k.dst[op..op + size]);
      }
    }

    lemma FlushFits()
      requires Waiting() && HistFlushing()
      ensures tmpOutStart <= tmpOutSize && tmpOut + tmpOutSize <= tmpOutBuffer.Length
    {
      hide Covers;
    }

    lemma NoDictYet()
      requires dictSize == 0 && hist + emitted == []
      ensures Covers(D(), hist + emitted)
    {
    }

    // ----- Output -----

    lemma DictKept(k: Call, op: nat, was: bytes, d: bytes)
      requires k.dst != null && Outside(was, k.dst[..], op, k.end) && DictShape() && Place(k, op, Between)
      requires if dict == k.dst then d == was[dictStart..dictStart + dictSize] else d == D()
      ensures D() == d
    {
    }

    lemma WrittenKept(k: Call, op: nat, was: bytes)
      requires k.dst != null && Outside(was, k.dst[..], op, k.end) && k.start <= op <= k.end <= k.dst.Length
      requires op - k.start <= |emitted| && was[k.start..op] == emitted[|emitted| - (op - k.start)..]
      ensures Written(k, op)
    {
      assert was[k.start..op] == k.dst[k.start..op];
    }

    lemma PlaceFits(k: Call, op: nat)
      requires Place(k, op, Between)
      ensures k.start <= op <= k.end && (k.dst != null ==> k.end <= k.dst.Length) && (k.dst == null ==> op == k.end)
      ensures Place(k, op, Flushing)
    {
    }

    /** memcpy from the input to the output. */
    method CopyToDst(k: Call, ip: nat, op: nat, c: nat)
      requires DictShape() && Shape() && Hist(Between) && Place(k, op, Between) && Written(k, op)
      requires k.dst != null && op + c <= k.end && ip + c <= |k.src|
      modifies k.dst
      ensures Hist(Between) && Written(k, op)
      ensures Outside(old(k.dst[..]), k.dst[..], op, k.end)
      ensures k.dst[op..op + c] == k.src[ip..ip + c]
    {
      hide D, Covers, Place, DictShape, Shape;
      PlaceFits(k, op);
      Apart(k, op, Between);
      ghost var was, d := k.dst[..], D();
      DictNow(d);
      CopyOver(k.dst, op, k.src[ip..ip + c]);
      OutsideWider(was, k.dst[..], op, op + c, k.end);
      DictKept(k, op, was, d);
      WrittenKept(k, op, was);
    }

    lemma DictNow(d: bytes)
      requires DictShape() && d == D()
      ensures dict != null ==> dictStart + dictSize <= dict.Length && d == dict[..][dictStart..dictStart + dictSize]
    {
    }

    /** The hashes and the size still expected, after content `x`. */
    method Account(x: bytes, stored: bool)
      modifies this`xxh, this`blockXxh, this`frameRemainingSize
      ensures contentSum && !skipChecksum ==> xxh == old(xxh) + x
      ensures stored && blockSum && !skipChecksum ==> blockXxh == old(blockXxh) + x
      ensures frameRemainingSize ==
              if contentSize != 0 then (old(frameRemainingSize) - |x|) % TWO64 else old(frameRemainingSize)
    {
      if !skipChecksum {
        if stored && blockSum { blockXxh := blockXxh + x; }
        if contentSum { xxh := xxh + x; }
      }
      if contentSize != 0 { frameRemainingSize := (frameRemainingSize - |x|) % TWO64; }
    }

    ghost method Emit(x: bytes)
      modifies this`emitted, this`made
      ensures emitted == old(emitted) + x && made == old(made) + x
    {
      emitted, made := emitted + x, made + x;
    }

    /** The `size` bytes written at `op` become part of the output and of the history. */
    method EmitDirect(k: Call, op: nat, size: nat)
      requires Shape() && DictShape() && Ready() && Hist(Between) && Place(k, op, Between) && Written(k, op)
      requires k.dst != null && op + size <= k.end
      modifies this`dict, this`dictStart, this`dictSize, this`emitted, this`made, tmpOutBuffer
      ensures DictShape() && Hist(Between) && Place(k, op + size, Between) && Written(k, op + size)
      ensures emitted == old(emitted) + k.dst[op..op + size] && made == old(made) + k.dst[op..op + size]
      ensures !linked ==> dict == old(dict)
    {
      hide D, Covers, Place, DictShape, Shape;
      Apart(k, op, Between);
      PlaceFits(k, op);
      ghost var x := k.dst[op..op + size];
      if linked {
        UpdateDict(k, op, size, false);
      } else {
        PlaceFurther(k, op, size);
      }
      assert hist + emitted + x == hist + (emitted + x);
      EndOfEmitted(k, op, size);
      Emit(x);
    }

    /** Content written at `op` is hashed, counted and handed over. */
    method Deliver(k: Call, op: nat, size: nat, stored: bool)
      requires Shape() && DictShape() && Ready() && Hist(Between) && Place(k, op, Between) && Written(k, op)
      requires k.dst != null && op + size <= k.end <= k.dst.Length
      modifies this`xxh, this`blockXxh, this`frameRemainingSize
      modifies this`dict, this`dictStart, this`dictSize, this`emitted, this`made, tmpOutBuffer
      ensures DictShape() && Hist(Between) && Place(k, op + size, Between) && Written(k, op + size)
      ensures !linked ==> dict == old(dict)
      ensures var x := k.dst[op..op + size];
        && emitted == old(emitted) + x && made == old(made) + x
        && (contentSum && !skipChecksum ==> xxh == old(xxh) + x)
        && (stored && blockSum && !skipChecksum ==> blockXxh == old(blockXxh) + x)
        && frameRemainingSize ==
           if contentSize != 0 then (old(frameRemainingSize) - size) % TWO64 else old(frameRemainingSize)
    {
      hide D, Covers, Place, DictShape, Shape, Ready, HistFresh, Hist, Written;
      Apart(k, op, Between);
      Account(k.dst[op..op + size], stored);
      EmitDirect(k, op, size);
    }

    lemma PlaceFurther(k: Call, op: nat, size: nat)
      requires Place(k, op, Between) && op + size <= k.end
      ensures Place(k, op + size, Between)
    {
    }

    lemma EndOfEmitted(k: Call, op: nat, size: nat)
      requires Written(k, op) && k.dst != null && op + size <= k.dst.Length
      ensures var x := k.dst[op..op + size];
        && k.start <= op + size <= k.start + |emitted + x|
        && k.dst[k.start..op + size] == (emitted + x)[|emitted + x| - (op + size - k.start)..]
    {
      var x := k.dst[op..op + size];
      assert k.dst[k.start..op + size] == k.dst[k.start..op] + x;
    }

    // ----- dstage_copyDirect -----

    /** What has been added to the content emitted is what has been written. */
    ghost predicate Grown(before: bytes, k: Call, op: nat, op': nat)
      reads this`emitted, k.dst
    {
      if k.dst == null then op' == op && emitted == before
      else op <= op' <= k.dst.Length && emitted == before + k.dst[op..op']
    }

    lemma SizeBound(f: Frame)
      requires InfoIs(f)
      ensures contentSize != 0 ==> contentSize == |FrameContent(f)| && contentSize < TWO64
    {
      hide FrameContent, BlockSize, BlockOk;
    }

    lemma CopyKnown(f: Frame, n: nat, left: nat, rest: bytes)
      requires AtCopy(f, n, left, rest)
      ensures InfoIs(f) && ValidFrame(f) && f.Frame? && n < |f.blocks| && left <= |rest|
      ensures SumsOk(contentSum && !skipChecksum, xxh, made, contentSize, frameRemainingSize)
      ensures CopyAt(f, n, left, rest, made, blockXxh, blockSum && !skipChecksum)
      ensures contentSize != 0 ==> contentSize == |FrameContent(f)| && contentSize < TWO64
    {
      hide SumsOk, InfoIs, ValidFrame;
      InfoFrame(f);
      SizeBound(f);
    }

    lemma CopyTracked(f: Frame, n: nat, left: nat, rest: bytes, x: bytes, made0: bytes, xxh0: bytes, block0: bytes,
        remaining0: nat)
      requires InfoIs(f) && ValidFrame(f) && f.Frame? && n < |f.blocks|
      requires SumsOk(contentSum && !skipChecksum, xxh0, made0, contentSize, remaining0)
      requires CopyAt(f, n, left, rest, made0, block0, blockSum && !skipChecksum)
      requires |x| <= left <= |rest| && x == rest[..|x|] && made == made0 + x
      requires contentSize != 0 ==> contentSize == |FrameContent(f)| && contentSize < TWO64
      requires contentSum && !skipChecksum ==> xxh == xxh0 + x
      requires blockSum && !skipChecksum ==> blockXxh == block0 + x
      requires frameRemainingSize == if contentSize != 0 then (remaining0 - |x|) % TWO64 else remaining0
      ensures AtCopy(f, n, left - |x|, rest[|x|..])
    {
      hide SumsOk, InfoIs, ValidFrame, FrameContent, Out, Tail;
      CopyAtMore(f, n, left, rest, made0, block0, blockSum && !skipChecksum, |x|);
      SumsMore(contentSum && !skipChecksum, xxh0, made0, contentSize, remaining0, x, xxh, frameRemainingSize);
    }

    lemma CopyFinished(f: Frame, n: nat, whole: bytes)
      requires AtCopy(f, n, 0, whole)
      ensures blockSum ==> AtFooter(f, n, whole)
      ensures !blockSum ==> AtBlock(f, n + 1, whole)
    {
      hide SumsOk, InfoIs, ValidFrame, Out, Body, LE32, Digest;
      InfoFrame(f);
      BlockContent(f, n);
      var data := f.blocks[n].data;
      assert data[..|data|] == data && data[|data|..] + Tail(f, n) == Tail(f, n);
      assert !blockSum ==> [] + Body(f, n + 1) == Body(f, n + 1);
    }

    lemma ChecksumStage(t: Track)
      requires dStage == GetBlockChecksum
      ensures Follows(t) <==>
              t.Off? || (t.On? && ValidFrame(t.f) && tmpInSize <= header.Length
                         && AtFooter(t.f, t.n, header[..tmpInSize] + t.rest))
      ensures Sizes() <==> Ready() && tmpInSize < BLOCK_FOOTER
    {
      hide ValidFrame, AtFooter, Ready;
    }

    lemma CopySums(g: Log, left: nat)
      requires ToldCopy(g, left, [])
      ensures FieldsTold(g.info) && FrontOk(g.info, g.blocks, g.front, hist, !skipChecksum)
      ensures |g.data| + left <= maxBlockSize <= 64 * KB64 && made == Made(g.blocks) + g.data
      ensures contentSum && !skipChecksum ==> xxh == made
      ensures blockSum && !skipChecksum ==> blockXxh == g.data
      ensures contentSize != 0 ==> frameRemainingSize == (contentSize - |made|) % TWO64
      ensures g.read == g.front + (LE32(UNCOMPRESSED_FLAG + |g.data| + left) + g.data)
    {
      hide FrontOk, Made, LE32;
    }

    /** More of a stored block has been read, written and counted. */
    lemma CopyHeard(g: Log, left: nat, x: bytes, made0: bytes, xxh0: bytes, block0: bytes, remaining0: nat)
      returns (g': Log)
      requires FieldsTold(g.info) && FrontOk(g.info, g.blocks, g.front, hist, !skipChecksum)
      requires |g.data| + left <= maxBlockSize <= 64 * KB64 && |x| <= left && made0 == Made(g.blocks) + g.data
      requires contentSum && !skipChecksum ==> xxh0 == made0 && xxh == xxh0 + x
      requires blockSum && !skipChecksum ==> block0 == g.data && blockXxh == block0 + x
      requires contentSize != 0 ==>
        remaining0 == (contentSize - |made0|) % TWO64 && frameRemainingSize == (remaining0 - |x|) % TWO64
      requires g.read == g.front + (LE32(UNCOMPRESSED_FLAG + |g.data| + left) + g.data) && made == made0 + x
      ensures ToldCopy(g', left - |x|, []) && g'.read == g.read + x
    {
      hide FrontOk, Made, LE32, FieldsTold;
      g' := g.(data := g.data + x, read := g.read + x);
      if contentSize != 0 { CountedDown(contentSize, |made0|, remaining0, |x|); }
      var n := LE32(UNCOMPRESSED_FLAG + |g.data| + left);
      assert g.front + (n + g.data) + x == g.front + (n + (g.data + x)) + [];
    }

    /** A stored block without a checksum is complete. */
    lemma CopyComplete(g: Log) returns (g': Log)
      requires ToldCopy(g, 0, []) && !blockSum
      ensures ToldBlock(g', []) && g'.read == g.read
    {
      hide FrontOk, Made, LE32, SumsTold, BlockSize;
      var part := LE32(UNCOMPRESSED_FLAG + |g.data|) + g.data;
      assert g.read == g.front + part + [];
      g' := StoredComplete(g, part, []);
    }

    /** A stored block and its checksum are complete. */
    lemma StoredComplete(g: Log, part: bytes, foot: bytes) returns (g': Log)
      requires Told(g) && made == Made(g.blocks) + g.data && |g.data| <= maxBlockSize
      requires part == LE32(UNCOMPRESSED_FLAG + |g.data|) + g.data && g.read == g.front + part + foot
      requires |foot| == BLOCK_FOOTER * Bit(blockSum) && (!skipChecksum ==> foot == Footer(blockSum, g.data))
      ensures ToldBlock(g', []) && g'.read == g.read
    {
      hide FrontOk, Made, LE32, SumsTold, Footer, Before;
      var b := FrameFormat.Block(false, g.data, g.data);
      FrontNext(g.info, g.blocks, g.front, hist, !skipChecksum, b, foot);
      g' := Log(g.info, g.blocks + [b], g.front + part + foot, [], g.read);
      assert g'.front + [] == g'.front;
    }

    /** Bytes of a stored block, copied, hashed and handed over. */
    method CopyAndDeliver(k: Call, ip: nat, op: nat, c: nat)
      requires Shape() && DictShape() && Ready() && Hist(Between) && Place(k, op, Between) && Written(k, op)
      requires k.dst != null && op + c <= k.end && ip + c <= |k.src|
      modifies this`xxh, this`blockXxh, this`frameRemainingSize
      modifies this`dict, this`dictStart, this`dictSize, this`emitted, this`made, tmpOutBuffer, k.dst
      ensures DictShape() && Hist(Between) && Place(k, op + c, Between) && Written(k, op + c)
      ensures !linked ==> dict == old(dict)
      ensures Outside(old(k.dst[..]), k.dst[..], op, k.end) && Grown(old(emitted), k, op, op + c)
      ensures var x := k.src[ip..ip + c];
        && made == old(made) + x
        && (contentSum && !skipChecksum ==> xxh == old(xxh) + x)
        && (blockSum && !skipChecksum ==> blockXxh == old(blockXxh) + x)
        && frameRemainingSize ==
           if contentSize != 0 then (old(frameRemainingSize) - |x|) % TWO64 else old(frameRemainingSize)
    {
      hide D, Covers, Own, DictShape, Shape, Ready, HistFresh, Outside, Written, Hist;
      PlaceFits(k, op);
      Apart(k, op, Between);
      CopyToDst(k, ip, op, c);
      Deliver(k, op, c, true);
    }

    /** The bytes of a stored block that fit. */
    method CopyStored(k: Call, ip: nat, op: nat, ghost t: Track, ghost g: Log) returns (c: nat, ghost g': Log)
      requires Inv(k, ip, op, t) && dStage == CopyDirect && k.dst != null && Logged(g)
      modifies this`xxh, this`blockXxh, this`frameRemainingSize
      modifies this`dict, this`dictStart, this`dictSize, this`emitted, this`made, tmpOutBuffer, k.dst
      ensures c == Min(tmpInTarget, Min(|k.src| - ip, k.end - op))
      ensures Shape() && DictShape() && Ready() && Hist(Between) && Place(k, op + c, Between) && Written(k, op + c)
      ensures Outside(old(k.dst[..]), k.dst[..], op, k.end) && Grown(old(emitted), k, op, op + c)
      ensures tmpInTarget <= maxBlockSize
      ensures t.Off? || (t.On? && ValidFrame(t.f) && c <= |t.rest| && Agree(k.src[ip + c..], t.rest[c..])
                         && AtCopy(t.f, t.n, tmpInTarget - c, t.rest[c..]))
      ensures !linked ==> dict == old(dict)
      ensures ToldCopy(g', tmpInTarget - c, []) && Heard(g, g', k, ip, ip + c)
    {
      hide Logged, ToldCopy, FieldsTold, FrontOk, D, Covers, Own, DictShape, Shape, Ready, HistFresh, Follows, Sizes,
        AtCopy, ValidFrame, Agree, InfoIs,
        SumsOk, CopyAt, Outside, Written, Hist, Grown, Place;
      CopyStage(t);
      CopyLogged(g);
      CopySums(g, tmpInTarget);
      PlaceFits(k, op);
      Apart(k, op, Between);
      c := Min(tmpInTarget, Min(|k.src| - ip, k.end - op));
      ghost var made0, xxh0, block0, remaining0 := made, xxh, blockXxh, frameRemainingSize;
      if t.On? {
        CopyKnown(t.f, t.n, tmpInTarget, t.rest);
        Consume(k.src, ip, t.rest, c);
      }
      CopyAndDeliver(k, ip, op, c);
      g' := CopyHeard(g, tmpInTarget, k.src[ip..ip + c], made0, xxh0, block0, remaining0);
      if t.On? {
        CopyTracked(t.f, t.n, tmpInTarget, t.rest, k.src[ip..ip + c], made0, xxh0, block0, remaining0);
      }
    }

    /** A stored block is complete, or goes on in the next call. */
    method EndCopy(k: Call, ip: nat, op: nat, c: nat, ghost t: Track, ghost g: Log)
      returns (step: Step, ghost t': Track, ghost g': Log)
      requires Shape() && DictShape() && Ready() && Hist(Between) && Place(k, op, Between) && Written(k, op)
        && ip <= |k.src|
      requires c <= tmpInTarget <= maxBlockSize && (c == tmpInTarget || ip == |k.src| || op == k.end)
      requires dStage == CopyDirect && ToldCopy(g, tmpInTarget - c, [])
      requires t.Off? || (t.On? && ValidFrame(t.f) && Agree(k.src[ip..], t.rest)
                          && AtCopy(t.f, t.n, tmpInTarget - c, t.rest))
      modifies this`dStage, this`tmpInTarget, this`tmpInSize
      ensures !step.Fail? && Inv(k, ip, op, t') && !t'.Done?
      ensures t.On? ==> t'.On? && t'.f == t.f && t'.rest == t.rest
      ensures step.Again? ==> dStage == GetBlockHeader || dStage == GetBlockChecksum
      ensures Logged(g') && g'.read == g.read
      ensures step.Stop? ==> step.hint > 0 && (ip == |k.src| || op == k.end)
      ensures !step.Fail? ==> !PhaseOf(dStage).Fresh?
      ensures step.Stop? ==> Rests() && (step.hint > 0 ==> step.hint == Wanted())
    {
      hide Logged, ToldCopy, ToldBlock, D, Covers, Place, DictShape, Shape, Ready, HistFresh, Follows, Sizes, AtCopy,
        AtFooter, AtBlock, ValidFrame,
        Agree, Written;
      t', g' := t, g;
      if c == tmpInTarget {
        if t.On? { CopyFinished(t.f, t.n, t.rest); }
        step := Again;
        if blockSum {
          AfterCopy(GetBlockChecksum, 0);
          assert header[..0] == [];
          assert t.On? ==> header[..0] + t.rest == t.rest;
          ChecksumStage(t');
          ChecksumLogged(g);
        } else {
          AfterCopy(GetBlockHeader, tmpInSize);
          if t.On? { t' := On(t.f, t.n + 1, t.rest); }
          BlockStage(t');
          g' := CopyComplete(g);
          BlockLogged(g');
        }
      } else {
        tmpInTarget := tmpInTarget - c;
        CopyStage(t');
        CopyLogged(g);
        step := Stop(tmpInTarget + BLOCK_FOOTER * Bit(blockSum) + BLOCK_HEADER);
      }
    }

    /** dstage_copyDirect */
    method StepCopyDirect(k: Call, ip: nat, op: nat, ghost t: Track, ghost g: Log)
        returns (ip': nat, op': nat, step: Step, ghost t': Track, ghost g': Log)
      requires Inv(k, ip, op, t) && dStage == CopyDirect && Logged(g)
      modifies this`xxh, this`blockXxh, this`frameRemainingSize, this`dStage, this`tmpInTarget, this`tmpInSize
      modifies this`dict, this`dictStart, this`dictSize, this`emitted, this`made, tmpOutBuffer, k.dst
      ensures !step.Fail? && ip <= ip' && op <= op' && Logged(g') && Heard(g, g', k, ip, ip')
      ensures Inv(k, ip', op', t') && Next(t, t', ip' - ip) && !t'.Done?
      ensures Grown(old(emitted), k, op, op')
      ensures k.dst != null ==> Outside(old(k.dst[..]), k.dst[..], op, k.end)
      ensures step.Again? ==> dStage == GetBlockHeader || dStage == GetBlockChecksum
      ensures step.Stop? ==> step.hint > 0 && (ip' == |k.src| || op' == k.end)
      ensures !linked ==> dict == old(dict)
      ensures !step.Fail? ==> !PhaseOf(dStage).Fresh?
      ensures step.Stop? ==> Rests() && (step.hint > 0 ==> step.hint == Wanted())
    {
      hide Logged, ToldCopy, D, Covers, Place, DictShape, Shape, Ready, HistFresh, Follows, Sizes, AtCopy, ValidFrame,
        Agree, Outside,
        Written;
      CopyStage(t);
      PlaceFits(k, op);
      var c: nat := 0;
      ghost var g1 := g;
      CopyLogged(g);
      if k.dst != null {
        c, g1 := CopyStored(k, ip, op, t, g);
      } else {
        assert t.On? ==> t.rest[0..] == t.rest;
      }
      ip', op' := ip + c, op + c;
      ghost var t1 := if t.On? then On(t.f, t.n, t.rest[c..]) else t;
      step, t', g' := EndCopy(k, ip', op', c, t1, g1);
    }

    method AfterCopy(s: Stage, size: nat)
      modifies this`dStage, this`tmpInSize
      ensures dStage == s && tmpInSize == size
    {
      dStage, tmpInSize := s, size;
    }

    // ----- dstage_getBlockChecksum -----

    /** The checksum of a stored block, from the input or gathered in `header`. */
    method TakeFooter(k: Call, ip: nat) returns (ip': nat, selected: Option<bytes>)
      requires header.Length == MAX_HEADER && ip <= |k.src| && tmpInSize < BLOCK_FOOTER
      modifies this`tmpInSize, header
      ensures ip <= ip' <= |k.src|
      ensures var held := old(header[..tmpInSize]);
        match selected
        case Some(s) => |s| == BLOCK_FOOTER && s == held + k.src[ip..ip'] && ip < ip'
        case None =>
          ip' == |k.src| && tmpInSize < BLOCK_FOOTER && header[..tmpInSize] == held + k.src[ip..ip']
    {
      if |k.src| - ip >= BLOCK_FOOTER && tmpInSize == 0 {
        return ip + BLOCK_FOOTER, Some(k.src[ip..ip + BLOCK_FOOTER]);
      }
      var c := Store(header, tmpInSize, BLOCK_FOOTER, k, ip);
      tmpInSize := tmpInSize + c;
      ip' := ip + c;
      if tmpInSize < BLOCK_FOOTER { return ip', None; }
      selected := Some(header[..BLOCK_FOOTER]);
    }

    lemma FooterKnown(f: Frame, n: nat, whole: bytes)
      requires AtFooter(f, n, whole)
      ensures ValidFrame(f) && f.Frame? && n < |f.blocks| && 4 <= |whole|
      ensures whole[..4] == LE32(Digest(f.blocks[n].data)) && ReadLE32(whole[..4], 0) == Digest(f.blocks[n].data)
      ensures AtBlock(f, n + 1, whole[4..])
      ensures !skipChecksum ==> blockXxh == f.blocks[n].data
    {
      hide SumsOk, ValidFrame, Out, Body, LE32, Digest, ReadLE32, BlockSize;
      var data := f.blocks[n].data;
      assert whole == LE32(Digest(data)) + Body(f, n + 1);
      assert whole[..4][0..4] == LE32(Digest(data));
      LE32Read(whole[..4], 0, Digest(data));
    }

    lemma CopyMore(g: Log, left: nat, x: bytes, y: bytes)
      requires ToldCopy(g, left, x)
      ensures ToldCopy(MoreRead(g, y), left, x + y)
    {
      hide FrontOk, SumsTold, LE32, Made;
      var part := LE32(UNCOMPRESSED_FLAG + |g.data| + left) + g.data;
      assert g.front + part + x + y == g.front + part + (x + y);
    }

    /** The checksum of a stored block, read and compared. */
    lemma FooterHeard(g: Log, foot: bytes) returns (g': Log)
      requires ToldCopy(g, 0, foot) && blockSum && |foot| == BLOCK_FOOTER
      requires !skipChecksum ==> ReadLE32(foot, 0) == Digest(blockXxh)
      ensures ToldBlock(g', []) && g'.read == g.read
    {
      hide FrontOk, SumsTold, LE32, Made, Digest, ReadLE32;
      LE32Written(foot);
      g' := StoredComplete(g, LE32(UNCOMPRESSED_FLAG + |g.data|) + g.data, foot);
    }

    /** The block is complete. */
    method NextBlock(k: Call, ip: nat, op: nat, ghost t: Track, ghost g: Log)
      requires Shape() && DictShape() && Ready() && Hist(Between) && Place(k, op, Between) && Written(k, op)
        && ip <= |k.src|
      requires t.Off? || (t.On? && ValidFrame(t.f) && AtBlock(t.f, t.n, t.rest) && Agree(k.src[ip..], t.rest))
      requires ToldBlock(g, []) && dStage == GetBlockChecksum
      modifies this`dStage
      ensures dStage == GetBlockHeader && Inv(k, ip, op, t) && Logged(g)
    {
      hide D, Covers, Place, DictShape, Shape, Ready, HistFresh, Follows, Sizes, AtBlock, ValidFrame, Agree, Written,
        Logged, ToldBlock, Hist;
      dStage := GetBlockHeader;
      BlockStage(t);
      BlockLogged(g);
    }

    method StepBlockChecksum(k: Call, ip: nat, op: nat, ghost t: Track, ghost g: Log)
      returns (ip': nat, step: Step, ghost t': Track, ghost g': Log)
      requires Inv(k, ip, op, t) && dStage == GetBlockChecksum && Logged(g)
      modifies this`tmpInSize, this`dStage, header
      ensures step.Fail? ==> !t.On?
      ensures !step.Fail? ==> Logged(g') && Heard(g, g', k, ip, ip')
      ensures !step.Fail? ==> ip <= ip' && Inv(k, ip', op, t') && Next(t, t', ip' - ip) && !t'.Done?
      ensures step.Again? ==> ip < ip' && dStage == GetBlockHeader
      ensures step.Stop? ==> step.hint > 0 && ip' == |k.src|
      ensures !step.Fail? ==> !PhaseOf(dStage).Fresh?
      ensures step.Stop? ==> Rests() && (step.hint > 0 ==> step.hint == Wanted())
    {
      hide Logged, ToldCopy, ToldBlock, D, Covers, Place, DictShape, Shape, Ready, HistFresh, Follows, Sizes, AtFooter,
        AtBlock, ValidFrame, Agree,
        Written, LE32, ReadLE32, Digest;
      ChecksumStage(t);
      ChecksumLogged(g);
      Apart(k, op, Between);
      ghost var held := header[..tmpInSize];
      var selected;
      ip', selected := TakeFooter(k, ip);
      t', g' := t, MoreRead(g, k.src[ip..ip']);
      CopyMore(g, 0, held, k.src[ip..ip']);
      if t.On? {
        ghost var whole := held + t.rest;
        FooterKnown(t.f, t.n, whole);
        Gather(k.src, ip, ip', held, t.rest, whole, selected);
        t' := On(t.f, t.n, t.rest[ip' - ip..]);
      }
      if selected.None? {
        ChecksumStage(t');
        ChecksumLogged(g');
        return ip', Stop(1), t', g';
      }
      if !skipChecksum && ReadLE32(selected.value, 0) != Digest(blockXxh) {
        return ip', Fail(BlockChecksumInvalid), t, g;
      }
      g' := FooterHeard(g', selected.value);
      step := Again;
      if t.On? { t' := On(t.f, t.n + 1, t'.rest); }
      NextBlock(k, ip', op, t', g');
    }

    // ----- dstage_getSuffix, dstage_storeSuffix -----

    /** LZ4F_resetDecompressionContext */
    method Reset()
      modifies this`dStage, this`dict, this`dictStart, this`dictSize, this`skipChecksum, this`hist
      ensures dStage == GetFrameHeader && dict == null && dictSize == 0 && !skipChecksum && hist == []
    {
      dStage := GetFrameHeader;
      dict, dictStart, dictSize := null, 0, 0;
      skipChecksum := false;
      hist := [];
    }

    /** After a frame the context is as good as new. */
    lemma AfterReset(k: Call, ip: nat, op: nat, f: Frame, on: bool)
      requires Shape() && dStage == GetFrameHeader && dict == null && dictSize == 0 && hist == []
      requires Own(k, op) && Written(k, op) && ip <= |k.src|
      requires on ==> ValidFrame(f) && emitted == FrameContent(f) && frameRemainingSize == 0
      ensures Inv(k, ip, op, if on then Done(f) else Off)
    {
      hide ValidFrame, FrameContent, Written;
    }

    /** The end of a frame. */
    method Finish(k: Call, ip: nat, op: nat, ghost t: Track) returns (ghost t': Track)
      requires Shape() && Own(k, op) && Written(k, op) && ip <= |k.src| && !t.Done?
      requires t.On? ==> ValidFrame(t.f) && emitted == FrameContent(t.f) && frameRemainingSize == 0
      modifies this`dStage, this`dict, this`dictStart, this`dictSize, this`skipChecksum, this`hist
      ensures dStage == GetFrameHeader && Inv(k, ip, op, t') && t' == if t.On? then Done(t.f) else Off
      ensures dict == null
    {
      hide ValidFrame, FrameContent, Written, Own, Shape, Inv;
      Reset();
      t' := if t.On? then Done(t.f) else Off;
      AfterReset(k, ip, op, if t.On? then t.f else Skippable(0, []), t.On?);
    }

    lemma SuffixKnown(f: Frame, n: nat, whole: bytes)
      requires AtSuffix(f, n, whole)
      ensures ValidFrame(f) && frameRemainingSize == 0 && made == FrameContent(f)
      ensures !contentSum ==> whole == []
      ensures contentSum ==>
                && |whole| == 4 && ReadLE32(whole, 0) == Digest(FrameContent(f))
                && (!skipChecksum ==> xxh == FrameContent(f))
    {
      hide ValidFrame, FrameContent, LE32, Digest, ReadLE32, BlockSize;
      SizeBound(f);
      if contentSum {
        assert whole[0..4] == whole;
        LE32Read(whole, 0, Digest(FrameContent(f)));
      }
    }

    lemma StoreSuffixStage(t: Track)
      requires dStage == StoreSuffix
      ensures Follows(t) <==>
              t.Off? || (t.On? && ValidFrame(t.f) && tmpInSize <= tmpIn.Length && contentSum
                         && AtSuffix(t.f, t.n, tmpIn[..tmpInSize] + t.rest))
      ensures Sizes() <==> Ready() && tmpInSize < BLOCK_FOOTER
    {
      hide ValidFrame, AtSuffix, Ready;
    }

    lemma SuffixMore(g: Log, x: bytes, y: bytes)
      requires ToldSuffix(g, x)
      ensures ToldSuffix(MoreRead(g, y), x + y)
    {
      hide ToldBlock, LE32;
      BlockMore(g, LE32(0) + x, y);
      assert LE32(0) + x + y == LE32(0) + (x + y);
    }

    /** What has been read is a whole frame. */
    lemma SuffixEnds(g: Log, foot: bytes)
      requires ToldSuffix(g, foot) && frameRemainingSize == 0 && made == emitted
      requires |foot| == BLOCK_FOOTER * Bit(contentSum)
      requires contentSum && !skipChecksum ==> ReadLE32(foot, 0) == Digest(xxh)
      ensures WasFrame(g.read, hist, !skipChecksum, emitted)
    {
      hide LE32, Digest, ReadLE32, FrontOk, Accepted, FrameContent;
      if contentSum { LE32Written(foot); }
      if contentSize != 0 {
        InfoSmall(g);
        CountedOut(contentSize, |made|);
      }
      assert g.read == g.front + LE32(0) + foot;
      FrameEnd(g.info, g.blocks, g.front, hist, !skipChecksum, foot, g.read);
      var f := Frame(g.info, hist, g.blocks);
      assert Accepted(g.read, f, !skipChecksum) && FrameContent(f) == emitted;
    }

    lemma InfoSmall(g: Log)
      requires Told(g)
      ensures contentSize < TWO64
    {
      hide BlocksStand, Spells, Header, SumsTold, BlockSize;
    }

    /** The four bytes of the content checksum, or as many as there are. */
    method TakeSuffix(k: Call, ip: nat, op: nat, ghost t: Track, ghost g: Log)
        returns (ip': nat, selected: Option<bytes>, ghost t': Track, ghost g': Log)
      requires Inv(k, ip, op, t) && (dStage == StoreSuffix || (dStage == GetSuffix && contentSum)) && Logged(g)
      requires frameRemainingSize == 0
      modifies this`tmpInSize, this`dStage, tmpIn
      ensures ip <= ip' <= |k.src|
      ensures selected.None? ==>
        && ip' == |k.src| && Inv(k, ip', op, t') && Next(t, t', ip' - ip) && dStage == StoreSuffix
        && tmpInSize < BLOCK_FOOTER && !t'.Done?
      ensures selected.Some? ==>
        |selected.value| == 4 && ip < ip' && Shape() && Own(k, op) && Written(k, op) && !t.Done?
      ensures selected.None? ==> Logged(g')
      ensures var held := if old(dStage) == GetSuffix then [] else old(tmpIn[..tmpInSize]);
        selected.Some? ==> selected.value == held + k.src[ip..ip']
      ensures Heard(g, g', k, ip, ip') && made == emitted && (selected.Some? ==> ToldSuffix(g', selected.value))
      ensures selected.Some? && t.On? ==>
        && ip' - ip == |t.rest| && ValidFrame(t.f) && emitted == FrameContent(t.f) && frameRemainingSize == 0
        && (skipChecksum || ReadLE32(selected.value, 0) == Digest(xxh))
    {
      hide Logged, ToldSuffix, D, Covers, Place, Own, DictShape, Shape, Ready, HistFresh, Follows, Sizes, AtSuffix,
        ValidFrame, Agree,
        Written, LE32, ReadLE32, Digest, FrameContent, Inv;
      SuffixOpen(k, ip, op, t);
      SuffixLogged(g);
      var direct := dStage == GetSuffix;
      ghost var held := if direct then [] else tmpIn[..tmpInSize];
      assert t.On? ==> [] + t.rest == t.rest;
      if t.On? {
        SuffixKnown(t.f, t.n, held + t.rest);
        assert (held + t.rest)[..4] == held + t.rest;
      }
      t' := t;
      ip', selected := Take(k, ip, direct, StoreSuffix);
      g' := MoreRead(g, k.src[ip..ip']);
      SuffixMore(g, held, k.src[ip..ip']);
      if t.On? {
        Gather(k.src, ip, ip', held, t.rest, held + t.rest, selected);
        t' := On(t.f, t.n, t.rest[ip' - ip..]);
      }
      if selected.None? {
        StoreSuffixStage(t');
        SuffixLogged(g');
        SuffixClose(k, ip', op, t');
      }
    }

/** The content checksum, read and compared. */
    method CheckSuffix(k: Call, ip: nat, op: nat, ghost t: Track, ghost g: Log)
      returns (ip': nat, step: Step, ghost t': Track, ghost g': Log)
      requires Inv(k, ip, op, t) && (dStage == StoreSuffix || (dStage == GetSuffix && contentSum)) && Logged(g)
      requires frameRemainingSize == 0
      modifies this`tmpInSize, this`dStage, this`dict, this`dictStart, this`dictSize, this`skipChecksum, this`hist
      modifies tmpIn
      ensures step.Fail? || step.Stop?
      ensures step.Fail? ==> !t.On?
      ensures step.Stop? ==> Logged(g') && Heard(g, g', k, ip, ip')
      ensures var held := if old(dStage) == GetSuffix then [] else old(tmpIn[..tmpInSize]);
        step.Stop? && step.hint == 0 ==>
          && frameRemainingSize == 0 && WasFrame(g'.read, old(hist), !old(skipChecksum), emitted)
          && (contentSum && !old(skipChecksum) ==> ip <= ip' <= |k.src| && held + k.src[ip..ip'] == LE32(Digest(xxh)))
      ensures step.Stop? && step.hint > 0 ==> hist == old(hist) && skipChecksum == old(skipChecksum)
      ensures step.Stop? ==> ip <= ip' && Inv(k, ip', op, t') && Next(t, t', ip' - ip)
      ensures step.Stop? ==> (step.hint == 0 <==> dStage == GetFrameHeader) && (step.hint == 0 || ip' == |k.src|)
      ensures step.Stop? && t.On? ==> (step.hint == 0 <==> t'.Done?)
      ensures step.Stop? ==> (dStage == GetFrameHeader && dict == null) || PhaseOf(dStage).Over?
      ensures step.Stop? ==> Rests() && (step.hint > 0 ==> step.hint == Wanted())
      ensures step.Stop? && dStage == GetFrameHeader ==> step.hint == 0
    {
      hide Logged, ToldSuffix, WasFrame, D, Covers, Place, Own, DictShape, Shape, Ready, HistFresh, Follows, Sizes,
        AtSuffix, ValidFrame, Agree, Written, LE32, ReadLE32, Digest, FrameContent, Inv;
      SuffixLogged(g);
      SuffixOpen(k, ip, op, t);
      var selected;
      ip', selected, t', g' := TakeSuffix(k, ip, op, t, g);
      if selected.None? {
        return ip', Stop(BLOCK_FOOTER - tmpInSize), t', g';
      }
      if !skipChecksum && ReadLE32(selected.value, 0) != Digest(xxh) {
        return ip', Fail(ContentChecksumInvalid), t, g;
      }
      LE32Written(selected.value);
      t' := FinishFrame(k, ip', op, selected.value, t, g');
      step := Stop(0);
    }

    method StepSuffix(k: Call, ip: nat, op: nat, ghost t: Track, ghost g: Log)
      returns (ip': nat, step: Step, ghost t': Track, ghost g': Log)
      requires Inv(k, ip, op, t) && (dStage == GetSuffix || dStage == StoreSuffix) && Logged(g)
      modifies this`tmpInSize, this`dStage, this`dict, this`dictStart, this`dictSize, this`skipChecksum, this`hist
      modifies tmpIn
      ensures step.Fail? || step.Stop?
      ensures step.Fail? ==> !t.On?
      ensures step.Stop? ==> Logged(g') && Heard(g, g', k, ip, ip')
      ensures var held := if old(dStage) == GetSuffix then [] else old(tmpIn[..tmpInSize]);
        step.Stop? && step.hint == 0 ==>
          && frameRemainingSize == 0 && WasFrame(g'.read, old(hist), !old(skipChecksum), emitted)
          && (contentSum && !old(skipChecksum) ==> ip <= ip' <= |k.src| && held + k.src[ip..ip'] == LE32(Digest(xxh)))
      ensures step.Stop? && step.hint > 0 ==> hist == old(hist) && skipChecksum == old(skipChecksum)
      ensures step.Stop? ==> ip <= ip' && Inv(k, ip', op, t') && Next(t, t', ip' - ip)
      ensures step.Stop? ==> (step.hint == 0 <==> dStage == GetFrameHeader) && (step.hint == 0 || ip' == |k.src|)
      ensures step.Stop? && t.On? ==> (step.hint == 0 <==> t'.Done?)
      ensures step.Stop? ==> (dStage == GetFrameHeader && dict == null) || PhaseOf(dStage).Over?
      ensures step.Stop? ==> Rests() && (step.hint > 0 ==> step.hint == Wanted())
      ensures step.Stop? && dStage == GetFrameHeader ==> step.hint == 0
    {
      hide Logged, ToldSuffix, WasFrame, D, Covers, Place, Own, DictShape, Shape, Ready, HistFresh, Follows, Sizes,
        AtSuffix, ValidFrame, Agree, Written, LE32, ReadLE32, Digest, FrameContent, Inv, Next, Heard;
      SuffixLogged(g);
      SuffixOpen(k, ip, op, t);
      if dStage == GetSuffix {
        if t.On? { SuffixKnown(t.f, t.n, t.rest); }
        if frameRemainingSize != 0 {
          return ip, Fail(FrameSizeWrong), t, g;
        }
        if !contentSum {
          t' := FinishFrame(k, ip, op, [], t, g);
          HeardNone(g, k, ip);
          NextDone(t, t');
          return ip, Stop(0), t', g;
        }
      }
      ip', step, t', g' := CheckSuffix(k, ip, op, t, g);
    }

    /** The end of a frame, and what has been read of it. */
    method FinishFrame(k: Call, ip: nat, op: nat, ghost foot: bytes, ghost t: Track, ghost g: Log)
      returns (ghost t': Track)
      requires Shape() && Own(k, op) && Written(k, op) && ip <= |k.src| && !t.Done?
      requires t.On? ==> ValidFrame(t.f) && emitted == FrameContent(t.f)
      requires ToldSuffix(g, foot) && frameRemainingSize == 0 && made == emitted
      requires |foot| == BLOCK_FOOTER * Bit(contentSum)
      requires contentSum && !skipChecksum ==> ReadLE32(foot, 0) == Digest(xxh)
      modifies this`dStage, this`dict, this`dictStart, this`dictSize, this`skipChecksum, this`hist
      ensures dStage == GetFrameHeader && Inv(k, ip, op, t') && t' == if t.On? then Done(t.f) else Off
      ensures dict == null && Logged(g) && WasFrame(g.read, old(hist), !old(skipChecksum), emitted)
    {
      hide Logged, ToldSuffix, WasFrame, ValidFrame, FrameContent, Written, Own, Shape, Inv, Digest, ReadLE32;
      SuffixEnds(g, foot);
      t' := Finish(k, ip, op, t);
      NothingMore(g);
    }

    /** At the start of a frame nothing is asked of the log. */
    lemma NothingMore(g: Log)
      requires dStage == GetFrameHeader
      ensures Logged(g)
    {
    }

    lemma SuffixOpen(k: Call, ip: nat, op: nat, t: Track)
      requires Inv(k, ip, op, t) && (dStage == GetSuffix || dStage == StoreSuffix)
      ensures Shape() && DictShape() && Ready() && Place(k, op, Over) && Own(k, op) && Written(k, op) && ip <= |k.src|
      ensures made == emitted
      ensures dStage == StoreSuffix ==> tmpInSize < BLOCK_FOOTER
      ensures BLOCK_FOOTER <= tmpIn.Length && tmpIn != tmpOutBuffer && tmpIn != header && k.dst != tmpIn
        && dict != tmpIn
      ensures t.Off? || (t.On? && ValidFrame(t.f) && Agree(k.src[ip..], t.rest))
      ensures t.On? && dStage == GetSuffix ==> AtSuffix(t.f, t.n, t.rest)
      ensures t.On? && dStage == StoreSuffix ==> contentSum && AtSuffix(t.f, t.n, tmpIn[..tmpInSize] + t.rest)
    {
      hide D, Covers, Own, DictShape, Shape, Ready, HistFresh, Follows, Sizes, AtSuffix, ValidFrame, Agree, Written;
      if dStage == GetSuffix { SuffixStage(t); } else { StoreSuffixStage(t); }
      Apart(k, op, Over);
      Fits();
    }

    lemma SuffixClose(k: Call, ip: nat, op: nat, t: Track)
      requires dStage == StoreSuffix && Follows(t) && Sizes() && made == emitted
      requires Shape() && DictShape() && Place(k, op, Over) && Written(k, op) && ip <= |k.src|
      requires t.On? ==> Agree(k.src[ip..], t.rest)
      ensures Inv(k, ip, op, t)
    {
      hide D, Place, DictShape, Shape, Follows, Sizes, Agree, Written;
    }

    // ----- Skippable frames -----

    /** The size of a skippable frame, from the input or gathered behind the magic number in `header`. */
    method TakeSize(k: Call, ip: nat, direct: bool) returns (ip': nat, selected: Option<bytes>)
      requires header.Length == MAX_HEADER && ip <= |k.src|
      requires !direct ==> tmpInTarget == 8 && 4 <= tmpInSize < 8 && dStage == StoreSFrameSize
      modifies this`tmpInSize, this`tmpInTarget, this`dStage, header
      ensures ip <= ip' <= |k.src|
      ensures var held := if direct then [] else old(header[4..tmpInSize]);
        match selected
        case Some(s) => |s| == 4 && s == held + k.src[ip..ip'] && ip < ip'
        case None =>
          && ip' == |k.src| && dStage == StoreSFrameSize && tmpInTarget == 8 && 4 <= tmpInSize < 8
          && header[4..tmpInSize] == held + k.src[ip..ip']
    {
      if direct {
        if |k.src| - ip >= 4 {
          return ip + 4, Some(k.src[ip..ip + 4]);
        }
        tmpInSize, tmpInTarget := 4, 8;
        dStage := StoreSFrameSize;
      }
      ghost var was, size := header[..tmpInSize], tmpInSize;
      assert was[4..] == header[4..tmpInSize];
      var c := Store(header, tmpInSize, tmpInTarget, k, ip);
      SplitAt4(header[..], size + c, was, k.src[ip..ip + c]);
      tmpInSize := tmpInSize + c;
      ip' := ip + c;
      if tmpInSize < tmpInTarget { return ip', None; }
      selected := Some(header[4..8]);
    }

    lemma SkippableOpen(k: Call, ip: nat, op: nat, t: Track)
      requires Inv(k, ip, op, t) && (dStage == GetSFrameSize || dStage == StoreSFrameSize)
      ensures Shape() && DictShape() && Own(k, op) && Place(k, op, Over) && Written(k, op) && ip <= |k.src|
        && made == emitted
      ensures header.Length == MAX_HEADER && k.dst != header && dict != header && tmpIn != header
        && tmpOutBuffer != header
      ensures dStage == StoreSFrameSize ==> tmpInTarget == 8 && 4 <= tmpInSize < 8
      ensures t.Off? || (t.On? && ValidFrame(t.f) && Agree(k.src[ip..], t.rest) && t.f.Skippable?)
      ensures t.On? && dStage == GetSFrameSize ==> AtSkippable(t.f, t.rest)
      ensures t.On? && dStage == StoreSFrameSize ==> AtSkippable(t.f, header[4..tmpInSize] + t.rest)
    {
      hide D, Covers, Own, DictShape, Shape, ValidFrame, Agree, Written, LE32;
      Apart(k, op, Over);
    }

    lemma SkippableClose(k: Call, ip: nat, op: nat, t: Track)
      requires dStage == StoreSFrameSize || dStage == SkipSkippable
      requires Shape() && DictShape() && Place(k, op, Over) && Written(k, op) && ip <= |k.src| && made == emitted
      requires dStage == StoreSFrameSize ==> tmpInTarget == 8 && 4 <= tmpInSize < 8 && tmpInSize <= header.Length
      requires t.Off? || (t.On? && ValidFrame(t.f) && Agree(k.src[ip..], t.rest))
      requires t.On? && dStage == StoreSFrameSize ==> AtSkippable(t.f, header[4..tmpInSize] + t.rest)
      requires t.On? && dStage == SkipSkippable ==> Skipping(t.f) && |t.rest| == tmpInTarget
      ensures Inv(k, ip, op, t)
    {
      hide D, Covers, Place, DictShape, Shape, ValidFrame, Agree, Written, AtSkippable, Skipping;
    }

    lemma SkippableKnown(f: Frame, whole: bytes)
      requires AtSkippable(f, whole)
      ensures ValidFrame(f) && Skipping(f) && |whole| == 4 + |f.payload| && ReadLE32(whole[..4], 0) == |f.payload|
    {
      hide LE32, ReadLE32;
      assert whole[..4] == LE32(|f.payload|) && whole[..4][0..4] == whole[..4];
      LE32Read(whole[..4], 0, |f.payload|);
    }

    lemma MagicMore(g: Log, x: bytes, y: bytes)
      requires ToldMagic(g, x)
      ensures ToldMagic(MoreRead(g, y), x + y)
    {
      hide ReadLE32, IsSkippable;
      var read := g.read + y;
      assert read[..4] == g.read[..4];
      SameMagic(read, 4);
      SameMagic(g.read, 4);
    }

    lemma SizeHeard(g: Log, s: bytes)
      requires ToldMagic(g, s) && |s| == 4
      ensures ToldSkip(g, ReadLE32(s, 0))
    {
      hide IsSkippable;
      assert g.read[4..][0] == g.read[4] && g.read[4..][1] == g.read[5];
      assert g.read[4..][2] == g.read[6] && g.read[4..][3] == g.read[7];
    }

    /** dstage_getSFrameSize, dstage_storeSFrameSize */
    method StepSFrameSize(k: Call, ip: nat, op: nat, ghost t: Track, ghost g: Log)
      returns (ip': nat, step: Step, ghost t': Track, ghost g': Log)
      requires Inv(k, ip, op, t) && (dStage == GetSFrameSize || dStage == StoreSFrameSize) && Logged(g)
      modifies this`tmpInSize, this`tmpInTarget, this`dStage, this`contentSize, header
      ensures !step.Fail? && ip <= ip' && Inv(k, ip', op, t') && Next(t, t', ip' - ip) && !t'.Done?
      ensures step.Again? ==> ip < ip' && dStage == SkipSkippable
      ensures step.Stop? ==> step.hint > 0 && ip' == |k.src|
      ensures !step.Fail? ==> !PhaseOf(dStage).Fresh?
      ensures PhaseOf(dStage).Over?
      ensures Logged(g') && Heard(g, g', k, ip, ip')
      ensures step.Stop? ==> Rests() && (step.hint > 0 ==> step.hint == Wanted())
    {
      hide Logged, ToldMagic, ToldSkip, D, Covers, Place, Own, DictShape, Shape, ValidFrame, Agree, Written,
        AtSkippable, Skipping, Inv, ReadLE32;
      SkippableOpen(k, ip, op, t);
      SkipLogged(g);
      var direct := dStage == GetSFrameSize;
      ghost var held := if direct then [] else header[4..tmpInSize];
      assert t.On? ==> [] + t.rest == t.rest;
      var selected;
      ip', selected := TakeSize(k, ip, direct);
      t', g' := t, MoreRead(g, k.src[ip..ip']);
      MagicMore(g, held, k.src[ip..ip']);
      if t.On? {
        SkippableKnown(t.f, held + t.rest);
        Gather(k.src, ip, ip', held, t.rest, held + t.rest, selected);
        t' := On(t.f, t.n, t.rest[ip' - ip..]);
      }
      if selected.None? {
        SkippableClose(k, ip', op, t');
        SkipLogged(g');
        return ip', Stop(tmpInTarget - tmpInSize), t', g';
      }
      StartSkipping(ReadLE32(selected.value, 0));
      SkippableClose(k, ip', op, t');
      SizeHeard(g', selected.value);
      SkipLogged(g');
      step := Again;
    }

    method StartSkipping(size: nat)
      modifies this`tmpInTarget, this`dStage, this`contentSize
      ensures dStage == SkipSkippable && tmpInTarget == size
    {
      contentSize, tmpInTarget, dStage := size, size, SkipSkippable;
    }

    lemma SkipMore(g: Log, left: nat, y: bytes)
      requires ToldSkip(g, left) && |y| <= left
      ensures ToldSkip(MoreRead(g, y), left - |y|)
    {
      hide ReadLE32, IsSkippable;
      var read := g.read + y;
      assert read[..8] == g.read[..8];
      SameNumbers(read);
      SameNumbers(g.read);
    }

    lemma SameNumbers(s: bytes)
      requires 8 <= |s|
      ensures ReadLE32(s[..8], 0) == ReadLE32(s, 0) && ReadLE32(s[..8], 4) == ReadLE32(s, 4)
    {
    }

    lemma SkipEnds(g: Log)
      requires ToldSkip(g, 0)
      ensures WasFrame(g.read, hist, !skipChecksum, emitted)
    {
      hide ReadLE32, IsSkippable, WasFrame;
      SkippableEnd(g.read, hist, !skipChecksum);
    }

    /** dstage_skipSkippable */
    method StepSkip(k: Call, ip: nat, op: nat, ghost t: Track, ghost g: Log)
      returns (ip': nat, step: Step, ghost t': Track, ghost g': Log)
      requires Inv(k, ip, op, t) && dStage == SkipSkippable && Logged(g)
      modifies this`tmpInTarget, this`dStage, this`dict, this`dictStart, this`dictSize, this`skipChecksum, this`hist
      ensures step.Stop? && ip <= ip' && Inv(k, ip', op, t') && Next(t, t', ip' - ip)
      ensures (step.hint == 0 <==> dStage == GetFrameHeader) && (step.hint == 0 || ip' == |k.src|)
      ensures t.On? ==> (step.hint == 0 <==> t'.Done?)
      ensures Logged(g') && Heard(g, g', k, ip, ip')
      ensures step.hint == 0 ==> WasFrame(g'.read, old(hist), !old(skipChecksum), emitted)
      ensures step.hint > 0 ==> hist == old(hist) && skipChecksum == old(skipChecksum)
      ensures step.Stop? ==> (dStage == GetFrameHeader && dict == null) || PhaseOf(dStage).Over?
      ensures step.Stop? ==> Rests() && (step.hint > 0 ==> step.hint == Wanted())
      ensures step.Stop? && dStage == GetFrameHeader ==> step.hint == 0
    {
      hide Logged, ToldSkip, WasFrame, D, Covers, Own, DictShape, Shape, ValidFrame, Agree, Written;
      SkipLogged(g);
      var skipSize := Min(tmpInTarget, |k.src| - ip);
      ip', t', g' := ip + skipSize, t, MoreRead(g, k.src[ip..ip + skipSize]);
      SkipMore(g, tmpInTarget, k.src[ip..ip + skipSize]);
      if t.On? {
        Consume(k.src, ip, t.rest, skipSize);
        t' := On(t.f, t.n, t.rest[skipSize..]);
      }
      tmpInTarget := tmpInTarget - skipSize;
      step := Stop(tmpInTarget);
      SkipLogged(g');
      if tmpInTarget == 0 {
        SkipEnds(g');
        t' := Finish(k, ip', op, t');
        NothingMore(g');
      }
    }

    // ----- Compressed blocks -----

    /** What a compressed block that begins now may refer to. */
    ghost function Base(): bytes
      reads this`linked, this`hist, this`made
    {
      if linked then hist + made else hist
    }

    lemma BaseCovered()
      requires Hist(Between)
      ensures Covers(D(), Base())
    {
      hide Covers, D;
      CoversSelf(hist);
    }

    /** The input of LZ4_decompress_safe_usingDict and the block that should come of it. */
    method CallDecoder(data: bytes, buf: array<byte>, at: nat, ghost h: bytes, ghost content: bytes, ghost base: bytes)
      returns (r: int)
      requires DictShape() && at + maxBlockSize <= buf.Length
      modifies buf
      ensures Outside(old(buf[..]), buf[..], at, at + maxBlockSize)
      ensures r <= maxBlockSize
      ensures old(Covers(D(), h)) && IsBlockOf(h, content, data) && |content| <= maxBlockSize ==>
                r == |content| && buf[at..at + r] == content
      ensures old(Covers(D(), base)) && r >= 0 ==>
        at + r <= buf.Length && StandsFor(data, base, base + buf[at..at + r])
    {
      hide StandsFor, Covers, IsBlockOf, Returns, BlockDecoderSpec.Decompress, Outside;
      ghost var full := D();
      var start, size := dictStart, dictSize;
      if dict != null && dictSize > GB1 {
        start, size := dictStart + dictSize - KB64, KB64;
      }
      var d :=
        if dict == null then Elsewhere([])
        else if dict == buf && start + size == at then Adjacent(size)
        else Elsewhere(dict[start..start + size]);
      ghost var seen := BlockApi.History(d, buf[..], at);
      assert seen == full[|full| - size..];
      r := DecompressSafeUsingDict(data, buf, at, maxBlockSize, false, d, fastLoop);
      FullSpecified(data, seen, ExtSize(d), maxBlockSize);
      DecodedAs(data, seen, full, ExtSize(d), maxBlockSize, r, buf[..], at, h, content);
      if Covers(full, base) && r >= 0 {
        DecodedStands(data, seen, full, ExtSize(d), maxBlockSize, r, buf[..], at, base);
      }
    }

    // ----- Output of a compressed block -----

    /** The data of compressed block `n` is in hand. */
    ghost predicate Unpacking(f: Frame, n: nat, data: bytes, rest: bytes)
      reads this`hist, this`linked, this`blockSum, this`contentSum, this`maxBlockSize, this`contentSize
      reads this`skipChecksum, this`xxh, this`made, this`frameRemainingSize
    {
      && Reading(f, n) && n < |f.blocks| && f.blocks[n].compressed && data == f.blocks[n].data
      && made == Out(f.blocks, n) && rest == Body(f, n + 1)
    }

    lemma UnpackingKnown(f: Frame, n: nat, data: bytes, rest: bytes)
      requires Unpacking(f, n, data, rest)
      ensures InfoIs(f) && ValidFrame(f) && f.Frame? && n < |f.blocks| && hist == f.dict && linked == f.info.linked
      ensures made == Out(f.blocks, n)
      ensures SumsOk(contentSum && !skipChecksum, xxh, made, contentSize, frameRemainingSize)
      ensures contentSize != 0 ==> contentSize == |FrameContent(f)| && contentSize < TWO64
      ensures IsBlockOf(Before(f, n), f.blocks[n].content, data) && |f.blocks[n].content| <= maxBlockSize
      ensures rest == Body(f, n + 1)
    {
      hide InfoIs, ValidFrame, Body, Out, SumsOk, IsBlockOf;
      InfoFrame(f);
      SizeBound(f);
      BlockContent(f, n);
    }

    /** The dictionary covers what block `n` refers to. */
    lemma HistoryAtHand(f: Frame, n: nat, data: bytes, rest: bytes)
      requires Unpacking(f, n, data, rest) && Hist(Between)
      ensures Covers(D(), Before(f, n))
    {
      hide Unpacking, Covers, D, InfoIs, ValidFrame, Body;
      UnpackingKnown(f, n, data, rest);
      CoversSelf(hist);
    }

    /** With its content the block is complete. */
    lemma Unpacked(f: Frame, n: nat, rest: bytes, x: bytes, made0: bytes, xxh0: bytes, remaining0: nat)
      requires InfoIs(f) && ValidFrame(f) && f.Frame? && n < |f.blocks| && made0 == Out(f.blocks, n)
      requires SumsOk(contentSum && !skipChecksum, xxh0, made0, contentSize, remaining0)
      requires contentSize != 0 ==> contentSize == |FrameContent(f)| && contentSize < TWO64
      requires x == f.blocks[n].content && made == made0 + x && rest == Body(f, n + 1)
      requires contentSum && !skipChecksum ==> xxh == xxh0 + x
      requires frameRemainingSize == if contentSize != 0 then (remaining0 - |x|) % TWO64 else remaining0
      ensures AtBlock(f, n + 1, rest)
    {
      hide SumsOk, InfoIs, ValidFrame, Body, Out;
      BlockContent(f, n);
      OutPrefix(f.blocks, n + 1, |f.blocks|);
      SumsMore(contentSum && !skipChecksum, xxh0, made0, contentSize, remaining0, x, xxh, frameRemainingSize);
    }

    /** Decodes a block to the output; the history and what was written before are untouched. */
    method DecodeToDst(k: Call, op: nat, data: bytes, ghost t: Track) returns (r: int)
      requires Shape() && DictShape() && Ready() && Hist(Between) && Place(k, op, Between) && Written(k, op)
      requires op + maxBlockSize <= k.end && k.dst != null
      requires t.Off? || (t.On? && Unpacking(t.f, t.n, data, t.rest))
      modifies k.dst
      ensures Hist(Between) && Written(k, op)
      ensures Outside(old(k.dst[..]), k.dst[..], op, k.end) && r <= maxBlockSize && (r >= 0 ==> op + r <= k.dst.Length)
      ensures t.On? ==> r == |t.f.blocks[t.n].content| && k.dst[op..op + r] == t.f.blocks[t.n].content
      ensures r >= 0 ==> StandsFor(data, Base(), Base() + k.dst[op..op + r])
    {
      hide StandsFor, Base, D, Covers, Place, DictShape, Shape, Ready, Unpacking, IsBlockOf;
      PlaceFits(k, op);
      Apart(k, op, Between);
      ghost var was, d := k.dst[..], D();
      DictNow(d);
      ghost var h, content := [], [];
      if t.On? {
        UnpackingKnown(t.f, t.n, data, t.rest);
        HistoryAtHand(t.f, t.n, data, t.rest);
        h, content := Before(t.f, t.n), t.f.blocks[t.n].content;
      }
      BaseCovered();
      r := CallDecoder(data, k.dst, op, h, content, Base());
      DictKept(k, op, was, d);
      WrittenKept(k, op, was);
    }

    /** Behind the data and the checksum of a compressed block. */
    ghost predicate ToldData(g: Log, data: bytes, foot: bytes)
      reads this`linked, this`blockSum, this`contentSum, this`maxBlockSize, this`contentSize
      reads this`skipChecksum, this`xxh, this`made, this`frameRemainingSize, this`hist
    {
      && FieldsTold(g.info) && |data| <= maxBlockSize && foot == Footer(blockSum, data)
      && ToldBlock(g, (LE32(|data|) + data) + foot)
    }

    lemma DataKnown(g: Log, data: bytes, foot: bytes, base: bytes)
      requires ToldData(g, data, foot) && base == Base()
      ensures FieldsTold(g.info) && FrontOk(g.info, g.blocks, g.front, hist, !skipChecksum)
      ensures |data| <= maxBlockSize == BlockSize(g.info.sizeId) && made == Made(g.blocks)
      ensures foot == Footer(g.info.blockChecksum, data) && base == Before(Frame(g.info, hist, g.blocks), |g.blocks|)
      ensures contentSum && !skipChecksum ==> xxh == made
      ensures contentSize != 0 ==> frameRemainingSize == (contentSize - |made|) % TWO64
      ensures g.read == g.front + (LE32(|data|) + data) + foot
    {
      hide FrontOk, LE32, Footer, BlockSize;
      assert g.front + ((LE32(|data|) + data) + foot) == g.front + (LE32(|data|) + data) + foot;
    }

    /** A compressed block is complete: it stands for its content. */
    lemma DataHeard(g: Log, data: bytes, foot: bytes, base: bytes, x: bytes, made0: bytes, xxh0: bytes, remaining0: nat)
      returns (g': Log)
      requires FieldsTold(g.info) && FrontOk(g.info, g.blocks, g.front, hist, !skipChecksum)
      requires |data| <= maxBlockSize == BlockSize(g.info.sizeId) && made0 == Made(g.blocks)
      requires foot == Footer(g.info.blockChecksum, data) && base == Before(Frame(g.info, hist, g.blocks), |g.blocks|)
      requires contentSum && !skipChecksum ==> xxh0 == made0 && xxh == xxh0 + x
      requires contentSize != 0 ==>
        remaining0 == (contentSize - |made0|) % TWO64 && frameRemainingSize == (remaining0 - |x|) % TWO64
      requires g.read == g.front + (LE32(|data|) + data) + foot
      requires StandsFor(data, base, base + x) && |x| <= maxBlockSize && made == made0 + x
      ensures ToldBlock(g', []) && g'.read == g.read
    {
      hide FrontOk, Made, LE32, FieldsTold, Footer, StandsFor, Before;
      var b := FrameFormat.Block(true, data, x);
      if contentSize != 0 { CountedDown(contentSize, |made0|, remaining0, |x|); }
      FrontNext(g.info, g.blocks, g.front, hist, !skipChecksum, b, foot);
      g' := Log(g.info, g.blocks + [b], g.read, [], g.read);
      assert g'.front + [] == g'.front;
    }

    /** A block decoded to the output, hashed and handed over. */
    method DecodeAndDeliver(k: Call, op: nat, data: bytes, ghost t: Track, ghost g: Log, ghost foot: bytes)
      returns (r: int, ghost g': Log)
      requires Shape() && DictShape() && Ready() && Hist(Between) && Place(k, op, Between) && Written(k, op)
      requires op + maxBlockSize <= k.end && k.dst != null && ToldData(g, data, foot)
      requires t.Off? || (t.On? && Unpacking(t.f, t.n, data, t.rest))
      modifies this`xxh, this`blockXxh, this`frameRemainingSize
      modifies this`dict, this`dictStart, this`dictSize, this`emitted, this`made, tmpOutBuffer, k.dst
      ensures r < 0 ==> !t.On?
      ensures r >= 0 ==>
        && op + r <= k.end && DictShape() && Hist(Between) && Place(k, op + r, Between) && Written(k, op + r)
        && Grown(old(emitted), k, op, op + r) && Outside(old(k.dst[..]), k.dst[..], op, k.end)
        && (t.On? ==> t.n < |t.f.blocks| && AtBlock(t.f, t.n + 1, t.rest))
      ensures !linked ==> dict == old(dict)
      ensures r >= 0 ==> ToldBlock(g', []) && g'.read == g.read
    {
      hide ToldData, ToldBlock, StandsFor, Base, FieldsTold, FrontOk, D, Covers, Own, DictShape, Shape, Ready,
        HistFresh, Hist, AtBlock, ValidFrame, InfoIs, SumsOk, Outside,
        Written, Unpacking, IsBlockOf, Body, Out;
      ghost var made0, xxh0, remaining0 := made, xxh, frameRemainingSize;
      ghost var base := Base();
      if t.On? { UnpackingKnown(t.f, t.n, data, t.rest); }
      DataKnown(g, data, foot, base);
      g' := g;
      PlaceFits(k, op);
      Apart(k, op, Between);
      r := DecodeToDst(k, op, data, t);
      if r < 0 { return; }
      ghost var x := k.dst[op..op + r];
      Deliver(k, op, r, false);
      g' := DataHeard(g, data, foot, base, x, made0, xxh0, remaining0);
      if t.On? {
        Unpacked(t.f, t.n, t.rest, x, made0, xxh0, remaining0);
      }
    }

    /** Straight to the caller's buffer. */
    method DecodeDirect(k: Call, ip: nat, op: nat, data: bytes, ghost t: Track, ghost g: Log, ghost foot: bytes)
      returns (op': nat, step: Step, ghost t': Track, ghost g': Log)
      requires Shape() && DictShape() && Ready() && Hist(Between) && Place(k, op, Between) && Written(k, op)
      requires op + maxBlockSize <= k.end && k.dst != null && ip <= |k.src|
      requires (dStage == GetCBlock || dStage == StoreCBlock) && ToldData(g, data, foot)
      requires t.Off? || (t.On? && ValidFrame(t.f) && Unpacking(t.f, t.n, data, t.rest) && Agree(k.src[ip..], t.rest))
      modifies this`xxh, this`blockXxh, this`frameRemainingSize, this`dStage
      modifies this`dict, this`dictStart, this`dictSize, this`emitted, this`made, tmpOutBuffer, k.dst
      ensures step.Again? || step.Fail?
      ensures step.Fail? ==> !t.On?
      ensures step.Again? ==>
        op <= op' && Inv(k, ip, op', t') && dStage == GetBlockHeader && Grown(old(emitted), k, op, op')
      ensures t.On? ==> t'.On? && t'.f == t.f && t'.rest == t.rest
      ensures step.Again? ==> Outside(old(k.dst[..]), k.dst[..], op, k.end)
      ensures !t.On? ==> t'.Off?
      ensures !linked ==> dict == old(dict)
      ensures step.Again? ==> Logged(g') && g'.read == g.read
    {
      hide Logged, ToldData, ToldBlock, D, Covers, Place, DictShape, Shape, Ready, HistFresh, Hist, Follows, Sizes,
        AtBlock, ValidFrame, Agree,
        Outside, Written, Unpacking, Grown;
      var decodedSize;
      decodedSize, g' := DecodeAndDeliver(k, op, data, t, g, foot);
      if decodedSize < 0 {
        return op, Fail(DecompressionFailed), t, g;
      }
      op', step, t' := op + decodedSize, Again, t;
      dStage := GetBlockHeader;
      if t.On? { t' := On(t.f, t.n + 1, t.rest); }
      BlockStage(t');
      BlockLogged(g');
    }

    /** Where in the internal buffer the block goes: right behind the dictionary if it is there. */
    method ChooseTmpOut()
      requires Shape() && DictShape() && Ready() && Hist(Between)
      modifies this`tmpOut, this`dict, this`dictStart, this`dictSize, tmpOutBuffer
      ensures DictShape() && Hist(Between) && tmpOut + maxBlockSize <= tmpOutBuffer.Length
      ensures dict == old(dict) && dictStart == old(dictStart)
      ensures linked ==> Min(KB64, |hist + emitted|) <= tmpOut <= |hist + emitted|
      ensures linked && dict == tmpOutBuffer ==> dictSize == tmpOut
      ensures dictSize <= old(dictSize)
    {
      hide Covers, Shape;
      Distinct();
      if linked {
        CoversLength(D(), hist + emitted);
        if dict == tmpOutBuffer {
          if dictSize > KB128 { CutDict(); }
          tmpOut := dictSize;
        } else {
          tmpOut := Min(dictSize, KB64);
        }
      }
    }

    /** The last 64 KB of a dictionary in the internal buffer, moved to its start. */
    method FrontEnd(n: nat) returns (ghost part: bytes)
      requires DictShape() && dict == tmpOutBuffer && n == KB64 && 2 * n <= dictSize && Covers(D(), hist + emitted)
      modifies tmpOutBuffer
      ensures n <= tmpOutBuffer.Length && tmpOutBuffer[..n] == part && Covers(part, hist + emitted)
      ensures |hist + emitted| >= n
    {
      hide Covers, D, DictShape;
      ghost var d := D();
      CoversLength(d, hist + emitted);
      part := TmpDict(d, n);
      CoversLast(d, hist + emitted, part);
      MoveToFront(dictSize, n, part);
    }

    /** The dictionary in the internal buffer cut to 64 KB. */
    method CutDict()
      requires Shape() && DictShape() && dict == tmpOutBuffer && dictSize > KB128 && Covers(D(), hist + emitted)
      modifies this`dict, this`dictStart, this`dictSize, tmpOutBuffer
      ensures DictShape() && dict == tmpOutBuffer && dictSize == KB64
      ensures Covers(D(), hist + emitted) && |hist + emitted| >= KB64
    {
      hide Covers, Shape, D, DictShape;
      ghost var part := FrontEnd(KB64);
      PointAtTmp(KB64, part);
      NowShaped();
    }

    /** A decoded block of `r` bytes now waits in the internal buffer. */
    method BeginFlush(r: nat)
      requires tmpOut + r <= tmpOutBuffer.Length
      modifies this`xxh, this`blockXxh, this`frameRemainingSize, this`tmpOutSize, this`tmpOutStart, this`dStage
      modifies this`made
      ensures tmpOutSize == r && tmpOutStart == 0 && dStage == FlushOut
      ensures made == old(made) + tmpOutBuffer[tmpOut..tmpOut + r]
      ensures contentSum && !skipChecksum ==> xxh == old(xxh) + tmpOutBuffer[tmpOut..tmpOut + r]
      ensures frameRemainingSize ==
              if contentSize != 0 then (old(frameRemainingSize) - r) % TWO64 else old(frameRemainingSize)
    {
      Account(tmpOutBuffer[tmpOut..tmpOut + r], false);
      tmpOutSize, tmpOutStart, dStage := r, 0, FlushOut;
      made := made + tmpOutBuffer[tmpOut..tmpOut + r];
    }

    lemma NowFlushing(r: nat, d: bytes, x: bytes, made0: bytes)
      requires DictShape() && D() == d && made0 == emitted && made == made0 + x
      requires tmpOutStart == 0 && tmpOutSize == r && tmpOut + r <= tmpOutBuffer.Length
        && x == tmpOutBuffer[tmpOut..tmpOut + r]
      requires if linked then Covers(d, hist + emitted) else dict != tmpOutBuffer && d == hist && tmpOut == 0
      requires linked ==> Min(KB64, |hist + emitted|) <= tmpOut <= |hist + emitted|
      requires linked && dict == tmpOutBuffer ==> dictSize == tmpOut
      ensures Hist(Flushing)
    {
      hide Covers;
      if linked && dict == tmpOutBuffer {
        assert tmpOutBuffer[..tmpOut + tmpOutSize] == d + x;
        assert hist + made == hist + emitted + x;
        CoversAppend(d, hist + emitted, x);
      }
    }

    lemma DictFacts(d: bytes)
      requires Hist(Between) && d == D()
      ensures made == emitted
      ensures if linked then Covers(d, hist + emitted) else dict != tmpOutBuffer && d == hist && tmpOut == 0
    {
      hide D, Covers;
    }

    /** Decodes a block to the internal buffer; the history is untouched. */
    method UnpackToTmp(data: bytes, ghost t: Track) returns (r: int)
      requires Shape() && DictShape() && Ready() && Hist(Between)
      requires t.Off? || (t.On? && Unpacking(t.f, t.n, data, t.rest))
      modifies this`tmpOut, this`dict, this`dictStart, this`dictSize, tmpOutBuffer
      ensures dict == old(dict) && dictStart == old(dictStart)
      ensures DictShape() && Hist(Between) && r <= maxBlockSize && tmpOut + maxBlockSize <= tmpOutBuffer.Length
      ensures linked ==> Min(KB64, |hist + emitted|) <= tmpOut <= |hist + emitted|
      ensures linked && dict == tmpOutBuffer ==> dictSize == tmpOut
      ensures dictSize <= old(dictSize)
      ensures t.On? ==>
        r == |t.f.blocks[t.n].content| && tmpOutBuffer[tmpOut..tmpOut + r] == t.f.blocks[t.n].content
      ensures r >= 0 ==> StandsFor(data, Base(), Base() + tmpOutBuffer[tmpOut..tmpOut + r])
    {
      hide StandsFor, Base, D, Covers, DictShape, Shape, Ready, Unpacking, IsBlockOf, Outside, Hist, Before;
      ChooseTmpOut();
      ghost var d := D();
      DictNow(d);
      DictFacts(d);
      ghost var h, content := [], [];
      if t.On? {
        UnpackingKnown(t.f, t.n, data, t.rest);
        HistoryAtHand(t.f, t.n, data, t.rest);
        h, content := Before(t.f, t.n), t.f.blocks[t.n].content;
      }
      ghost var was := tmpOutBuffer[..];
      BaseCovered();
      r := CallDecoder(data, tmpOutBuffer, tmpOut, h, content, Base());
      TmpDictKept(was, d);
      HistStill(d);
    }

    lemma HistStill(d: bytes)
      requires D() == d && made == emitted
      requires if linked then Covers(d, hist + emitted) else dict != tmpOutBuffer && d == hist && tmpOut == 0
      ensures Hist(Between)
    {
      hide Covers, D;
    }

    /** The block `x` in the internal buffer is hashed and counted, and waits to be flushed. */
    method Wait(r: nat, ghost x: bytes)
      requires DictShape() && Hist(Between) && tmpOut + r <= tmpOutBuffer.Length
        && x == tmpOutBuffer[tmpOut..tmpOut + r]
      requires linked ==> Min(KB64, |hist + emitted|) <= tmpOut <= |hist + emitted|
      requires linked && dict == tmpOutBuffer ==> dictSize == tmpOut
      modifies this`xxh, this`blockXxh, this`frameRemainingSize, this`tmpOutSize, this`tmpOutStart, this`dStage
      modifies this`made
      ensures dStage == FlushOut && Hist(Flushing) && made == old(made) + x
      ensures contentSum && !skipChecksum ==> xxh == old(xxh) + x
      ensures frameRemainingSize ==
              if contentSize != 0 then (old(frameRemainingSize) - r) % TWO64 else old(frameRemainingSize)
    {
      hide D, Covers, DictShape, Hist;
      ghost var d, made0 := D(), made;
      DictFacts(d);
      BeginFlush(r);
      NowFlushing(r, d, x, made0);
    }

    /** A block decoded to the internal buffer, hashed and counted, that waits to be flushed. */
    method DecodeAndWait(data: bytes, ghost t: Track, ghost g: Log, ghost foot: bytes) returns (r: int, ghost g': Log)
      requires Shape() && DictShape() && Ready() && Hist(Between) && ToldData(g, data, foot)
      requires t.Off? || (t.On? && Unpacking(t.f, t.n, data, t.rest))
      modifies this`xxh, this`blockXxh, this`frameRemainingSize, this`dStage, this`tmpOut, this`tmpOutSize
      modifies this`tmpOutStart
      modifies this`dict, this`dictStart, this`dictSize, this`made, tmpOutBuffer
      ensures dict == old(dict) && dictStart == old(dictStart) && dictSize <= old(dictSize)
      ensures r < 0 ==> !t.On?
      ensures r >= 0 ==>
        && dStage == FlushOut && DictShape() && Hist(Flushing) && ToldBlock(g', []) && g'.read == g.read
        && (t.On? ==> t.n < |t.f.blocks| && AtBlock(t.f, t.n + 1, t.rest))
    {
      hide ToldData, ToldBlock, StandsFor, Base, FieldsTold, FrontOk, D, Covers, DictShape, Shape, Ready, AtBlock,
        ValidFrame, InfoIs, SumsOk, Outside, Unpacking, IsBlockOf, Body, Out, Hist;
      ghost var made0, xxh0, remaining0 := made, xxh, frameRemainingSize;
      ghost var base := Base();
      if t.On? { UnpackingKnown(t.f, t.n, data, t.rest); }
      DataKnown(g, data, foot, base);
      g' := g;
      r := UnpackToTmp(data, t);
      if r < 0 { return; }
      ghost var x := tmpOutBuffer[tmpOut..tmpOut + r];
      Wait(r, x);
      if t.On? { Unpacked(t.f, t.n, t.rest, x, made0, xxh0, remaining0); }
      g' := DataHeard(g, data, foot, base, x, made0, xxh0, remaining0);
    }

    /** To the internal buffer; nothing is flushed yet. */
    method DecodeToTmp(k: Call, ip: nat, op: nat, data: bytes, ghost t: Track, ghost g: Log, ghost foot: bytes)
      returns (step: Step, ghost t': Track, ghost g': Log)
      requires Shape() && DictShape() && Ready() && Hist(Between) && Place(k, op, Between) && Written(k, op)
        && ip <= |k.src|
      requires t.Off? || (t.On? && ValidFrame(t.f) && Unpacking(t.f, t.n, data, t.rest) && Agree(k.src[ip..], t.rest))
      requires ToldData(g, data, foot)
      modifies this`xxh, this`blockXxh, this`frameRemainingSize, this`dStage, this`tmpOut, this`tmpOutSize
      modifies this`tmpOutStart
      modifies this`dict, this`dictStart, this`dictSize, this`made, tmpOutBuffer
      ensures dict == old(dict)
      ensures step.Again? ==> Logged(g') && g'.read == g.read
      ensures step.Again? || step.Fail?
      ensures step.Fail? ==> !t.On?
      ensures step.Again? ==> Inv(k, ip, op, t') && dStage == FlushOut
      ensures t.On? ==> t'.On? && t'.f == t.f && t'.rest == t.rest
      ensures !t.On? ==> t'.Off?
    {
      hide Logged, ToldData, ToldBlock, D, Covers, DictShape, Shape, Ready, Follows, Sizes, AtBlock, ValidFrame, Agree,
        Written, Unpacking, Own, Hist;
      Apart(k, op, Between);
      var decodedSize;
      decodedSize, g' := DecodeAndWait(data, t, g, foot);
      if decodedSize < 0 {
        return Fail(DecompressionFailed), t, g;
      }
      step, t' := Again, t;
      if t.On? { t' := On(t.f, t.n + 1, t.rest); }
      BlockStage(t');
      BlockLogged(g');
    }

    lemma TmpDictKept(was: bytes, d: bytes)
      requires DictShape() && Outside(was, tmpOutBuffer[..], tmpOut, tmpOut + maxBlockSize)
      requires dict == tmpOutBuffer ==> dictSize <= tmpOut
      requires if dict == tmpOutBuffer then dictStart + dictSize <= |was|
        && d == was[dictStart..dictStart + dictSize] else d == D()
      ensures D() == d
    {
    }

    // ----- dstage_flushOut -----

    lemma WaitingKnown(b: bytes)
      requires Waiting() && b == Block()
      ensures tmpOutStart <= tmpOutSize == |b| && tmpOut + tmpOutSize <= tmpOutBuffer.Length && tmpOutStart <= |emitted|
      ensures b == tmpOutBuffer[tmpOut..tmpOut + tmpOutSize]
      ensures emitted[|emitted| - tmpOutStart..] == b[..tmpOutStart] && made == emitted + b[tmpOutStart..]
    {
      assert b[tmpOutStart..] == tmpOutBuffer[tmpOut + tmpOutStart..tmpOut + tmpOutSize];
      assert b[..tmpOutStart] == tmpOutBuffer[tmpOut..tmpOut + tmpOutStart];
    }

    lemma WaitingFrom(b: bytes)
      requires tmpOut + tmpOutSize <= tmpOutBuffer.Length && b == tmpOutBuffer[tmpOut..tmpOut + tmpOutSize]
      requires tmpOutStart <= tmpOutSize && tmpOutStart <= |emitted|
      requires emitted[|emitted| - tmpOutStart..] == b[..tmpOutStart] && made == emitted + b[tmpOutStart..]
      ensures Waiting()
    {
      assert b[tmpOutStart..] == tmpOutBuffer[tmpOut + tmpOutStart..tmpOut + tmpOutSize];
      assert b[..tmpOutStart] == tmpOutBuffer[tmpOut..tmpOut + tmpOutStart];
    }

    /** memcpy of `x` into a buffer. */
    static method CopyOver(buf: array<byte>, at: nat, x: bytes)
      requires at + |x| <= buf.Length
      modifies buf
      ensures buf[at..at + |x|] == x && Outside(old(buf[..]), buf[..], at, at + |x|)
    {
      MemcpyFrom(buf, at, x, 0, |x|);
    }

    lemma OutsideWider(was: bytes, now: bytes, op: nat, to: nat, end: nat)
      requires Outside(was, now, op, to) && to <= end
      ensures Outside(was, now, op, end)
    {
    }

    /** memcpy from the internal buffer to the output. */
    method CopyWaiting(k: Call, op: nat, x: bytes)
      requires DictShape() && Shape() && Hist(Flushing) && Place(k, op, Between) && Written(k, op)
      requires k.dst != null && op + |x| <= k.end
      modifies k.dst
      ensures Hist(Flushing) && Written(k, op)
      ensures Outside(old(k.dst[..]), k.dst[..], op, k.end)
      ensures k.dst[op..op + |x|] == x
    {
      hide D, Covers, Place, DictShape, Shape, Waiting, Outside;
      PlaceFits(k, op);
      Apart(k, op, Between);
      ghost var was, d := k.dst[..], D();
      DictNow(d);
      CopyOver(k.dst, op, x);
      OutsideWider(was, k.dst[..], op, op + |x|, k.end);
      DictKept(k, op, was, d);
      WrittenKept(k, op, was);
    }

    /** The dictionary as it is once `x` has been handed over. */
    ghost predicate DictThen(x: bytes)
      reads this`linked, this`tmpOutBuffer, this`tmpOut, this`tmpOutSize, this`tmpOutStart, this`emitted, this`made
      reads this`hist, this`dict, this`dictStart, this`dictSize, tmpOutBuffer, dict
    {
      if linked then
        && Min(KB64, |hist| + |emitted| - tmpOutStart) <= tmpOut <= |hist| + |emitted| - tmpOutStart
        && FlushedTo(x)
      else
        HistFresh() && tmpOut == 0
    }

    /** The dictionary is brought up to date before the waiting bytes count as output. */
    method UpdateWaiting(k: Call, op: nat, c: nat, ghost b: bytes)
      requires Shape() && DictShape() && Ready() && Hist(Flushing) && Place(k, op, Between) && Written(k, op)
      requires k.dst != null && op + c <= k.end && tmpOutStart + c <= tmpOutSize && b == Block()
      modifies this`dict, this`dictStart, this`dictSize, tmpOutBuffer
      ensures DictShape() && Place(k, op + c, Between) && DictThen(k.dst[op..op + c])
      ensures tmpOut + tmpOutSize <= tmpOutBuffer.Length && b == tmpOutBuffer[tmpOut..tmpOut + tmpOutSize]
      ensures !linked ==> dict == old(dict)
    {
      hide D, Covers, Place, DictShape, Shape, Waiting, HistFresh, FlushedTo, Ready, Hist, HistFlushing, Written;
      Apart(k, op, Between);
      FlushBounds();
      WaitingKnown(b);
      ghost var was := tmpOutBuffer[..];
      if linked {
        LinkedRoom();
        UpdateDict(k, op, c, true);
        BlockKept(was, tmpOutBuffer[..], tmpOut, tmpOutSize);
      } else {
        PlaceFurther(k, op, c);
      }
    }

    /** dctx->tmpOutStart += sizeToCopy */
    method Advance(c: nat, ghost b: bytes, ghost x: bytes)
      requires tmpOut + tmpOutSize <= tmpOutBuffer.Length && b == tmpOutBuffer[tmpOut..tmpOut + tmpOutSize]
      requires tmpOutStart + c <= tmpOutSize && x == b[tmpOutStart..tmpOutStart + c] && DictThen(x)
      requires tmpOutStart <= |emitted| && emitted[|emitted| - tmpOutStart..] == b[..tmpOutStart]
      requires made == emitted + b[tmpOutStart..]
      modifies this`tmpOutStart, this`emitted
      ensures tmpOutStart == old(tmpOutStart) + c && emitted == old(emitted) + x && Hist(Flushing)
    {
      hide Covers, D, DictThen, Waiting, DictAfter;
      HandOver(b, tmpOutStart, c, emitted, made);
      MoveOn(c, x);
      WaitingFrom(b);
      HistAgain();
    }

    /** The dictionary fits the history with some of a block not flushed yet. */
    ghost predicate DictAfter()
      reads this`linked, this`tmpOutBuffer, this`tmpOut, this`tmpOutSize, this`tmpOutStart, this`emitted, this`made
      reads this`hist, this`dict, this`dictStart, this`dictSize, tmpOutBuffer, dict
    {
      if linked then HistFlushing() else HistFresh() && tmpOut == 0
    }

    lemma HistAgain()
      requires Waiting() && DictAfter()
      ensures Hist(Flushing)
    {
    }

    method MoveOn(c: nat, ghost x: bytes)
      requires DictThen(x) && |x| == c && tmpOutStart <= |emitted| && tmpOut + tmpOutSize <= tmpOutBuffer.Length
      modifies this`tmpOutStart, this`emitted
      ensures tmpOutStart == old(tmpOutStart) + c && emitted == old(emitted) + x && DictAfter()
    {
      hide Covers, D, HistFresh;
      assert hist + emitted + x == hist + (emitted + x);
      tmpOutStart, emitted := tmpOutStart + c, emitted + x;
    }

    /** `c` waiting bytes become part of the output. */
    method FlushSome(k: Call, op: nat, c: nat)
      requires Shape() && DictShape() && Ready() && Hist(Flushing) && Place(k, op, Between) && Written(k, op)
      requires k.dst != null && op + c <= k.end && tmpOutStart + c <= tmpOutSize
      modifies this`dict, this`dictStart, this`dictSize, this`emitted, this`tmpOutStart, tmpOutBuffer, k.dst
      ensures DictShape() && Hist(Flushing) && Place(k, op + c, Between) && Written(k, op + c)
      ensures tmpOutStart == old(tmpOutStart) + c
      ensures Grown(old(emitted), k, op, op + c) && Outside(old(k.dst[..]), k.dst[..], op, k.end)
      ensures !linked ==> dict == old(dict)
    {
      hide D, Covers, Place, DictShape, Shape, Ready, Waiting, Outside, HistFresh, Hist, DictThen;
      PlaceFits(k, op);
      Apart(k, op, Between);
      HistWaiting();
      ghost var b, start := Block(), tmpOutStart;
      WaitingKnown(b);
      SubSlice(tmpOutBuffer[..], tmpOut, tmpOut + tmpOutSize, start, start + c);
      CopyWaiting(k, op, tmpOutBuffer[tmpOut + tmpOutStart..tmpOut + tmpOutStart + c]);
      EndOfEmitted(k, op, c);
      HistWaiting();
      UpdateWaiting(k, op, c, b);
      Advance(c, b, b[start..start + c]);
    }

    lemma LinkedRoom()
      requires Ready() && linked
      ensures KB64 + KB128 <= maxBufferSize
    {
    }

    lemma FlushBounds()
      requires Hist(Flushing)
      ensures Waiting() && tmpOutStart <= tmpOutSize
      ensures linked ==>
        HistFlushing() && Min(KB64, |hist| + |emitted| - tmpOutStart) <= tmpOut <= |hist| + |emitted| - tmpOutStart
      ensures !linked ==> HistFresh() && tmpOut == 0
    {
      hide Covers, D;
    }

    lemma HistWaiting()
      requires Hist(Flushing)
      ensures Waiting()
    {
      hide Waiting;
    }

    /** Once all is flushed, what was going to be history is history. */
    lemma FlushDone()
      requires DictShape() && Hist(Flushing) && tmpOutStart == tmpOutSize
      ensures Hist(Between)
    {
      hide Covers;
      assert made == emitted;
      if linked && dict == tmpOutBuffer {
        assert D() == tmpOutBuffer[..tmpOut + tmpOutSize];
      }
    }

    /** dstage_flushOut */
    method StepFlush(k: Call, ip: nat, op: nat, ghost t: Track, ghost g: Log) returns (op': nat, step: Step)
      requires Inv(k, ip, op, t) && dStage == FlushOut && Logged(g)
      modifies this`dStage
      modifies this`dict, this`dictStart, this`dictSize, this`emitted, this`tmpOutStart, tmpOutBuffer, k.dst
      ensures !step.Fail? && op <= op' && Inv(k, ip, op', t) && Logged(g)
      ensures Grown(old(emitted), k, op, op')
      ensures k.dst != null ==> Outside(old(k.dst[..]), k.dst[..], op, k.end)
      ensures step.Again? ==> dStage == GetBlockHeader
      ensures step.Stop? ==> step.hint > 0 && op' == k.end
      ensures !linked ==> dict == old(dict)
      ensures !step.Fail? ==> !PhaseOf(dStage).Fresh?
      ensures step.Stop? ==> Rests() && (step.hint > 0 ==> step.hint == Wanted())
    {
      hide Logged, ToldBlock, D, Covers, DictShape, Shape, Ready, HistFresh, Follows, Sizes, AtBlock, ValidFrame,
        Agree, Outside, Written,
        Waiting, HistFlushing, Own, Hist;
      BlockStage(t);
      BlockLogged(g);
      PlaceFits(k, op);
      FlushBounds();
      op' := op;
      if k.dst != null {
        var sizeToCopy := Min(tmpOutSize - tmpOutStart, k.end - op);
        FlushSome(k, op, sizeToCopy);
        op' := op + sizeToCopy;
      }
      if tmpOutStart == tmpOutSize {
        FlushDone();
        dStage := GetBlockHeader;
        BlockStage(t);
        BlockLogged(g);
        return op', Again;
      }
      BlockStage(t);
      BlockLogged(g);
      step := Stop(BLOCK_HEADER);
    }

    // ----- dstage_getCBlock, dstage_storeCBlock -----

    lemma StorePackedStage(t: Track)
      requires dStage == StoreCBlock
      ensures Follows(t) <==>
              t.Off? || (t.On? && ValidFrame(t.f) && tmpInSize <= tmpIn.Length
                         && AtPacked(t.f, t.n, tmpIn[..tmpInSize] + t.rest))
      ensures Sizes() <==>
              && Ready() && 4 * Bit(blockSum) < tmpInTarget <= maxBlockSize + 4 * Bit(blockSum)
              && tmpInSize < tmpInTarget
    {
      hide ValidFrame, AtPacked, Ready;
    }

    /** The whole data of a compressed block, from the input or gathered in `tmpIn`. */
    method TakeCBlock(k: Call, ip: nat) returns (ip': nat, selected: Option<bytes>)
      requires dStage == GetCBlock || dStage == StoreCBlock
      requires ip <= |k.src| && 0 < tmpInTarget <= tmpIn.Length && (dStage == StoreCBlock ==> tmpInSize < tmpInTarget)
      modifies this`tmpInSize, this`dStage, tmpIn
      ensures ip <= ip' <= |k.src| && (dStage == GetCBlock || dStage == StoreCBlock)
      ensures var held := if old(dStage) == GetCBlock then [] else old(tmpIn[..tmpInSize]);
        match selected
        case Some(s) => |s| == tmpInTarget && s == held + k.src[ip..ip'] && ip < ip'
        case None =>
          && dStage == StoreCBlock && tmpInSize < tmpInTarget && tmpIn[..tmpInSize] == held + k.src[ip..ip']
          && if old(dStage) == GetCBlock then ip' == ip else ip' == |k.src|
    {
      if dStage == GetCBlock {
        if |k.src| - ip < tmpInTarget {
          tmpInSize, dStage := 0, StoreCBlock;
          return ip, None;
        }
        return ip + tmpInTarget, Some(k.src[ip..ip + tmpInTarget]);
      }
      var c := Store(tmpIn, tmpInSize, tmpInTarget, k, ip);
      tmpInSize := tmpInSize + c;
      ip' := ip + c;
      if tmpInSize < tmpInTarget { return ip', None; }
      selected := Some(tmpIn[..tmpInTarget]);
    }

    lemma PackedLength(f: Frame, n: nat, whole: bytes)
      requires AtPacked(f, n, whole)
      ensures tmpInTarget <= |whole|
    {
      hide SumsOk, InfoIs, Body, LE32, ValidFrame;
      InfoFrame(f);
    }

    /** The gathered bytes are data and checksum of the block. */
    lemma PackedKnown(f: Frame, n: nat, selected: bytes, rest: bytes)
      requires AtPacked(f, n, selected + rest) && |selected| == tmpInTarget
      ensures var size := tmpInTarget - 4 * Bit(blockSum);
        && 0 <= size && size <= |selected| && Unpacking(f, n, selected[..size], rest)
        && (blockSum ==> ReadLE32(selected, size) == Digest(selected[..size]))
    {
      hide SumsOk, InfoIs, Body, LE32, ValidFrame, Digest, ReadLE32, Out;
      InfoFrame(f);
      var data, foot := f.blocks[n].data, Footer(blockSum, f.blocks[n].data);
      var size := tmpInTarget - 4 * Bit(blockSum);
      assert |data| == size;
      var whole := data + (foot + Body(f, n + 1));
      assert whole == data + foot + Body(f, n + 1);
      assert selected == whole[..tmpInTarget] == data + foot;
      assert rest == whole[tmpInTarget..] == Body(f, n + 1);
      assert selected[..size] == data;
      if blockSum {
        assert selected[size..size + 4] == foot;
        LE32Read(selected, size, Digest(data));
      }
    }

    lemma PackedOpen(k: Call, ip: nat, op: nat, t: Track)
      requires Inv(k, ip, op, t) && (dStage == GetCBlock || dStage == StoreCBlock)
      ensures Shape() && DictShape() && Ready() && Hist(Between) && Place(k, op, Between) && Written(k, op)
        && ip <= |k.src|
      ensures 4 * Bit(blockSum) < tmpInTarget <= maxBlockSize + 4 * Bit(blockSum) && tmpInTarget <= tmpIn.Length
      ensures dStage == StoreCBlock ==> tmpInSize < tmpInTarget
      ensures tmpIn != tmpOutBuffer && tmpIn != header && k.dst != tmpIn && dict != tmpIn
      ensures t.Off? || (t.On? && ValidFrame(t.f) && Agree(k.src[ip..], t.rest))
      ensures t.On? ==> AtPacked(t.f, t.n, (if dStage == GetCBlock then [] else tmpIn[..tmpInSize]) + t.rest)
    {
      hide D, Covers, Own, DictShape, Shape, HistFresh, Follows, Sizes, AtPacked, ValidFrame, Agree, Written;
      assert t.On? ==> [] + t.rest == t.rest;
      if dStage == GetCBlock { PackedStage(t); } else { StorePackedStage(t); }
      Apart(k, op, Between);
    }

    method FetchCBlock(k: Call, ip: nat, op: nat, ghost t: Track, ghost g: Log)
        returns (ip': nat, selected: Option<bytes>, ghost t': Track, ghost g': Log)
      requires Inv(k, ip, op, t) && (dStage == GetCBlock || dStage == StoreCBlock) && Logged(g)
      modifies this`tmpInSize, this`dStage, tmpIn
      ensures ip <= ip' <= |k.src| && Next(t, t', ip' - ip) && !t'.Done?
      ensures dStage == GetCBlock || dStage == StoreCBlock
      ensures Shape() && DictShape() && Ready() && Hist(Between) && Place(k, op, Between) && Written(k, op)
      ensures 4 * Bit(blockSum) < tmpInTarget <= maxBlockSize + 4 * Bit(blockSum)
      ensures t'.Off? || (t'.On? && ValidFrame(t'.f) && Agree(k.src[ip'..], t'.rest))
      ensures selected.Some? ==> |selected.value| == tmpInTarget && ip < ip'
      ensures selected.Some? && t'.On? ==> AtPacked(t'.f, t'.n, selected.value + t'.rest)
      ensures selected.None? ==> dStage == StoreCBlock && Inv(k, ip', op, t') && tmpInSize < tmpInTarget
      ensures selected.None? ==> if old(dStage) == GetCBlock then ip' == ip else ip' == |k.src|
      ensures Heard(g, g', k, ip, ip') && (selected.None? ==> Logged(g'))
      ensures selected.Some? ==> ToldPacked(g', selected.value)
    {
      hide Logged, ToldPacked, D, Covers, Place, DictShape, Shape, Ready, HistFresh, Follows, Sizes, AtPacked,
        ValidFrame, Agree, Written,
        Hist, Inv;
      PackedOpen(k, ip, op, t);
      PackedLogged(g);
      ghost var held := if dStage == GetCBlock then [] else tmpIn[..tmpInSize];
      ip', selected := TakeCBlock(k, ip);
      t', g' := t, MoreRead(g, k.src[ip..ip']);
      PackedMore(g, held, k.src[ip..ip']);
      if t.On? {
        PackedLength(t.f, t.n, held + t.rest);
        Stored(held, k.src, ip, t.rest, ip' - ip, held + t.rest);
        t' := On(t.f, t.n, t.rest[ip' - ip..]);
      }
      if selected.None? {
        StorePackedStage(t');
        PackedLogged(g');
        PackedClose(k, ip', op, t');
      }
    }

    lemma PackedMore(g: Log, x: bytes, y: bytes)
      requires ToldPacked(g, x)
      ensures ToldPacked(MoreRead(g, y), x + y)
    {
      hide ToldBlock, LE32, FieldsTold;
      InfoBound(g);
      var n := LE32(tmpInTarget - 4 * Bit(blockSum));
      BlockMore(g, n + x, y);
      assert n + x + y == n + (x + y);
    }

    lemma InfoBound(g: Log)
      requires FieldsTold(g.info)
      ensures maxBlockSize <= 64 * KB64
    {
    }

    /** Data and checksum of a compressed block are in hand. */
    lemma PackedData(g: Log, selected: bytes, data: bytes, foot: bytes)
      requires ToldPacked(g, selected) && |selected| == tmpInTarget
      requires |data| == tmpInTarget - 4 * Bit(blockSum) && data == selected[..|data|] && foot == selected[|data|..]
      requires blockSum ==> ReadLE32(foot, 0) == Digest(data)
      ensures ToldData(g, data, foot)
    {
      hide ToldBlock, LE32, FieldsTold, Digest, ReadLE32;
      InfoBound(g);
      if blockSum { LE32Written(foot); }
      assert selected == data + foot;
      assert LE32(|data|) + (data + foot) == (LE32(|data|) + data) + foot;
    }

    lemma PackedClose(k: Call, ip: nat, op: nat, t: Track)
      requires dStage == StoreCBlock && Follows(t) && Sizes()
      requires Shape() && DictShape() && Hist(Between) && Place(k, op, Between) && Written(k, op) && ip <= |k.src|
      requires t.On? ==> Agree(k.src[ip..], t.rest)
      ensures Inv(k, ip, op, t)
    {
      hide D, Place, DictShape, Shape, Follows, Sizes, Agree, Written, Hist;
    }

    lemma FootRead(s: bytes, n: nat)
      requires n <= |s|
      ensures n + 4 <= |s| ==> ReadLE32(s[n..], 0) == ReadLE32(s, n)
    {
    }

    /** A block is in hand: its checksum, then its content. */
    method Unpack(k: Call, ip: nat, op: nat, selected: bytes, ghost t: Track, ghost g: Log)
      returns (op': nat, step: Step, ghost t': Track, ghost g': Log)
      requires Shape() && DictShape() && Ready() && Hist(Between) && Place(k, op, Between) && Written(k, op)
        && ip <= |k.src|
      requires dStage == GetCBlock || dStage == StoreCBlock
      requires 4 * Bit(blockSum) < tmpInTarget && |selected| == tmpInTarget && ToldPacked(g, selected)
      requires t.Off?
        || (t.On? && ValidFrame(t.f) && Agree(k.src[ip..], t.rest) && AtPacked(t.f, t.n, selected + t.rest))
      modifies this`xxh, this`blockXxh, this`frameRemainingSize, this`dStage, this`tmpInTarget
      modifies this`tmpOut, this`tmpOutSize, this`tmpOutStart
      modifies this`dict, this`dictStart, this`dictSize, this`emitted, this`made, tmpOutBuffer, k.dst
      ensures step.Fail? ==> !t.On?
      ensures !step.Fail? ==> Logged(g') && g'.read == g.read
      ensures !step.Fail? ==> op <= op' && Inv(k, ip, op', t') && Grown(old(emitted), k, op, op')
      ensures t.On? ==> t'.On? && t'.f == t.f && t'.rest == t.rest
      ensures !t.On? ==> t'.Off?
      ensures !step.Fail? && k.dst != null ==> Outside(old(k.dst[..]), k.dst[..], op, k.end)
      ensures step.Again? ==> dStage == GetBlockHeader
      ensures step.Stop? ==> step.hint > 0 && op' == k.end
      ensures !linked ==> dict == old(dict)
      ensures !step.Fail? ==> !PhaseOf(dStage).Fresh?
      ensures step.Stop? ==> Rests() && (step.hint > 0 ==> step.hint == Wanted())
    {
      hide Logged, ToldPacked, ToldData, Footer, D, Covers, Place, DictShape, Shape, Ready, HistFresh, Follows, Sizes,
        AtPacked, ValidFrame, Agree, Written,
        Hist, Inv, Unpacking, Outside, Digest, ReadLE32;
      if t.On? { PackedKnown(t.f, t.n, selected, t.rest); }
      PlaceFits(k, op);
      Apart(k, op, Between);
      NoWrites(k, op);
      var size: nat := tmpInTarget - BLOCK_FOOTER * Bit(blockSum);
      if blockSum && ReadLE32(selected, size) != Digest(selected[..size]) {
        return op, Fail(BlockChecksumInvalid), t, g;
      }
      var data := selected[..size];
      ghost var foot := selected[size..];
      FootRead(selected, size);
      PackedData(g, selected, data, foot);
      tmpInTarget := size;
      if k.end - op >= maxBlockSize && !(dict == tmpOutBuffer && dictSize == tmpOut) {
        RoomMeansBuffer(k, op);
        op', step, t', g' := DecodeDirect(k, ip, op, data, t, g, foot);
        return;
      }
      step, t', g' := DecodeToTmp(k, ip, op, data, t, g, foot);
      op' := op;
      if step.Again? {
        op', step := StepFlush(k, ip, op, t', g');
      }
    }

    lemma RoomMeansBuffer(k: Call, op: nat)
      requires Place(k, op, Between) && Ready() && k.end - op >= maxBlockSize
      ensures k.dst != null
    {
    }

    /** dstage_getCBlock, dstage_storeCBlock */
    method StepCBlock(k: Call, ip: nat, op: nat, ghost t: Track, ghost g: Log)
        returns (ip': nat, op': nat, step: Step, ghost t': Track, ghost g': Log)
      requires Inv(k, ip, op, t) && (dStage == GetCBlock || dStage == StoreCBlock) && Logged(g)
      modifies this`xxh, this`blockXxh, this`frameRemainingSize, this`dStage, this`tmpInTarget, this`tmpInSize
      modifies this`tmpOut, this`tmpOutSize, this`tmpOutStart
      modifies this`dict, this`dictStart, this`dictSize, this`emitted, this`made, tmpIn, tmpOutBuffer, k.dst
      ensures step.Fail? ==> !t.On?
      ensures !step.Fail? ==> Logged(g') && Heard(g, g', k, ip, ip')
      ensures !step.Fail? ==> ip <= ip' && op <= op' && Inv(k, ip', op', t') && Grown(old(emitted), k, op, op')
      ensures !step.Fail? ==> Next(t, t', ip' - ip) && !t'.Done?
      ensures !step.Fail? && k.dst != null ==> Outside(old(k.dst[..]), k.dst[..], op, k.end)
      ensures step.Again? ==>
        (ip < ip' && dStage == GetBlockHeader) || (old(dStage) == GetCBlock && dStage == StoreCBlock)
      ensures step.Stop? ==> step.hint > 0 && (ip' == |k.src| || op' == k.end)
      ensures !linked ==> dict == old(dict)
      ensures !step.Fail? ==> !PhaseOf(dStage).Fresh?
      ensures step.Stop? ==> Rests() && (step.hint > 0 ==> step.hint == Wanted())
    {
      hide Logged, ToldPacked, Heard, Next, D, Covers, Place, DictShape, Shape, Ready, HistFresh, Follows, Sizes,
        AtPacked, ValidFrame, Agree, Written,
        Hist, Inv, Outside, Grown;
      var first := dStage == GetCBlock;
      PackedOpen(k, ip, op, t);
      PlaceFits(k, op);
      var selected;
      ghost var t1, g1;
      ip', selected, t1, g1 := FetchCBlock(k, ip, op, t, g);
      StillOn(t, t1, ip' - ip);
      NoWrites(k, op);
      if selected.None? {
        op', t', g' := op, t1, g1;
        step := if first then Again
                else Stop(tmpInTarget - tmpInSize + BLOCK_FOOTER * Bit(blockSum) + BLOCK_HEADER);
        return;
      }
      op', step, t', g' := Unpack(k, ip', op, selected.value, t1, g1);
      if !step.Fail? {
        HeardSame(g, g1, g', k, ip, ip');
        NextSame(t, t1, t', ip' - ip);
      }
    }

    lemma NoWrites(k: Call, op: nat)
      requires k.dst != null ==> op <= k.dst.Length
      ensures Grown(emitted, k, op, op)
      ensures k.dst != null ==> Outside(k.dst[..], k.dst[..], op, k.end)
    {
    }

    // ----- The end of a call -----

    /** The dictionary does not depend on memory of the caller. */
    ghost predicate Home()
      reads this`dStage, this`linked, this`dict, this`tmpOutBuffer, this`lent
    {
      dict == null || dict == tmpOutBuffer || dict == lent || PhaseOf(dStage).Over?
        || (linked && !PhaseOf(dStage).Fresh?)
    }

    /** The dictionary stays at hand when the caller's buffer goes away. */
    ghost predicate Settled()
      reads this`dStage, this`dict, this`tmpOutBuffer, this`lent
    {
      dict == null || dict == tmpOutBuffer || dict == lent || PhaseOf(dStage).Over?
    }

    /** The last 64 KB of the dictionary at the start of the internal buffer. */
    method CopyDictEnd() returns (n: nat, ghost part: bytes)
      requires Shape() && DictShape() && Hist(Between) && Ready() && linked && dict != null && dict != tmpOutBuffer
      modifies tmpOutBuffer
      ensures n <= tmpOutBuffer.Length && tmpOutBuffer[..n] == part
      ensures Covers(part, hist + emitted)
    {
      hide Covers, Shape, Hist, Ready, D, DictShape;
      Distinct();
      LinkedRoom();
      ghost var d := D();
      DictFacts(d);
      CoversLength(d, hist + emitted);
      n := Min(dictSize, KB64);
      var from := dictStart + dictSize - n;
      part := EndOfDict(d, from, n);
      CoversLast(d, hist + emitted, part);
      CopyFromDict(0, from, n, part);
      assert tmpOutBuffer[..n] == tmpOutBuffer[0..n];
    }

    /** The whole dictionary is already part of history: its last 64 KB move to the internal buffer. */
    method MoveDict()
      requires Shape() && DictShape() && Hist(Between) && Ready() && linked && dict != null && dict != tmpOutBuffer
      modifies this`dict, this`dictStart, this`dictSize, this`tmpOut, tmpOutBuffer
      ensures DictShape() && Hist(Between) && dict == tmpOutBuffer
    {
      hide Covers, Shape, Hist, Ready, D, DictShape;
      DictFacts(D());
      var newDictSize;
      ghost var part;
      newDictSize, part := CopyDictEnd();
      PointAtTmp(newDictSize, part);
      tmpOut := newDictSize;
      NowCovered(part);
      NowShaped();
    }

    lemma NowShaped()
      requires Shape() && dict == tmpOutBuffer && dictStart == 0 && dictSize <= tmpOutBuffer.Length
      ensures DictShape()
    {
    }

    lemma EndOfDict(d: bytes, from: nat, n: nat) returns (part: bytes)
      requires DictShape() && dict != null && d == D() && n <= dictSize && from == dictStart + dictSize - n
      ensures |d| == dictSize && from + n <= dict.Length && dict[from..from + n] == part && part == d[|d| - n..]
    {
      assert |d| == dictSize;
      EndSlice(dict[..], dictStart, d, n);
      part := d[|d| - n..];
    }

    lemma NowCovered(d: bytes)
      requires D() == d && linked && made == emitted && Covers(d, hist + emitted)
      ensures Hist(Between)
    {
      hide Covers, D;
    }

    lemma PlaceTmp(k: Call, op: nat, p: Phase)
      requires Own(k, op) && dict == tmpOutBuffer
      ensures Place(k, op, p)
    {
    }

    lemma PlaceOwn(k: Call, op: nat, p: Phase)
      requires Place(k, op, p)
      ensures Own(k, op)
    {
      hide Own;
    }

    /** In the middle of a flush: what the waiting block will need moves in front of it. */
    method MoveFront()
      requires Shape() && DictShape() && Hist(Flushing) && linked && dict != null && dict != tmpOutBuffer
      modifies this`dict, this`dictStart, this`dictSize, tmpOutBuffer
      ensures DictShape() && Hist(Flushing) && dict == tmpOutBuffer
    {
      hide Covers, Shape, D, Waiting;
      FlushBounds();
      ghost var b, was := Block(), tmpOutBuffer[..];
      WaitingKnown(b);
      PreserveFront(0);
      BlockKept(was, tmpOutBuffer[..], tmpOut, tmpOutSize);
      WaitingFrom(b);
    }

    /** "preserve history within tmpOut whenever necessary" */
    method PreserveHistory(k: Call, ip: nat, op: nat, stableDst: bool, ghost t: Track)
      requires Inv(k, ip, op, t) && dStage != Init
      modifies this`dict, this`dictStart, this`dictSize, this`tmpOut, tmpOutBuffer
      ensures Inv(k, ip, op, t)
      ensures !stableDst && old(Home()) ==> Settled()
      ensures linked && !stableDst && !PhaseOf(dStage).Fresh? ==> Settled()
    {
      hide D, Covers, DictShape, Shape, Ready, HistFresh, Sizes, ValidFrame, Agree, Written, Hist, Place, Own, Follows;
      if linked && dict != tmpOutBuffer && dict != null && !stableDst
         && dStage != GetFrameHeader && dStage != StoreFrameHeader && !PhaseOf(dStage).Over? {
        Apart(k, op, PhaseOf(dStage));
        PlaceOwn(k, op, PhaseOf(dStage));
        RoomIn();
        if dStage == FlushOut {
          MoveFront();
        } else {
          MoveDict();
        }
        PlaceTmp(k, op, PhaseOf(dStage));
      }
    }

    // ----- LZ4F_decompress -----

    /** The passes that read nothing go to stages that do. */
    static function Rank(s: Stage): nat {
      if s == CopyDirect || s == FlushOut || s == GetCBlock then 1 else 0
    }

    /** While the frame goes on, its dictionary stays and so does the choice to check, and a call says how
        much it wants; when it ends, what has been read is a frame, whatever the input. */
    ghost predicate Outcome(g: Log, step: Step, dict0: bytes, skip0: bool)
      reads this`hist, this`skipChecksum, this`emitted, this`dStage, this`tmpInTarget, this`tmpInSize, this`blockSum
    {
      if step == Stop(0) then WasFrame(g.read, dict0, !skip0, emitted)
      else hist == dict0 && skipChecksum == skip0 && (step.Stop? ==> step.hint == Wanted())
    }

    /** Content that waits. */
    method PassFlush(k: Call, ip: nat, op: nat, ghost t: Track, ghost g: Log)
        returns (ip': nat, op': nat, step: Step, ghost t': Track, ghost g': Log)
      requires Inv(k, ip, op, t) && !t.Done? && Logged(g)
      requires dStage == FlushOut
      modifies this, header, tmpIn, tmpOutBuffer, k.dst
      ensures lent == old(lent)
      ensures step.Fail? ==> !t.On?
      ensures !step.Fail? ==> Logged(g') && Heard(g, g', k, ip, ip')
      ensures !step.Fail? ==> Outcome(g', step, old(hist), old(skipChecksum))
      ensures !step.Fail? ==>
        && ip <= ip' && op <= op' && Inv(k, ip', op', t') && Next(t, t', ip' - ip)
        && Grown(old(emitted), k, op, op') && (old(Home()) ==> Home())
      ensures !step.Fail? && k.dst != null ==> Outside(old(k.dst[..]), k.dst[..], op, k.end)
      ensures tmpIn == old(tmpIn) && tmpOutBuffer == old(tmpOutBuffer)
      ensures step.Again? ==>
        !t'.Done? && dStage != GetFrameHeader && (ip < ip' || Rank(dStage) < Rank(old(dStage)))
      ensures step.Stop? ==>
        && (step.hint == 0 ==> dStage == GetFrameHeader) && Rests()
        && (step.hint == 0 || ip' == |k.src| || op' == k.end)
        && (t.On? ==> (step.hint == 0 <==> t'.Done?))
      ensures step.Stop? && dStage == GetFrameHeader ==>
        step.hint == 0 || (old(dStage) == GetFrameHeader && ip == |k.src|)
    {
      hide Logged, Inv, Grown, Outside, Rests;
      assert t.On? ==> t.rest[0..] == t.rest;
      CallFits(k, ip, op, t);
      op', step := StepFlush(k, ip, op, t, g);
      ip', t', g' := ip, t, g;
    }

    /** The stages that bring content out. */
    method PassContent(k: Call, ip: nat, op: nat, ghost t: Track, ghost g: Log)
        returns (ip': nat, op': nat, step: Step, ghost t': Track, ghost g': Log)
      requires Inv(k, ip, op, t) && !t.Done? && Logged(g)
      requires dStage == CopyDirect || dStage == GetCBlock || dStage == StoreCBlock || dStage == FlushOut
      modifies this, header, tmpIn, tmpOutBuffer, k.dst
      ensures lent == old(lent)
      ensures step.Fail? ==> !t.On?
      ensures !step.Fail? ==> Logged(g') && Heard(g, g', k, ip, ip')
      ensures !step.Fail? ==> Outcome(g', step, old(hist), old(skipChecksum))
      ensures !step.Fail? ==>
        && ip <= ip' && op <= op' && Inv(k, ip', op', t') && Next(t, t', ip' - ip)
        && Grown(old(emitted), k, op, op') && (old(Home()) ==> Home())
      ensures !step.Fail? && k.dst != null ==> Outside(old(k.dst[..]), k.dst[..], op, k.end)
      ensures tmpIn == old(tmpIn) && tmpOutBuffer == old(tmpOutBuffer)
      ensures step.Again? ==>
        !t'.Done? && dStage != GetFrameHeader && (ip < ip' || Rank(dStage) < Rank(old(dStage)))
      ensures step.Stop? ==>
        && (step.hint == 0 ==> dStage == GetFrameHeader) && Rests()
        && (step.hint == 0 || ip' == |k.src| || op' == k.end)
        && (t.On? ==> (step.hint == 0 <==> t'.Done?))
      ensures step.Stop? && dStage == GetFrameHeader ==>
        step.hint == 0 || (old(dStage) == GetFrameHeader && ip == |k.src|)
    {
      hide Logged, Inv, Grown, Outside, Rests, Heard, Next, WasFrame, Wanted;
      if dStage == CopyDirect {
        ip', op', step, t', g' := StepCopyDirect(k, ip, op, t, g);
      } else if dStage == FlushOut {
        ip', op', step, t', g' := PassFlush(k, ip, op, t, g);
      } else {
        ip', op', step, t', g' := StepCBlock(k, ip, op, t, g);
      }
    }

    /** The stages behind the last block and those of skippable frames. */
    method PassEnd(k: Call, ip: nat, op: nat, ghost t: Track, ghost g: Log)
      returns (ip': nat, step: Step, ghost t': Track, ghost g': Log)
      requires Logged(g)
      requires Inv(k, ip, op, t) && !t.Done? && PhaseOf(dStage).Over?
      modifies this`tmpInSize, this`tmpInTarget, this`dStage, this`contentSize
      modifies this`dict, this`dictStart, this`dictSize, this`skipChecksum, this`hist, header, tmpIn
      ensures step.Fail? ==> !t.On?
      ensures !step.Fail? ==> Logged(g') && Heard(g, g', k, ip, ip')
      ensures !step.Fail? ==> Outcome(g', step, old(hist), old(skipChecksum))
      ensures !step.Fail? ==> ip <= ip' && Inv(k, ip', op, t') && Next(t, t', ip' - ip) && Home()
      ensures step.Again? ==>
        !t'.Done? && dStage != GetFrameHeader && (ip < ip' || Rank(dStage) < Rank(old(dStage)))
      ensures step.Stop? ==>
        && (step.hint == 0 ==> dStage == GetFrameHeader) && Rests()
        && (step.hint == 0 || ip' == |k.src| || op == k.end)
        && (t.On? ==> (step.hint == 0 <==> t'.Done?))
      ensures step.Stop? && dStage == GetFrameHeader ==>
        step.hint == 0 || (old(dStage) == GetFrameHeader && ip == |k.src|)
    {
      hide Logged, Inv, Heard, Next, Rests, WasFrame, Wanted, LE32, Digest;
      if dStage == GetSuffix || dStage == StoreSuffix {
        ip', step, t', g' := StepSuffix(k, ip, op, t, g);
      } else if dStage == SkipSkippable {
        ip', step, t', g' := StepSkip(k, ip, op, t, g);
      } else {
        ip', step, t', g' := StepSFrameSize(k, ip, op, t, g);
      }
    }

    /** The stages of the frame header. */
    method PassHeader(k: Call, ip: nat, op: nat, ghost t: Track, ghost g: Log)
      returns (ip': nat, step: Step, ghost t': Track, ghost g': Log)
      requires Logged(g)
      requires Inv(k, ip, op, t) && !t.Done? && (dStage == GetFrameHeader || dStage == StoreFrameHeader)
      requires emitted == [] && made == [] && (dStage == GetFrameHeader ==> g.read == [])
      modifies this`linked, this`blockSum, this`contentSum, this`maxBlockSize, this`contentSize, this`frameRemainingSize
      modifies this`tmpInSize, this`tmpInTarget, this`dStage, header
      ensures step.Fail? ==> !t.On?
      ensures !step.Fail? ==> Logged(g') && Heard(g, g', k, ip, ip')
      ensures !step.Fail? ==> Outcome(g', step, old(hist), old(skipChecksum))
      ensures !step.Fail? ==>
        ip <= ip' && Inv(k, ip', op, t') && Next(t, t', ip' - ip) && (old(Home()) ==> Home())
      ensures step.Again? ==>
        !t'.Done? && dStage != GetFrameHeader && (ip < ip' || Rank(dStage) < Rank(old(dStage)))
      ensures step.Stop? ==>
        && (step.hint == 0 ==> dStage == GetFrameHeader) && Rests()
        && (step.hint == 0 || ip' == |k.src| || op == k.end)
        && (t.On? ==> (step.hint == 0 <==> t'.Done?))
      ensures step.Stop? && dStage == GetFrameHeader ==>
        step.hint == 0 || (old(dStage) == GetFrameHeader && ip == |k.src|)
    {
      hide Logged, Inv;
      CallFits(k, ip, op, t);
      ip', step, t', g' := StepFrameHeader(k, ip, op, t, g);
    }

    /** The stages around block headers. */
    method PassBlock(k: Call, ip: nat, op: nat, ghost t: Track, ghost g: Log)
      returns (ip': nat, step: Step, ghost t': Track, ghost g': Log)
      requires Logged(g)
      requires Inv(k, ip, op, t) && !t.Done?
      requires dStage == Init || dStage == GetBlockHeader || dStage == StoreBlockHeader || dStage == GetBlockChecksum
      modifies this`xxh, this`maxBufferSize, this`tmpIn, this`tmpOutBuffer, this`tmpInSize, this`tmpInTarget
      modifies this`tmpOut, this`tmpOutStart, this`tmpOutSize, this`dStage, this`blockXxh, tmpIn, header
      ensures step.Fail? ==> !t.On?
      ensures !step.Fail? ==> Logged(g') && Heard(g, g', k, ip, ip')
      ensures !step.Fail? ==> Outcome(g', step, old(hist), old(skipChecksum))
      ensures !step.Fail? ==>
        ip <= ip' && Inv(k, ip', op, t') && Next(t, t', ip' - ip) && (old(Home()) ==> Home())
      ensures tmpIn == old(tmpIn) || fresh(tmpIn)
      ensures tmpOutBuffer == old(tmpOutBuffer) || fresh(tmpOutBuffer)
      ensures step.Again? ==>
        !t'.Done? && dStage != GetFrameHeader && (ip < ip' || Rank(dStage) < Rank(old(dStage)))
      ensures step.Stop? ==>
        && (step.hint == 0 ==> dStage == GetFrameHeader) && Rests()
        && (step.hint == 0 || ip' == |k.src| || op == k.end)
        && (t.On? ==> (step.hint == 0 <==> t'.Done?))
      ensures step.Stop? && dStage == GetFrameHeader ==>
        step.hint == 0 || (old(dStage) == GetFrameHeader && ip == |k.src|)
    {
      hide Logged, Inv;
      CallFits(k, ip, op, t);
      if dStage == GetBlockChecksum {
        ip', step, t', g' := StepBlockChecksum(k, ip, op, t, g);
      } else {
        ghost var g1 := g;
        if dStage == Init {
          g1 := StepInit(k, ip, op, t, g);
        }
        ip', step, t', g' := StepBlockHeader(k, ip, op, t, g1);
      }
    }

    /** One pass of the switch. */
    method Pass(k: Call, ip: nat, op: nat, ghost t: Track, ghost g: Log)
      returns (ip': nat, op': nat, step: Step, ghost t': Track, ghost g': Log)
      requires Inv(k, ip, op, t) && !t.Done? && (dStage == GetFrameHeader ==> emitted == [] && made == [])
      requires Logged(g) && (dStage == GetFrameHeader ==> g.read == [])
      modifies this, header, tmpIn, tmpOutBuffer, k.dst
      ensures lent == old(lent)
      ensures step.Fail? ==> !t.On?
      ensures !step.Fail? ==> Logged(g') && Heard(g, g', k, ip, ip')
      ensures !step.Fail? ==> Outcome(g', step, old(hist), old(skipChecksum))
      ensures !step.Fail? ==>
        && ip <= ip' && op <= op' && Inv(k, ip', op', t') && Next(t, t', ip' - ip)
        && Grown(old(emitted), k, op, op') && (old(Home()) ==> Home())
      ensures !step.Fail? && k.dst != null ==> Outside(old(k.dst[..]), k.dst[..], op, k.end)
      ensures tmpIn == old(tmpIn) || fresh(tmpIn)
      ensures tmpOutBuffer == old(tmpOutBuffer) || fresh(tmpOutBuffer)
      ensures step.Again? ==>
        !t'.Done? && dStage != GetFrameHeader && (ip < ip' || Rank(dStage) < Rank(old(dStage)))
      ensures step.Stop? ==>
        && (step.hint == 0 ==> dStage == GetFrameHeader) && Rests()
        && (step.hint == 0 || ip' == |k.src| || op' == k.end)
        && (t.On? ==> (step.hint == 0 <==> t'.Done?))
      ensures step.Stop? && dStage == GetFrameHeader ==>
        step.hint == 0 || (old(dStage) == GetFrameHeader && ip == |k.src| && op' == op)
    {
      hide Logged, Outcome, Inv, Grown, Outside, Home, Rank, Next;
      CallFits(k, ip, op, t);
      NoWrites(k, op);
      op' := op;
      if dStage == GetFrameHeader || dStage == StoreFrameHeader {
        ip', step, t', g' := PassHeader(k, ip, op, t, g);
      } else if dStage == CopyDirect || dStage == GetCBlock || dStage == StoreCBlock || dStage == FlushOut {
        ip', op', step, t', g' := PassContent(k, ip, op, t, g);
      } else if PhaseOf(dStage).Over? {
        ip', step, t', g' := PassEnd(k, ip, op, t, g);
      } else {
        ip', step, t', g' := PassBlock(k, ip, op, t, g);
      }
    }

    twostate lemma ToldLess(g: Log)
      requires old(Told(g)) && (old(skipChecksum) ==> skipChecksum)
      requires unchanged(`linked, `blockSum, `contentSum, `maxBlockSize, `contentSize, `xxh, `made)
      requires unchanged(`frameRemainingSize, `hist)
      ensures Told(g)
    {
      hide FrontOk;
      FrontLess(g.info, g.blocks, g.front, hist, !old(skipChecksum), !skipChecksum);
    }

    /** Less is known when checksums are skipped, but nothing else changes. */
    twostate lemma LoggedLess(g: Log)
      requires old(Logged(g)) && (old(skipChecksum) ==> skipChecksum)
      requires unchanged(`linked, `blockSum, `contentSum, `maxBlockSize, `contentSize, `xxh, `made, `blockXxh)
      requires unchanged(`frameRemainingSize, `hist, `dStage, `tmpIn, `tmpInSize, `tmpInTarget, `emitted)
      requires header[..] == old(header[..]) && tmpIn[..] == old(tmpIn[..])
      ensures Logged(g)
    {
      hide Told, Made, LE32, ParseHeader, Header, ReadLE32, IsSkippable, InfoOk;
      if old(Told(g)) { ToldLess(g); }
    }

    /** Once set, skipChecksum holds until the end of the frame. */
    method SetSkip(skipChecksums: bool, ghost t: Track, ghost g: Log)
      requires Follows(t) && Logged(g)
      modifies this`skipChecksum
      ensures Follows(t) && Logged(g) && skipChecksum == (old(skipChecksum) || skipChecksums)
    {
      hide Logged, InfoIs, ValidFrame, Body, Tail, Encode, Out, FrameContent, Opening, Skipping, SumsOk, CopyAt, LE32,
        Digest;
      SumsLess(contentSum && !skipChecksum, xxh, made, contentSize, frameRemainingSize);
      if t.On? && dStage == CopyDirect {
        InfoFrame(t.f);
        CopyLess(t.f, t.n, tmpInTarget, t.rest, made, blockXxh, blockSum && !skipChecksum);
      }
      skipChecksum := skipChecksum || skipChecksums;
      LoggedLess(g);
    }

    lemma StartStage(t: Track)
      requires dStage == GetFrameHeader && !t.Done?
      ensures Follows(t) <==>
              t.Off? || (ValidFrame(t.f) && Opening(t.f, t.n) && t.rest == Encode(t.f))
    {
      hide ValidFrame, Opening, Encode;
    }

    /** The start of a call. */
    method Begin(k: Call, skipChecksums: bool, ghost t: Track, ghost g: Log)
      requires State(t) && Logged(g) && !t.Done? && Place(k, k.start, PhaseOf(dStage))
        && (t.On? ==> Agree(k.src, t.rest))
      modifies this`skipChecksum, this`emitted, this`made
      ensures Inv(k, 0, k.start, t) && (dStage == GetFrameHeader ==> emitted == [] && made == [])
      ensures dStage != GetFrameHeader ==> emitted == old(emitted)
      ensures Logged(g) && skipChecksum == (old(skipChecksum) || skipChecksums)
    {
      hide Logged, Shape, DictShape, Sizes, HistFresh, HistFlushing, Waiting, Follows, Agree, ValidFrame, Opening,
        Encode,
        Place, Written, Covers, D;
      assert k.src[0..] == k.src;
      PlaceOwn(k, k.start, PhaseOf(dStage));
      SetSkip(skipChecksums, t, g);
      if dStage == GetFrameHeader {
        StartStage(t);
        emitted, made := [], [];
        StartStage(t);
        NothingMore(g);
      }
      WrittenStart(k);
    }

    lemma WrittenStart(k: Call)
      requires Own(k, k.start)
      ensures Written(k, k.start)
    {
    }

    lemma CallFits(k: Call, ip: nat, op: nat, t: Track)
      requires Inv(k, ip, op, t)
      ensures ip <= |k.src| && k.start <= op <= k.end && (k.dst != null ==> k.end <= k.dst.Length)
      ensures k.dst != tmpIn && k.dst != tmpOutBuffer && k.dst != header
      ensures tmpIn != tmpOutBuffer && header != tmpOutBuffer
      ensures dStage == StoreFrameHeader || dStage == Init ==> emitted == [] && made == []
      ensures PhaseOf(dStage).Fresh? ==> dict != tmpOutBuffer
    {
      hide DictShape, Sizes, D, Waiting, HistFlushing, Covers, Follows, Written, Agree;
    }

    /** No more is ever emitted than the frame holds. */
    lemma EmittedBound(t: Track)
      requires Valid(t) && t.On? && dStage != GetFrameHeader
      ensures |emitted| <= |FrameContent(t.f)|
    {
      hide Shape, DictShape, Sizes, HistFresh, HistFlushing, Covers, D, Follows, FrameContent;
      if !PhaseOf(dStage).Fresh? {
        MadeBound(t);
      }
    }

    lemma MadeBound(t: Track)
      requires Follows(t) && t.On? && !PhaseOf(dStage).Fresh?
      ensures emitted == [] || |made| <= |FrameContent(t.f)|
    {
      hide SumsOk, Encode, LE32, Digest, Body, Tail, FrameContent, ValidFrame;
      if t.f.Frame? && t.n <= |t.f.blocks| {
        ContentIs(t.f);
        OutPrefix(t.f.blocks, t.n, |t.f.blocks|);
        if t.n < |t.f.blocks| {
          BlockContent(t.f, t.n);
          OutPrefix(t.f.blocks, t.n + 1, |t.f.blocks|);
        }
      }
    }

    lemma ContentIs(f: Frame)
      requires f.Frame?
      ensures FrameContent(f) == Out(f.blocks, |f.blocks|)
    {
    }

    /** A run in progress: `used` bytes of the frame are read, `output` is what came of them. */
    ghost predicate Midway(f: Frame, used: nat, output: bytes, t: Track)
      reads this, header, tmpIn, tmpOutBuffer, dict
    {
      && ValidFrame(f) && (t.On? || t.Done?) && t.f == f && Valid(t) && Settled()
      && used <= |Encode(f)| && |output| <= |FrameContent(f)|
      && (t.On? ==> t.rest == Encode(f)[used..] && t.rest != [] && output == Prior())
      && (t.Done? ==> used == |Encode(f)| && output == FrameContent(f))
    }

    lemma CanCall(k: Call)
      requires Settled() && k.start <= k.end && k.dst != null && k.end <= k.dst.Length
      requires k.dst != tmpIn && k.dst != tmpOutBuffer && k.dst != header && k.dst != lent
      ensures Place(k, k.start, PhaseOf(dStage)) && Home()
    {
    }

    lemma DoneMeans(f: Frame)
      requires Valid(Done(f))
      ensures emitted == FrameContent(f) && dStage == GetFrameHeader && frameRemainingSize == 0 && hist == []
        && Valid(Off)
    {
      hide Shape, DictShape, Hist, Sizes, FrameContent;
    }

    /** A context is valid without a frame to follow. */
    lemma ValidOff(t: Track)
      requires Valid(t)
      ensures Valid(Off)
    {
      hide Shape, DictShape, Sizes, Hist, Young, Logged;
    }

    /** Whatever the input, what comes out is bounded by what has been read. */
    lemma PriorBound()
      requires Valid(Off)
      ensures |Prior()| <= |ReadBefore()| * MAX_BLOCK
    {
      hide Shape, DictShape, Sizes, HistFresh, HistFlushing, Covers, D, Follows, FrontOk, Made, ParseHeader, Header,
        LE32,
        ReadLE32, IsSkippable, SumsTold;
      if PhaseOf(dStage) == Fresh {
      } else if dStage == GetSFrameSize || dStage == StoreSFrameSize || dStage == SkipSkippable {
      } else {
        FrontBound(log.info, log.blocks, log.front, hist, !skipChecksum);
        MadeRead();
      }
    }

    lemma MadeRead()
      requires Logged(log) && PhaseOf(dStage) != Fresh
      requires dStage != GetSFrameSize && dStage != StoreSFrameSize && dStage != SkipSkippable
      requires |Made(log.blocks)| <= |log.front| * MAX_BLOCK
      ensures |made| <= |log.read| * MAX_BLOCK
    {
      hide FrontOk, Made, LE32, SumsTold, BlockSize;
      assert maxBlockSize <= MAX_BLOCK by { assert FieldsTold(log.info); }
    }

    /** Within the last block, compressed, with a block checksum and without a content checksum, the block
        checksum is counted twice; and a skippable frame of less than three bytes is shorter than the header
        that is expected of a frame. */
    ghost predicate TooMuch(t: Track)
      requires t.On?
      reads this`dStage, this`blockSum, this`contentSum
    {
      || (dStage == StoreCBlock && t.f.Frame? && t.n + 1 == |t.f.blocks| && blockSum && !contentSum)
      || (dStage == StoreFrameHeader && t.f.Skippable? && |t.f.payload| < 3)
    }

    /** The size wanted is never more than what is left of the frame, but for these two cases. */
    lemma WantedIsLeft(t: Track)
      requires State(t) && Rests() && t.On?
      ensures Wanted() <= |t.rest| <==> !TooMuch(t)
      ensures Wanted() <= |t.rest| + 4
    {
      hide State, Rests, Wanted, TooMuch;
      if t.f.Frame? { WantedInFrame(t); } else { WantedInSkippable(t); }
    }

    lemma WantedInFrame(t: Track)
      requires State(t) && Rests() && t.On? && t.f.Frame?
      ensures Wanted() <= |t.rest| <==> !TooMuch(t)
      ensures Wanted() <= |t.rest| + 4
    {
      hide Shape, DictShape, D, Hist, Covers, SumsOk, Out, Header, LE32, Digest, Before, BlockSize, Body, BlockOk,
        FrameContent, Young, InfoOk, SizeDeclared, HeaderLength, ParseHeader, ReadLE32, IsSkippable;
      EncodeLength(t.f);
      if t.n <= |t.f.blocks| {
        BodyStart(t.f, 0);
        BodyStart(t.f, t.n);
        if t.n < |t.f.blocks| { BodyStart(t.f, t.n + 1); }
      }
    }

    lemma WantedInSkippable(t: Track)
      requires State(t) && Rests() && t.On? && t.f.Skippable?
      ensures Wanted() <= |t.rest| <==> !TooMuch(t)
      ensures Wanted() <= |t.rest| + 4
    {
      hide Shape, DictShape, D, Hist, Covers, SumsOk, Out, Header, LE32, Digest, Before, BlockSize, Body, BlockOk,
        FrameContent, Young, InfoOk, SizeDeclared, HeaderLength, ParseHeader, ReadLE32, IsSkippable;
      EncodeLength(t.f);
    }

    lemma SomethingLeft(t: Track)
      requires State(t) && Rests() && t.On?
      ensures t.rest != []
    {
      hide Shape, DictShape, D, Hist, Covers, InfoIs, SumsOk, Encode, Out, Header, LE32, Digest;
      EncodeLength(t.f);
      if t.f.Frame? && t.n <= |t.f.blocks| {
        BodyStart(t.f, t.n);
        if t.n < |t.f.blocks| { BodyStart(t.f, t.n + 1); }
      }
    }

    /** LZ4F_createDecompressionContext */
    constructor (fast: bool)
      ensures fresh(header) && fresh(tmpIn) && fresh(tmpOutBuffer)
      ensures dStage == GetFrameHeader && Settled() && Valid(Off)
      ensures frameRemainingSize == 0 && hist == [] && !skipChecksum
    {
      dStage, linked, blockSum, contentSum, contentSize := GetFrameHeader, true, false, false, 0;
      frameRemainingSize, maxBlockSize, maxBufferSize := 0, 0, 0;
      tmpIn, tmpInSize, tmpInTarget := new byte[0], 0, 0;
      tmpOutBuffer := new byte[0];
      dict, dictStart, dictSize := null, 0, 0;
      tmpOut, tmpOutSize, tmpOutStart := 0, 0, 0;
      xxh, blockXxh, skipChecksum := [], [], false;
      header := new byte[MAX_HEADER];
      fastLoop := fast;
      hist, emitted, made, lent := [], [], [], null;
      log := Log(Info(true, false, false, 4, None, None), [], [], [], []);
    }

    /** A context that is new, or has finished a frame, is ready for any valid frame. */
    lemma ReadyFor(t: Track, f: Frame)
      requires Valid(t) && dStage == GetFrameHeader && frameRemainingSize == 0
      requires ValidFrame(f) && (f.Frame? ==> f.dict == hist)
      ensures Valid(On(f, 0, Encode(f)))
    {
      hide Shape, DictShape, HistFresh, Encode, ValidFrame;
    }

    /** The first lines of LZ4F_decompress_usingDict: before the first block the dictionary may be set, and
        set again to the same bytes. */
    method UseDict(a: array<byte>, start: nat, size: nat, ghost t: Track)
      requires Valid(t) && start + size <= a.Length && a != tmpIn && a != tmpOutBuffer && a != header
      requires t.Off? || hist == a[start..start + size]
      modifies this`dict, this`dictStart, this`dictSize, this`hist, this`lent
      ensures Valid(t)
      ensures PhaseOf(dStage).Fresh? ==> D() == hist == a[start..start + size] && lent == a && dict == a
      ensures !PhaseOf(dStage).Fresh? ==> dict == old(dict) && hist == old(hist) && lent == old(lent)
    {
      hide Shape, Sizes, Follows, Young, Logged, ToldHead, ToldInit;
      if PhaseOf(dStage).Fresh? {
        FreshLogged();
        if t.Off? { FollowsOff(); }
        PlaceDict(a, start, size, t.Off?);
        if t.Off? { FollowsOff(); }
        FreshLogged();
      }
    }

    method PlaceDict(a: array<byte>, start: nat, size: nat, ghost off: bool)
      requires start + size <= a.Length && (off || hist == a[start..start + size])
      modifies this`dict, this`dictStart, this`dictSize, this`hist, this`lent
      ensures dict == a && dictStart == start && dictSize == size && lent == a && hist == a[start..start + size]
      ensures !off ==> hist == old(hist)
    {
      dict, dictStart, dictSize, lent := a, start, size, a;
      if off { hist := a[start..start + size]; }
    }

    /** Before the first block the dictionary plays no part in what has been read. */
    lemma FreshLogged()
      requires PhaseOf(dStage).Fresh?
      ensures Logged(log) <==>
        dStage == GetFrameHeader || (if dStage == StoreFrameHeader then ToldHead(log) else ToldInit(log))
    {
      hide ToldHead, ToldInit;
    }

    /** LZ4F_getFrameInfo: at the start of a frame it reads exactly the header, or fails when that is not all
        there; later it has the decoder say how much it wants, without input or room. */
    method GetFrameInfo(s: bytes, ghost t: Track) returns (r: Result, consumed: nat, ghost t': Track)
      requires Valid(t) && !t.Done? && Settled() && (t.On? ==> Agree(s, t.rest))
      modifies this, header, tmpIn, tmpOutBuffer
      ensures lent == old(lent) && (tmpIn == old(tmpIn) || fresh(tmpIn))
      ensures tmpOutBuffer == old(tmpOutBuffer) || fresh(tmpOutBuffer)
      ensures old(dStage) == StoreFrameHeader ==> r == Error(FrameDecodingAlreadyStarted)
      ensures r.Error? ==> consumed == 0
      ensures r.Hint? ==> Valid(t') && Settled() && consumed <= |s| && Next(t, t', consumed)
      ensures r.Hint? ==> emitted == old(Prior()) && log.read == old(ReadBefore()) + s[..consumed]
      ensures r.Hint? && r.next > 0 ==> hist == old(hist) && skipChecksum == old(skipChecksum)
      ensures r.Hint? && old(dStage) == GetFrameHeader ==> r.next == BLOCK_HEADER && dStage != GetFrameHeader
      ensures t.On? && old(dStage) == GetFrameHeader ==> !t'.Done? && (r.Hint? <==> InfoSize(t.f) <= |s|)
      ensures t.On? && old(dStage) == GetFrameHeader && r.Hint? && t.f.Frame? ==>
        && consumed == HeaderLength(t.f.info) && r.next == BLOCK_HEADER && dStage == Init
        && HeaderRead(t.f.info, old(frameRemainingSize))
      ensures t.On? && old(dStage) == GetFrameHeader && r.Hint? && t.f.Skippable? ==>
        consumed == 4 && dStage == GetSFrameSize
    {
      hide Valid, Inv, Place, Agree, Grown, Home, Next, HeaderSize, ParseHeader, HeaderLength, HeaderRead;
      if dStage == StoreFrameHeader {
        return Error(FrameDecodingAlreadyStarted), 0, t;
      }
      if dStage != GetFrameHeader {
        var c;
        r, c, t' := AskForMore(t);
        return r, 0, t';
      }
      if t.On? { AtStart(t); InfoSizeIs(t.f, s); }
      var hSize := HeaderSize(s);
      if hSize.Unknown? { return Error(hSize.code), 0, t; }
      if |s| < hSize.value { return Error(FrameHeaderIncomplete), 0, t; }
      SizeMeansWhole(s);
      if t.On? { AgreeShorter(s, t.rest, hSize.value); }
      r, consumed, t' := ReadInfo(s[..hSize.value], t);
    }

    /** The header that starts `s`. */
    method ReadInfo(s: bytes, ghost t: Track) returns (r: Result, consumed: nat, ghost t': Track)
      requires Valid(t) && !t.Done? && Settled() && (t.On? ==> Agree(s, t.rest)) && dStage == GetFrameHeader
      requires MIN_HEADER <= |s| && !ParseHeader(s).NeedMore?
      modifies this, header
      ensures lent == old(lent) && tmpIn == old(tmpIn) && tmpOutBuffer == old(tmpOutBuffer)
      ensures if r.Error? then consumed == 0 && !t.On? && t' == t else r.next == BLOCK_HEADER
      ensures r.Hint? ==> Valid(t') && Settled() && consumed <= |s| && Next(t, t', consumed) && !t'.Done?
      ensures r.Hint? ==> emitted == [] && log.read == s[..consumed] && dStage != GetFrameHeader
      ensures r.Hint? ==> hist == old(hist) && skipChecksum == old(skipChecksum)
      ensures t.On? && t.f.Frame? && r.Hint? ==>
        consumed == HeaderLength(t.f.info) && dStage == Init && HeaderRead(t.f.info, old(frameRemainingSize))
      ensures t.On? && t.f.Skippable? && r.Hint? ==> consumed == 4 && dStage == GetSFrameSize
    {
      hide Valid, State, Logged, Heard, Inv, Place, Agree, Next, ParseHeader, HeaderLength, HeaderRead;
      var k := Call(s, null, 0, 0);
      NoBuffer(k);
      ghost var g := Onward(t);
      Begin(k, false, t, g);
      assert k.src[0..] == k.src;
      var step;
      ghost var g';
      consumed, step, t', g' := HeaderFromSource(k, 0, 0, t, g);
      if step.Fail? { return Error(step.code), 0, t; }
      HeardAll(g, g', k, consumed);
      Keep(k, consumed, 0, t', g');
      r := Hint(BLOCK_HEADER);
    }

    /** The decoder without input and without room. */
    method AskForMore(ghost t: Track) returns (r: Result, consumed: nat, ghost t': Track)
      requires Valid(t) && !t.Done? && Settled() && dStage != GetFrameHeader
      modifies this, header, tmpIn, tmpOutBuffer
      ensures lent == old(lent) && (tmpIn == old(tmpIn) || fresh(tmpIn))
      ensures tmpOutBuffer == old(tmpOutBuffer) || fresh(tmpOutBuffer)
      ensures r.Hint? ==> Valid(t') && Settled() && consumed == 0 && Next(t, t', 0) && emitted == old(Prior())
      ensures r.Hint? ==> log.read == old(ReadBefore())
      ensures r.Hint? && r.next > 0 ==> hist == old(hist) && skipChecksum == old(skipChecksum)
    {
      hide Valid, Inv, Place, Home, Settled, Next, Outside;
      var k := Call([], null, 0, 0);
      NoBuffer(k);
      SettledHome();
      var written;
      r, consumed, written, t' := Decompress(k, false, false, t);
    }

    lemma AtStart(t: Track)
      requires Valid(t) && t.On? && dStage == GetFrameHeader
      ensures ValidFrame(t.f) && t.rest == Encode(t.f)
    {
      hide Shape, DictShape, HistFresh, Encode, ValidFrame;
    }

    lemma NoBuffer(k: Call)
      requires k.dst == null && k.start == k.end == 0
      ensures Place(k, 0, PhaseOf(dStage))
    {
    }

    lemma SettledHome()
      requires Settled()
      ensures Home()
    {
    }

    lemma FollowsOff()
      ensures Follows(Off)
    {
    }

    /** What a call starts from: a finished frame counts no more. */
    ghost function Prior(): bytes
      reads this`dStage, this`emitted
    {
      if dStage == GetFrameHeader then [] else emitted
    }

    lemma GrownIs(before: bytes, k: Call, op: nat) returns (was: bytes)
      requires Grown(before, k, k.start, op)
      ensures k.dst == null ==> op == k.start && emitted == before
      ensures k.dst != null ==> was == k.dst[..] && k.start <= op <= |was| && emitted == before + was[k.start..op]
    {
      was := if k.dst == null then [] else k.dst[..];
    }

    lemma GrownMore(before: bytes, e: bytes, k: Call, op: nat, op': nat, was: bytes)
      requires k.dst == null ==> op == k.start && e == before
      requires k.dst != null ==>
        k.start <= op <= |was| && e == before + was[k.start..op] && Outside(was, k.dst[..], op, k.end)
      requires Grown(e, k, op, op')
      ensures Grown(before, k, k.start, op')
    {
      if k.dst != null {
        assert was[k.start..op] == k.dst[k.start..op];
        assert k.dst[k.start..op'] == k.dst[k.start..op] + k.dst[op..op'];
      }
    }

    lemma OutsideMore(k: Call, first: bytes, was: bytes, op: nat)
      requires k.start <= op
      requires k.dst != null ==> Outside(first, was, k.start, k.end) && Outside(was, k.dst[..], op, k.end)
      ensures k.dst != null ==> Outside(first, k.dst[..], k.start, k.end)
    {
    }

    lemma InvState(k: Call, ip: nat, op: nat, t: Track)
      requires Inv(k, ip, op, t)
      ensures State(t)
    {
      hide State;
    }

    /** The log is kept for the next call. */
    ghost method Keep(k: Call, ip: nat, op: nat, t: Track, g: Log)
      requires Inv(k, ip, op, t) && Logged(g)
      modifies this`log
      ensures Valid(t) && log == g
    {
      hide Shape, DictShape, Sizes, Hist, Young, Follows, Logged;
      log := g;
    }

    lemma GoesOn(g: Log)
      ensures Outcome(g, Again, hist, skipChecksum)
    {
    }

    lemma StillGoing(g: Log, dict0: bytes, skip0: bool)
      requires Outcome(g, Again, dict0, skip0)
      ensures hist == dict0 && skipChecksum == skip0
    {
    }

    /** The loop over the passes. */
    method Run(k: Call, ghost t: Track, ghost g: Log)
      returns (ip: nat, op: nat, step: Step, ghost t': Track, ghost g': Log)
      requires Inv(k, 0, k.start, t) && !t.Done? && (dStage == GetFrameHeader ==> emitted == [] && made == [])
      requires Logged(g) && (dStage == GetFrameHeader ==> g.read == [])
      modifies this, header, tmpIn, tmpOutBuffer, k.dst
      ensures lent == old(lent)
      ensures !step.Again? && (step.Fail? ==> !t.On?)
      ensures step.Stop? ==>
        && Inv(k, ip, op, t') && ip <= |k.src| && k.start <= op <= k.end && Next(t, t', ip)
        && Grown(old(emitted), k, k.start, op) && (old(Home()) ==> Home())
        && (step.hint == 0 ==> dStage == GetFrameHeader) && Rests()
        && (dStage == GetFrameHeader ==>
          step.hint == 0 || (|k.src| == 0 && op == k.start && old(dStage) == GetFrameHeader))
        && (step.hint == 0 || ip == |k.src| || op == k.end)
        && (t.On? ==> (step.hint == 0 <==> t'.Done?))
      ensures step.Stop? ==> Logged(g') && Heard(g, g', k, 0, ip) && Outcome(g', step, old(hist), old(skipChecksum))
      ensures step.Stop? && k.dst != null ==> Outside(old(k.dst[..]), k.dst[..], k.start, k.end)
      ensures tmpIn == old(tmpIn) || fresh(tmpIn)
      ensures tmpOutBuffer == old(tmpOutBuffer) || fresh(tmpOutBuffer)
    {
      hide Logged, Outcome, Heard, Inv, Grown, Outside, Home, Next, Rests, Rank;
      ip, op, step, t', g' := 0, k.start, Again, t, g;
      HeardNothing(g, k);
      GoesOn(g);
      CallFits(k, ip, op, t);
      NoWrites(k, op);
      NextSelf(t);
      ghost var before := emitted;
      while step.Again?
        invariant Inv(k, ip, op, t') && ip <= |k.src| && k.start <= op <= k.end && Next(t, t', ip)
        invariant Grown(before, k, k.start, op) && (old(Home()) ==> Home())
        invariant k.dst != null ==> Outside(old(k.dst[..]), k.dst[..], k.start, k.end)
        invariant lent == old(lent)
        invariant tmpIn == old(tmpIn) || fresh(tmpIn)
        invariant tmpOutBuffer == old(tmpOutBuffer) || fresh(tmpOutBuffer)
        invariant step.Again? ==>
          !t'.Done? && (dStage == GetFrameHeader ==>
            emitted == [] && made == [] && ip == 0 && op == k.start && old(dStage) == GetFrameHeader)
        invariant !step.Fail?
        invariant Logged(g') && Heard(g, g', k, 0, ip) && Outcome(g', step, old(hist), old(skipChecksum))
        invariant step.Again? && dStage == GetFrameHeader ==> g'.read == []
        invariant step.Stop? ==>
          && (step.hint == 0 ==> dStage == GetFrameHeader) && Rests()
          && (dStage == GetFrameHeader ==>
            step.hint == 0 || (|k.src| == 0 && op == k.start && old(dStage) == GetFrameHeader))
          && (step.hint == 0 || ip == |k.src| || op == k.end)
          && (t.On? ==> (step.hint == 0 <==> t'.Done?))
        decreases step.Again?, |k.src| - ip, Rank(dStage)
      {
        ghost var e, t1, g1 := emitted, t', g';
        StillGoing(g1, old(hist), old(skipChecksum));
        ghost var was := GrownIs(before, k, op);
        StillOn(t, t1, ip);
        var ip', op';
        ip', op', step, t', g' := Pass(k, ip, op, t1, g1);
        if step.Fail? { return; }
        CallFits(k, ip', op', t');
        GrownMore(before, e, k, op, op', was);
        OutsideMore(k, old(if k.dst == null then [] else k.dst[..]), was, op);
        NextMore(t, t1, t', ip, ip' - ip);
        HeardMore(g, g1, g', k, 0, ip, ip');
        ip, op := ip', op';
      }
    }

    /** The history and the log are kept for the next call. */
    method EndCall(k: Call, ip: nat, op: nat, stableDst: bool, ghost t: Track, ghost g: Log)
      requires Inv(k, ip, op, t) && Logged(g) && Rests()
      modifies this`dict, this`dictStart, this`dictSize, this`tmpOut, this`log, tmpOutBuffer
      ensures Valid(t) && log == g && (t.On? ==> t.rest != [])
      ensures !stableDst && old(Home()) ==> Settled()
    {
      hide Valid, State, Logged, Inv, Home, Settled;
      CallFits(k, ip, op, t);
      PreserveHistory(k, ip, op, stableDst, t);
      if t.On? {
        InvState(k, ip, op, t);
        SomethingLeft(t);
      }
      Keep(k, ip, op, t, g);
    }

    /** What has been read of the frame before a call. */
    ghost function ReadBefore(): bytes
      reads this`dStage, this`log
    {
      if dStage == GetFrameHeader then [] else log.read
    }

    /** The log at the start of a call. */
    lemma Onward(t: Track) returns (g: Log)
      requires Valid(t)
      ensures State(t) && Logged(g) && g.read == ReadBefore() && (dStage == GetFrameHeader ==> g.read == [])
    {
      hide State, ToldHead, ToldInit, ToldBlock, ToldCopy, ToldPacked, ToldSuffix, ToldMagic, ToldSkip;
      g := if dStage == GetFrameHeader then log.(read := []) else log;
    }

    /** LZ4F_decompress: reads and writes until the frame ends or one of the buffers is exhausted.
        On a valid frame it never fails, and it returns 0 exactly at the last byte. */
    method Decompress(k: Call, stableDst: bool, skipChecksums: bool, ghost t: Track)
      returns (r: Result, consumed: nat, written: nat, ghost t': Track)
      requires Valid(t) && !t.Done? && Place(k, k.start, PhaseOf(dStage)) && (t.On? ==> Agree(k.src, t.rest))
      modifies this, header, tmpIn, tmpOutBuffer, k.dst
      ensures lent == old(lent)
      ensures r.Error? ==> !t.On?
      ensures r.Hint? ==>
        && Valid(t') && Next(t, t', consumed) && consumed <= |k.src| && written <= k.end - k.start
        && Grown(old(Prior()), k, k.start, k.start + written)
        && (r.next == 0 ==> dStage == GetFrameHeader) && (dStage == GetFrameHeader ==>
              r.next == 0 || (|k.src| == 0 && written == 0 && old(dStage) == GetFrameHeader))
        && (r.next == 0 || consumed == |k.src| || written == k.end - k.start)
        && (t.On? ==> (r.next == 0 <==> t'.Done?) && (t'.On? ==> t'.rest != []))
      ensures r.Hint? ==>
        && log.read == old(ReadBefore()) + k.src[..consumed]
        && Outcome(log, Stop(r.next), old(hist), old(skipChecksum) || skipChecksums)
      ensures r.Hint? && k.dst != null ==> Outside(old(k.dst[..]), k.dst[..], k.start, k.end)
      ensures r.Hint? && !stableDst && old(Home()) ==> Settled()
      ensures tmpIn == old(tmpIn) || fresh(tmpIn)
      ensures tmpOutBuffer == old(tmpOutBuffer) || fresh(tmpOutBuffer)
    {
      hide Valid, State, Logged, Outcome, Heard, Inv, Place, Agree, Outside, Grown, Home, Settled, Next, Rank;
      ghost var g := Onward(t);
      Begin(k, skipChecksums, t, g);
      CallFits(k, 0, k.start, t);
      var ip, op, step;
      ghost var g';
      ip, op, step, t', g' := Run(k, t, g);
      if step.Fail? {
        return Error(step.code), 0, 0, t';
      }
      CallFits(k, ip, op, t');
      ghost var was := GrownIs(old(Prior()), k, op);
      HeardAll(g, g', k, ip);
      EndCall(k, ip, op, stableDst, t', g');
      r, consumed, written := Hint(step.hint), ip, op - k.start;
    }

    lemma RoomIn()
      requires Sizes() && (PhaseOf(dStage) == Between || dStage == FlushOut)
      ensures Ready()
    {
      hide Ready;
    }

    /** Nothing of the history is needed before the first block and after the last. */
    lemma NoHistory(k: Call, op: nat)
      requires made == emitted
      ensures Hist(Over)
      ensures Place(k, op, Fresh) ==> Place(k, op, Over)
      ensures Place(k, op, Between) ==> Place(k, op, Over)
    {
      hide D;
    }

    lemma Apart(k: Call, op: nat, p: Phase)
      requires Shape() && DictShape() && Place(k, op, p)
      ensures header.Length == MAX_HEADER && tmpOutBuffer.Length == maxBufferSize
      ensures tmpIn != header && tmpOutBuffer != header && tmpIn != tmpOutBuffer
      ensures k.dst != tmpIn && k.dst != tmpOutBuffer && k.dst != header
      ensures dict != tmpIn && dict != header
    {
    }
  }
}
