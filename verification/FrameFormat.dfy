/**
  The LZ4 frame format: a header, blocks that are compressed or stored, an end mark and an
  optional checksum of the content; or a skippable frame.
*/
module FrameFormat {
  import opened Bytes
  import opened BlockWriter
  import Xxh32

  datatype Option<T> = None | Some(value: T)

  // ----- Fields -----

  /** Four bytes, least significant first. */
  function LE32(v: nat): (s: bytes)
    requires v < 0x1_0000_0000
    ensures |s| == 4
  {
    [v % 256, v / 256 % 256, v / 65536 % 256, v / 16777216]
  }

  /** LZ4F_readLE32 */
  function ReadLE32(s: bytes, i: nat): (v: nat)
    requires i + 4 <= |s|
    ensures v < 0x1_0000_0000
  {
    var b0: int, b1: int, b2: int, b3: int := s[i], s[i + 1], s[i + 2], s[i + 3];
    b0 + 256 * b1 + 65536 * b2 + 16777216 * b3
  }

  function LE64(v: nat): (s: bytes)
    requires v < 0x1_0000_0000_0000_0000
    ensures |s| == 8
  {
    LE32(v % 0x1_0000_0000) + LE32(v / 0x1_0000_0000)
  }

  /** LZ4F_readLE64 */
  function ReadLE64(s: bytes, i: nat): (v: nat)
    requires i + 8 <= |s|
    ensures v < 0x1_0000_0000_0000_0000
  {
    ReadLE32(s, i) + 0x1_0000_0000 * ReadLE32(s, i + 4)
  }

  lemma Digits(v: nat)
    ensures v % 256 + 256 * (v / 256 % 256) + 65536 * (v / 65536 % 256) + 16777216 * (v / 16777216) == v
  {
    assert v / 65536 == v / 256 / 256;
    assert v / 16777216 == v / 65536 / 256;
  }

  lemma {:induction false} LE32Read(s: bytes, i: nat, v: nat)
    requires v < 0x1_0000_0000 && i + 4 <= |s| && s[i..i + 4] == LE32(v)
    ensures ReadLE32(s, i) == v
  {
    Digits(v);
    var p := s[i..i + 4];
    assert p[0] == s[i] && p[1] == s[i + 1] && p[2] == s[i + 2] && p[3] == s[i + 3];
  }

  lemma {:induction false} LE64Read(s: bytes, i: nat, v: nat)
    requires v < 0x1_0000_0000_0000_0000 && i + 8 <= |s| && s[i..i + 8] == LE64(v)
    ensures ReadLE64(s, i) == v
  {
    hide LE32, ReadLE32;
    assert s[i..i + 4] == s[i..i + 8][..4] && s[i + 4..i + 8] == s[i..i + 8][4..];
    LE32Read(s, i, v % 0x1_0000_0000);
    LE32Read(s, i + 4, v / 0x1_0000_0000);
  }

  /** XXH32 with seed 0, as the number that the frame stores. */
  function Digest(s: bytes): (d: nat)
    ensures d < 0x1_0000_0000
  {
    Xxh32.Hash(s, 0) as nat
  }

  /** LZ4F_headerChecksum: the second byte of the hash. */
  function HeaderChecksum(descriptor: bytes): (b: byte) {
    Digest(descriptor) / 256 % 256
  }

  // ----- Header -----

  const MAGICNUMBER := 0x184D2204
  const MAGIC_SKIPPABLE_START := 0x184D2A50
  const KB128 := 131072
  const MIN_HEADER := 7    // minFHSize
  const MAX_HEADER := 19   // maxFHSize
  const BLOCK_HEADER := 4  // BHSize
  const BLOCK_FOOTER := 4  // BFSize
  const UNCOMPRESSED_FLAG := 0x8000_0000

  /** LZ4F_frameInfo_t of a frame that is not skippable. */
  datatype Info = Info(linked: bool, blockChecksum: bool, contentChecksum: bool, sizeId: nat,
                       contentSize: Option<nat>, dictId: Option<nat>)

  ghost predicate InfoOk(i: Info) {
    && 4 <= i.sizeId <= 7
    && (i.contentSize.Some? ==> i.contentSize.value < 0x1_0000_0000_0000_0000)
    && (i.dictId.Some? ==> i.dictId.value < 0x1_0000_0000)
  }

  /** LZ4F_getBlockSize */
  function BlockSize(id: nat): (n: nat)
    ensures KB64 <= n <= 64 * KB64
  {
    if id <= 4 then KB64 else if id == 5 then 4 * KB64 else if id == 6 then 16 * KB64 else 64 * KB64
  }

  function Bit(b: bool): (v: nat)
    ensures v <= 1
  {
    if b then 1 else 0
  }

  function Flg(i: Info): (b: byte) {
    64 + 32 * Bit(!i.linked) + 16 * Bit(i.blockChecksum) + 8 * Bit(i.contentSize.Some?)
    + 4 * Bit(i.contentChecksum) + Bit(i.dictId.Some?)
  }

  function Bd(i: Info): (b: byte)
    requires i.sizeId <= 7
  {
    16 * i.sizeId
  }

  function SizeField(o: Option<nat>): (s: bytes)
    requires o.Some? ==> o.value < 0x1_0000_0000_0000_0000
    ensures |s| == 8 * Bit(o.Some?)
  {
    if o.Some? then LE64(o.value) else []
  }

  function IdField(o: Option<nat>): (s: bytes)
    requires o.Some? ==> o.value < 0x1_0000_0000
    ensures |s| == 4 * Bit(o.Some?)
  {
    if o.Some? then LE32(o.value) else []
  }

  function Descriptor(i: Info): (s: bytes)
    requires InfoOk(i)
    ensures |s| == HeaderLength(i) - 5
  {
    [Flg(i), Bd(i)] + SizeField(i.contentSize) + IdField(i.dictId)
  }

  function HeaderLength(i: Info): (n: nat)
    ensures MIN_HEADER <= n <= MAX_HEADER
  {
    MIN_HEADER + 8 * Bit(i.contentSize.Some?) + 4 * Bit(i.dictId.Some?)
  }

  function Header(i: Info): (s: bytes)
    requires InfoOk(i)
    ensures |s| == HeaderLength(i)
  {
    LE32(MAGICNUMBER) + Descriptor(i) + [HeaderChecksum(Descriptor(i))]
  }

  // ----- Blocks -----

  /** A block: what is stored and what it stands for. */
  datatype Block = Block(compressed: bool, data: bytes, content: bytes)

  /** A stored block is its content; a compressed one is a block of its content after history `h`. */
  ghost predicate BlockOk(b: Block, h: bytes, max: nat) {
    && |b.data| <= max
    && |b.content| <= max
    && if b.compressed then IsBlockOf(h, b.content, b.data) else b.content == b.data
  }

  function BlockHeader(b: Block): (v: nat)
    requires |b.data| < UNCOMPRESSED_FLAG
    ensures v < 0x1_0000_0000
  {
    if b.compressed then |b.data| else |b.data| + UNCOMPRESSED_FLAG
  }

  function Footer(checksum: bool, data: bytes): (s: bytes)
    ensures |s| == 4 * Bit(checksum)
  {
    if checksum then LE32(Digest(data)) else []
  }

  function BlockBytes(i: Info, b: Block): bytes
    requires |b.data| < UNCOMPRESSED_FLAG
  {
    LE32(BlockHeader(b)) + b.data + Footer(i.blockChecksum, b.data)
  }

  // ----- Frames -----

  datatype Frame =
    | Frame(info: Info, dict: bytes, blocks: seq<Block>)
    | Skippable(nibble: nat, payload: bytes)

  /** The content of the first `n` blocks. */
  function Out(blocks: seq<Block>, n: nat): bytes
    requires n <= |blocks|
  {
    if n == 0 then [] else Out(blocks, n - 1) + blocks[n - 1].content
  }

  function FrameContent(f: Frame): bytes {
    match f
    case Frame(_, _, blocks) => Out(blocks, |blocks|)
    case Skippable(_, _) => []
  }

  /** What the matches of block `n` may refer to. */
  function Before(f: Frame, n: nat): bytes
    requires f.Frame? && n <= |f.blocks|
  {
    if f.info.linked then f.dict + Out(f.blocks, n) else f.dict
  }

  ghost predicate SizeDeclared(o: Option<nat>, size: nat) {
    o.Some? ==> o.value == 0 || o.value == size
  }

  ghost predicate ValidFrame(f: Frame) {
    match f
    case Frame(info, dict, blocks) =>
      && InfoOk(info)
      && SizeDeclared(info.contentSize, |FrameContent(f)|)
      && forall n :: 0 <= n < |blocks| ==> BlockOk(blocks[n], Before(f, n), BlockSize(info.sizeId))
    case Skippable(nibble, payload) => nibble < 16 && |payload| < 0x1_0000_0000
  }

  /** The bytes from block `n` on. */
  ghost function Body(f: Frame, n: nat): bytes
    requires ValidFrame(f) && f.Frame? && n <= |f.blocks|
    decreases |f.blocks| - n
  {
    if n < |f.blocks| then BlockBytes(f.info, f.blocks[n]) + Body(f, n + 1)
    else LE32(0) + Footer(f.info.contentChecksum, FrameContent(f))
  }

  /** The bytes of a whole frame. */
  ghost function Encode(f: Frame): bytes
    requires ValidFrame(f)
  {
    match f
    case Frame(info, _, _) => Header(info) + Body(f, 0)
    case Skippable(nibble, payload) => LE32(MAGIC_SKIPPABLE_START + nibble) + LE32(|payload|) + payload
  }

  // ----- Reading a header -----

  datatype ErrorCode =
    | FrameHeaderIncomplete | FrameTypeUnknown | ReservedFlagSet | HeaderVersionWrong
    | MaxBlockSizeInvalid | HeaderChecksumInvalid | BlockChecksumInvalid | DecompressionFailed
    | FrameSizeWrong | ContentChecksumInvalid | FrameDecodingAlreadyStarted

  datatype HeaderResult =
    | Failed(code: ErrorCode)
    | SkippableStart
    | NeedMore(target: nat)
    | Complete(info: Info)

  predicate IsSkippable(magic: nat) {
    magic / 16 == MAGIC_SKIPPABLE_START / 16
  }

  /** What LZ4F_decodeHeader makes of the first bytes of a frame. */
  function ParseHeader(s: bytes): HeaderResult {
    if |s| < MIN_HEADER then Failed(FrameHeaderIncomplete)
    else if IsSkippable(ReadLE32(s, 0)) then SkippableStart
    else if ReadLE32(s, 0) != MAGICNUMBER then Failed(FrameTypeUnknown)
    else
      var flg := s[4];
      if flg / 2 % 2 != 0 then Failed(ReservedFlagSet)
      else if flg / 64 % 4 != 1 then Failed(HeaderVersionWrong)
      else
        var hasSize, hasId := flg / 8 % 2 == 1, flg % 2 == 1;
        var size := MIN_HEADER + (if hasSize then 8 else 0) + (if hasId then 4 else 0);
        if |s| < size then NeedMore(size)
        else
          var bd := s[5];
          if bd / 128 % 2 != 0 then Failed(ReservedFlagSet)
          else if bd / 16 % 8 < 4 then Failed(MaxBlockSizeInvalid)
          else if bd % 16 != 0 then Failed(ReservedFlagSet)
          else if HeaderChecksum(s[4..size - 1]) != s[size - 1] then Failed(HeaderChecksumInvalid)
          else
            Complete(Info(flg / 32 % 2 == 0, flg / 16 % 2 == 1, flg / 4 % 2 == 1, bd / 16 % 8,
                          if hasSize then Some(ReadLE64(s, 6)) else None,
                          if hasId then Some(ReadLE32(s, size - 5)) else None))
  }

  /** The first `m` bytes of `a` and `b` agree, where `m` is the shorter length. */
  ghost predicate Agree(a: bytes, b: bytes) {
    a[..Min(|a|, |b|)] == b[..Min(|a|, |b|)]
  }

  lemma FlgBits(i: Info)
    ensures var flg := Flg(i);
      && flg / 2 % 2 == 0 && flg / 64 % 4 == 1
      && (flg / 8 % 2 == 1 <==> i.contentSize.Some?) && (flg % 2 == 1 <==> i.dictId.Some?)
      && (flg / 32 % 2 == 0 <==> i.linked) && (flg / 16 % 2 == 1 <==> i.blockChecksum)
      && (flg / 4 % 2 == 1 <==> i.contentChecksum)
  {
  }

  lemma BdBits(i: Info)
    requires InfoOk(i)
    ensures var bd := Bd(i); bd / 128 % 2 == 0 && bd / 16 % 8 == i.sizeId && bd % 16 == 0
  {
  }

  /** Where the fields of a header lie. */
  lemma {:induction false} HeaderFields(i: Info)
    requires InfoOk(i)
    ensures var s := Header(i);
      && s[0..4] == LE32(MAGICNUMBER) && s[4] == Flg(i) && s[5] == Bd(i)
      && s[4..|s| - 1] == Descriptor(i) && s[|s| - 1] == HeaderChecksum(Descriptor(i))
      && (i.contentSize.Some? ==> s[6..14] == LE64(i.contentSize.value))
      && (i.dictId.Some? ==> s[|s| - 5..|s| - 1] == LE32(i.dictId.value))
  {
    hide HeaderChecksum, LE32, LE64, Flg, Bd;
  }

  /** Prefix form of HeaderFields, for a string that starts like a header. */
  lemma {:induction false} ParseStart(i: Info, s: bytes)
    requires InfoOk(i) && Agree(s, Header(i)) && MIN_HEADER <= |s|
    ensures ReadLE32(s, 0) == MAGICNUMBER && s[4] == Flg(i)
    ensures |s| >= HeaderLength(i) ==>
              && s[5] == Bd(i) && s[4..HeaderLength(i) - 1] == Descriptor(i)
              && s[HeaderLength(i) - 1] == HeaderChecksum(Descriptor(i))
              && (i.contentSize.Some? ==> ReadLE64(s, 6) == i.contentSize.value)
              && (i.dictId.Some? ==> ReadLE32(s, HeaderLength(i) - 5) == i.dictId.value)
  {
    hide HeaderChecksum, LE32, LE64, Flg, Bd, Header, Descriptor, ReadLE32, ReadLE64;
    HeaderFields(i);
    var p, n := Header(i), HeaderLength(i);
    var m := Min(|s|, n);
    assert s[..m] == p[..m];
    assert s[..m][0..4] == s[0..4] && p[..m][0..4] == p[0..4];
    LE32Read(s, 0, MAGICNUMBER);
    assert s[..m][4] == s[4] && p[..m][4] == p[4];
    if |s| >= n {
      assert s[..n] == p;
      assert s[..n][5] == s[5] && s[..n][n - 1] == s[n - 1];
      assert s[..n][4..n - 1] == s[4..n - 1];
      if i.contentSize.Some? {
        assert s[..n][6..14] == s[6..14];
        LE64Read(s, 6, i.contentSize.value);
      }
      if i.dictId.Some? {
        assert s[..n][n - 5..n - 1] == s[n - 5..n - 1];
        LE32Read(s, n - 5, i.dictId.value);
      }
    }
  }

  /** The header parser recovers the frame parameters that were written. */
  lemma {:induction false} HeaderRoundTrip(i: Info, s: bytes)
    requires InfoOk(i) && Agree(s, Header(i)) && MIN_HEADER <= |s|
    ensures ParseHeader(s) == if |s| < HeaderLength(i) then NeedMore(HeaderLength(i)) else Complete(i)
  {
    hide HeaderChecksum, LE32, LE64, Flg, Bd, Header, Descriptor, ReadLE32, ReadLE64;
    ParseStart(i, s);
    FlgBits(i);
    BdBits(i);
  }

  datatype SizeResult = Size(value: nat) | Unknown(code: ErrorCode)

  /** LZ4F_headerSize */
  function HeaderSize(s: bytes): SizeResult {
    if |s| < 5 then Unknown(FrameHeaderIncomplete)
    else if IsSkippable(ReadLE32(s, 0)) then Size(8)
    else if ReadLE32(s, 0) != MAGICNUMBER then Unknown(FrameTypeUnknown)
    else Size(MIN_HEADER + (if s[4] / 8 % 2 == 1 then 8 else 0) + (if s[4] % 2 == 1 then 4 else 0))
  }

  /** The header size read off the first five bytes is the number of bytes of the header. */
  lemma {:induction false} HeaderSizeIs(i: Info, s: bytes)
    requires InfoOk(i) && Agree(s, Header(i)) && 5 <= |s|
    ensures HeaderSize(s) == Size(|Header(i)|)
  {
    hide HeaderChecksum, LE32, Flg, Header, ReadLE32;
    HeaderFields(i);
    FlgBits(i);
    var p, m := Header(i), Min(|s|, HeaderLength(i));
    assert s[..m] == p[..m];
    assert s[..m][0..4] == s[0..4] && p[..m][0..4] == p[0..4];
    LE32Read(s, 0, MAGICNUMBER);
    assert s[..m][4] == s[4] && p[..m][4] == p[4];
  }
}
