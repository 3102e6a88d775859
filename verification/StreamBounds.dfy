/** The size arithmetic of the stream bindings: bounds, stored block lengths, length tests. */
module StreamBounds {
  import opened Bytes
  import opened BlockWriter
  import opened FrameFormat

  const UINT32_MAX := 0xFFFF_FFFF
  const INT32_MAX := 0x7FFF_FFFF

  /** get_compress_bound */
  function GetCompressBound(inputSize: nat): nat {
    CompressBound(inputSize)
  }

  /** get_input_bound: the inverse of the compression bound in 64-bit arithmetic, rounded up;
      0 when there is no such input. */
  function GetInputBound(compressMaxSize: nat): nat {
    var csize := if compressMaxSize < 16 then 17 else compressMaxSize;
    if csize <= GetCompressBound(MAX_INPUT_SIZE) then
      var isize := (csize * 256 - csize - 4080) / 256;
      if isize > MAX_INPUT_SIZE then 0 else isize + 1
    else
      0
  }

  lemma Rounded(q: nat, r: nat)
    requires r < 255
    ensures (255 * (256 * q + r)) / 256 == 255 * q + (if r == 0 then 0 else r - 1)
  {
  }

  /** The bound of the bound is the input size, one more at the multiples of 255. */
  lemma NearInverse(n: nat)
    requires n <= MAX_INPUT_SIZE
    ensures GetInputBound(GetCompressBound(n)) == if n % 255 == 0 then n + 1 else n
  {
    var q, r := n / 255, n % 255;
    var csize := GetCompressBound(n);
    assert csize == 256 * q + r + 16;
    Rounded(q, r);
    assert csize * 256 - csize - 4080 == 255 * (256 * q + r);
    BoundGrows(n, MAX_INPUT_SIZE);
  }

  lemma BoundGrows(n: nat, m: nat)
    requires n <= m <= MAX_INPUT_SIZE
    ensures GetCompressBound(n) <= GetCompressBound(m)
  {
  }

  // ----- Stored lengths -----

  /** The integer that a length field of `width` bytes can hold; without a field, four bytes are assumed. */
  function StoreMax(width: nat): nat {
    if width == 1 then 0xFF else if width == 2 then 0xFFFF else UINT32_MAX
  }

  predicate WidthOk(width: nat) {
    width == 0 || width == 1 || width == 2 || width == 4
  }

  /** load_block_length; -1 without a length field. */
  function LoadBlockLength(width: nat, buf: bytes): int
    requires WidthOk(width) && width <= |buf|
  {
    if width == 1 then buf[0]
    else if width == 2 then ReadLE16(buf, 0)
    else if width == 4 then
      var v := ReadLE32(buf, 0);
      if v > INT32_MAX then v - 0x1_0000_0000 else v
    else -1
  }

  /** store_block_length */
  method StoreBlockLength(blockLength: nat, width: nat, buf: array<byte>) returns (status: bool)
    requires width <= buf.Length
    modifies buf
    ensures status <==>
            WidthOk(width) && (width == 0 || blockLength <= if width == 4 then INT32_MAX else StoreMax(width))
    ensures status && width > 0 ==> LoadBlockLength(width, buf[..]) == blockLength
    ensures buf[width..] == old(buf[width..])
  {
    hide LE32, ReadLE32;
    status := true;
    if width == 0 {
    } else if width == 1 {
      if blockLength > 0xFF { status := false; } else { buf[0] := blockLength; }
    } else if width == 2 {
      if blockLength > 0xFFFF {
        status := false;
      } else {
        buf[0], buf[1] := blockLength % 256, blockLength / 256;
      }
    } else if width == 4 {
      if blockLength > INT32_MAX {
        status := false;
      } else {
        StoreLE32(buf, blockLength);
        LE32Read(buf[..], 0, blockLength);
      }
    } else {
      status := false;
    }
  }

  /** store_le32 */
  method StoreLE32(buf: array<byte>, x: nat)
    requires 4 <= buf.Length && x < 0x1_0000_0000
    modifies buf
    ensures buf[0..4] == LE32(x) && buf[4..] == old(buf[4..])
  {
    buf[0], buf[1], buf[2], buf[3] := x % 256, x / 256 % 256, x / 65536 % 256, x / 16777216;
    Parts(x);
  }

  lemma Parts(x: nat)
    requires x < 0x1_0000_0000
    ensures LE32(x) == [x % 256, x / 256 % 256, x / 65536 % 256, x / 16777216]
  {
  }

  // ----- Length tests -----

  /** The checks made when a compression context is created for pages of `page` bytes. */
  predicate CompressorOk(page: nat, width: nat) {
    WidthOk(width) && 0 < GetCompressBound(page) <= StoreMax(width)
  }

  /** The tests of _decompress on a block of `size` bytes. */
  predicate DecompressorAccepts(page: nat, width: nat, size: nat) {
    && size <= StoreMax(width)
    && GetInputBound(size) != 0
    && GetInputBound(size) <= page
  }

  /** Every block that a compressor may emit for a chunk within its page passes the tests of a decompressor
      with the same page size and length field, and its length can be stored. */
  lemma ChunkPasses(page: nat, width: nat, n: nat, size: nat)
    requires 0 < page && CompressorOk(page, width) && n <= page
    requires 0 < size <= n + n / 255 + 2
    ensures DecompressorAccepts(page, width, size)
    ensures size <= GetCompressBound(page) && size <= INT32_MAX
  {
    var q, r := n / 255, n % 255;
    assert n / 255 <= page / 255;
    BoundGrows(page, MAX_INPUT_SIZE);
    if size >= 16 {
      InputBoundBelow(size, q, r);
    }
  }

  lemma InputBoundBelow(size: nat, q: nat, r: nat)
    requires r < 255 && 16 <= size <= 256 * q + r + 2
    ensures (size * 256 - size - 4080) / 256 + 1 <= 255 * q + r
  {
    assert size * 256 - size - 4080 == 255 * (size - 16);
    assert 255 * (size - 16) <= 255 * (256 * q + r - 14);
    assert 255 * (256 * q + r - 14) < 256 * (255 * q + r);
  }

  /** The bound itself is one too large for a page that is a multiple of 255: only because real blocks
      stay well below it does the test not reject them. */
  lemma BoundIsNotAccepted(page: nat, width: nat)
    requires 0 < page && CompressorOk(page, width)
    ensures DecompressorAccepts(page, width, GetCompressBound(page)) <==> page % 255 != 0
  {
    NearInverse(page);
  }
}
