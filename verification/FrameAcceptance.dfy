/**
  What the frame decoder accepts: the bytes read are a header, blocks, an end mark and the checksums that
  the header announces; stored blocks are their content, and compressed ones stand for it in the sense of
  the block decoder.
*/
module FrameAcceptance {
  import opened Bytes
  import opened BlockWriter
  import opened BlockFormat
  import opened BlockAcceptance
  import opened FrameFormat
  import opened FrameHistory
  import opened FrameTrack
  import opened FrameWire
  import BlockApi
  import opened BlockDecoderSpec

  // ----- Frames as the decoder reads them -----

  const MAX_BLOCK: nat := 64 * KB64

  ghost predicate BlockStands(b: Block, h: bytes, max: nat) {
    && |b.data| <= max && |b.content| <= max
    && if b.compressed then StandsFor(b.data, h, h + b.content) else b.content == b.data
  }

  ghost predicate BlocksStand(i: Info, dict: bytes, blocks: seq<Block>) {
    forall n :: 0 <= n < |blocks| ==> BlockStands(blocks[n], Before(Frame(i, dict, blocks), n), BlockSize(i.sizeId))
  }

  /** The bytes that a block takes. */
  function BlockLength(i: Info, b: Block): nat {
    BLOCK_HEADER + |b.data| + BLOCK_FOOTER * Bit(i.blockChecksum)
  }

  /** `s` is one block after the other, with right checksums if they are checked. */
  ghost predicate Spells(s: bytes, i: Info, blocks: seq<Block>, check: bool)
    decreases |blocks|
  {
    if blocks == [] then s == []
    else
      var b := blocks[|blocks| - 1];
      var n := |s| - BlockLength(i, b);
      && |b.data| < UNCOMPRESSED_FLAG && 0 <= n && Spells(s[..n], i, blocks[..|blocks| - 1], check)
      && s[n..n + BLOCK_HEADER + |b.data|] == LE32(BlockHeader(b)) + b.data
      && (check ==> s[n + BLOCK_HEADER + |b.data|..] == Footer(i.blockChecksum, b.data))
  }

  /** A declared size counts modulo 2^64, and 0 says nothing. */
  ghost predicate SizeCounts(o: Option<nat>, size: nat) {
    o.Some? ==> o.value == 0 || o.value == size % TWO64
  }

  /** `s` reads as the frame `f`, with right checksums if they are checked. */
  ghost predicate Accepted(s: bytes, f: Frame, check: bool) {
    match f
    case Frame(i, dict, blocks) =>
      var n := |s| - BLOCK_HEADER - BLOCK_FOOTER * Bit(i.contentChecksum);
      && InfoOk(i) && BlocksStand(i, dict, blocks) && SizeCounts(i.contentSize, |FrameContent(f)|)
      && HeaderLength(i) <= n && s[..HeaderLength(i)] == Header(i) && Spells(s[HeaderLength(i)..n], i, blocks, check)
      && s[n..n + BLOCK_HEADER] == LE32(0)
      && (check ==> s[n + BLOCK_HEADER..] == Footer(i.contentChecksum, FrameContent(f)))
    case Skippable(nibble, payload) =>
      ValidFrame(f) && s == LE32(MAGIC_SKIPPABLE_START + nibble) + LE32(|payload|) + payload
  }

  // ----- Fields read and written -----

  /** A number read is a number written. */
  lemma {:induction false} LE32Written(s: bytes)
    requires |s| == 4
    ensures LE32(ReadLE32(s, 0)) == s
  {
    var v := ReadLE32(s, 0);
    var b0: int, b1: int, b2: int, b3: int := s[0], s[1], s[2], s[3];
    assert v == b0 + 256 * (b1 + 256 * (b2 + 256 * b3));
    assert v / 256 == b1 + 256 * (b2 + 256 * b3) && v % 256 == b0;
    assert v / 65536 == b2 + 256 * b3 && v / 256 % 256 == b1;
    assert v / 16777216 == b3 && v / 65536 % 256 == b2;
  }

  lemma {:induction false} LE32At(s: bytes, i: nat)
    requires i + 4 <= |s|
    ensures LE32(ReadLE32(s, i)) == s[i..i + 4]
  {
    hide LE32;
    LE32Written(s[i..i + 4]);
    assert ReadLE32(s[i..i + 4], 0) == ReadLE32(s, i);
  }

  lemma {:induction false} LE64At(s: bytes, i: nat)
    requires i + 8 <= |s|
    ensures LE64(ReadLE64(s, i)) == s[i..i + 8]
  {
    hide LE32, ReadLE32;
    var a, b := ReadLE32(s, i), ReadLE32(s, i + 4);
    assert ReadLE64(s, i) % 0x1_0000_0000 == a && ReadLE64(s, i) / 0x1_0000_0000 == b;
    LE32At(s, i);
    LE32At(s, i + 4);
    assert s[i..i + 8] == s[i..i + 4] + s[i + 4..i + 8];
  }

  /** The flags of an accepted header are those that are written for it. */
  lemma FlgIs(flg: byte, i: Info)
    requires flg / 2 % 2 == 0 && flg / 64 % 4 == 1
    requires i.linked == (flg / 32 % 2 == 0) && i.blockChecksum == (flg / 16 % 2 == 1)
    requires i.contentChecksum == (flg / 4 % 2 == 1)
    requires i.contentSize.Some? == (flg / 8 % 2 == 1) && i.dictId.Some? == (flg % 2 == 1)
    ensures Flg(i) == flg
  {
    var x: int := flg;
    Halves(x);
  }

  lemma Halves(x: int)
    requires 0 <= x < 256
    ensures x == 64 * (x / 64) + 32 * (x / 32 % 2) + 16 * (x / 16 % 2) + 8 * (x / 8 % 2) + 4 * (x / 4 % 2)
              + 2 * (x / 2 % 2) + x % 2
  {
    var a, b, c, d, e, g := x / 2, x / 4, x / 8, x / 16, x / 32, x / 64;
    assert b == a / 2;
    assert c == b / 2;
    assert d == c / 2;
    assert e == d / 2;
    assert g == e / 2;
  }

  /** A header that is accepted is the header of the parameters that were read. */
  lemma {:induction false} HeaderSound(s: bytes)
    requires ParseHeader(s).Complete?
    ensures var i := ParseHeader(s).info;
      InfoOk(i) && HeaderLength(i) <= |s| && s[..HeaderLength(i)] == Header(i)
  {
    hide LE32, LE64, ReadLE32, ReadLE64, HeaderChecksum, Flg;
    var i := ParseHeader(s).info;
    var n := HeaderLength(i);
    FlgIs(s[4], i);
    LE32At(s, 0);
    DescriptorRead(s, i, n);
    assert s[..n] == s[0..4] + s[4..n - 1] + [s[n - 1]];
  }

  /** As many bytes as the first seven ask for are the whole header. */
  lemma {:induction false} StoredWhole(s: bytes, n: nat)
    requires |s| == n >= MIN_HEADER && (n > MIN_HEADER ==> ParseHeader(s[..MIN_HEADER]) == NeedMore(n))
    ensures ParseHeader(s).NeedMore? ==> n == MIN_HEADER
    ensures ParseHeader(s).Complete? ==> HeaderLength(ParseHeader(s).info) == n
  {
    hide IsSkippable, HeaderChecksum, ReadLE64, ReadLE32;
    SameMagic(s, MIN_HEADER);
    assert s[..MIN_HEADER][4] == s[4];
  }

  lemma {:induction false} DescriptorRead(s: bytes, i: Info, n: nat)
    requires InfoOk(i) && n == HeaderLength(i) <= |s| && s[4] == Flg(i) && s[5] == Bd(i)
    requires i.contentSize.Some? ==> i.contentSize.value == ReadLE64(s, 6)
    requires i.dictId.Some? ==> i.dictId.value == ReadLE32(s, n - 5)
    ensures s[4..n - 1] == Descriptor(i)
  {
    hide LE32, LE64, ReadLE32, ReadLE64, Flg, Bd;
    var m := 6 + 8 * Bit(i.contentSize.Some?);
    if i.contentSize.Some? { LE64At(s, 6); }
    if i.dictId.Some? { LE32At(s, n - 5); }
    assert s[6..m] == SizeField(i.contentSize) && s[m..n - 1] == IdField(i.dictId);
    assert s[4..n - 1] == [s[4], s[5]] + s[6..m] + s[m..n - 1];
  }

  // ----- What stands after the end of a history stands after the whole of it -----

  lemma {:induction false} UnfoldShift(x: bytes, h: bytes, ss: seq<Seqn>)
    requires Readable(|h|, ss)
    ensures Readable(|x + h|, ss) && Unfold(x + h, ss) == x + Unfold(h, ss)
    ensures SeqnsBytes(|x + h|, ss) == SeqnsBytes(|h|, ss)
    decreases |ss|
  {
    hide CopyMatch, EncodeSeqn;
    if ss != [] {
      var s := ss[0];
      var h1 := CopyMatch(h + s.literals, s.offset, s.mlen);
      assert x + h + s.literals == x + (h + s.literals);
      BlockApi.ShiftCopy(x, h + s.literals, s.offset, s.mlen);
      UnfoldShift(x, h1, ss[1..]);
      assert |x + h1| == |x + h| + |s.literals| + s.mlen;
    }
  }

  lemma {:induction false} StandsShift(x: bytes, h: bytes, src: bytes, content: bytes)
    requires StandsFor(src, h, h + content)
    ensures StandsFor(src, x + h, x + h + content)
  {
    hide Readable, Unfold, SeqnsBytes, RunStart;
    var ss, last, low :| Reads(src, h, ss, last, low, h + content);
    UnfoldShift(x, h, ss);
    assert x + (Unfold(h, ss) + last) == x + Unfold(h, ss) + last;
    assert x + (h + content) == x + h + content;
    assert Reads(src, x + h, ss, last, low, x + h + content);
  }

  lemma {:induction false} StillReadable(n: nat, m: nat, ss: seq<Seqn>)
    requires Readable(n, ss) && DISTANCE_MAX <= m
    ensures Readable(m, ss)
    decreases |ss|
  {
    if ss != [] { StillReadable(n + |ss[0].literals| + ss[0].mlen, m + |ss[0].literals| + ss[0].mlen, ss[1..]); }
  }

  /** More than 64 KB of history are not needed. */
  lemma {:induction false} StandsCut(x: bytes, h: bytes, src: bytes, content: bytes)
    requires StandsFor(src, x + h, x + h + content) && KB64 <= |h|
    ensures StandsFor(src, h, h + content)
  {
    hide Readable, Unfold, SeqnsBytes, RunStart;
    var ss, last, low :| Reads(src, x + h, ss, last, low, x + h + content);
    StillReadable(|x + h|, |h|, ss);
    UnfoldShift(x, h, ss);
    assert x + (Unfold(h, ss) + last) == x + Unfold(h, ss) + last;
    assert x + (h + content) == x + h + content;
    assert (x + (Unfold(h, ss) + last))[|x|..] == Unfold(h, ss) + last && (x + (h + content))[|x|..] == h + content;
    assert Reads(src, h, ss, last, low, h + content);
  }

  /** A block stands for the same after every string that ends like its last 64 KB of history. */
  lemma {:induction false} StandsKeeps(d: bytes, h: bytes, src: bytes, content: bytes)
    requires StandsFor(src, d, d + content) && Covers(d, h)
    ensures StandsFor(src, h, h + content)
  {
    hide StandsFor;
    var n := Min(KB64, |h|);
    var x, y, e := d[..|d| - n], h[..|h| - n], h[|h| - n..];
    assert d == x + e && h == y + e;
    if n == KB64 {
      StandsCut(x, e, src, content);
      StandsShift(y, e, src, content);
    } else {
      assert d == h;
    }
  }

  /** What a decoding with the end of a covering dictionary means for the whole history. */
  lemma {:induction false} DecodedStands(data: bytes, seen: bytes, full: bytes, ext: nat, cap: nat, r: int, now: bytes,
      at: nat, h: bytes)
    requires ext <= |seen| <= |full| && seen == full[|full| - |seen|..] && (|seen| == |full| || |seen| == KB64)
    requires BlockApi.Returns(Decompress(data, seen, ext, cap, false), seen, r, now, at, cap)
    requires !Decompress(data, seen, ext, cap, false).Unspecified? && Covers(full, h) && 0 <= r
    ensures r <= cap && at + r <= |now| && StandsFor(data, h, h + now[at..at + r])
  {
    hide Decompress, Covers, StandsFor;
    CoversSeen(full, h, seen);
    DecodedWasBlock(data, seen, ext, cap, seen + now[at..at + r]);
    StandsKeeps(seen, h, data, now[at..at + r]);
  }

  // ----- What has been read of a frame -----

  /** `front` is the header and the blocks `blocks` that are complete, `data` what has been read of a stored
      block, and `read` everything read since the start of the frame. */
  datatype Log = Log(info: Info, blocks: seq<Block>, front: bytes, data: bytes, read: bytes)

  /** The input up to `ip'` has been read as well. */
  ghost predicate Heard(g: Log, g': Log, k: Call, ip: nat, ip': nat) {
    ip <= ip' <= |k.src| && g'.read == g.read + k.src[ip..ip']
  }

  lemma HeardNothing(g: Log, k: Call)
    ensures Heard(g, g, k, 0, 0)
  {
  }

  lemma HeardMore(g: Log, g1: Log, g2: Log, k: Call, a: nat, b: nat, c: nat)
    requires Heard(g, g1, k, a, b) && Heard(g1, g2, k, b, c)
    ensures Heard(g, g2, k, a, c)
  {
    assert k.src[a..c] == k.src[a..b] + k.src[b..c];
  }

  lemma HeardNone(g: Log, k: Call, ip: nat)
    requires ip <= |k.src|
    ensures Heard(g, g, k, ip, ip)
  {
    assert g.read + k.src[ip..ip] == g.read;
  }

  lemma HeardSame(g: Log, g1: Log, g2: Log, k: Call, a: nat, b: nat)
    requires Heard(g, g1, k, a, b) && g2.read == g1.read
    ensures Heard(g, g2, k, a, b)
  {
  }

  lemma HeardAll(g: Log, g': Log, k: Call, ip: nat)
    requires Heard(g, g', k, 0, ip)
    ensures ip <= |k.src| && g'.read == g.read + k.src[..ip]
  {
    assert k.src[0..ip] == k.src[..ip];
  }

  function MoreRead(g: Log, x: bytes): Log {
    g.(read := g.read + x)
  }

  ghost predicate FrontOk(i: Info, blocks: seq<Block>, front: bytes, dict: bytes, check: bool) {
    && InfoOk(i) && BlocksStand(i, dict, blocks) && HeaderLength(i) <= |front|
    && front[..HeaderLength(i)] == Header(i) && Spells(front[HeaderLength(i)..], i, blocks, check)
  }

  lemma {:induction false} FrontStart(i: Info, blocks: seq<Block>, front: bytes, dict: bytes, check: bool)
    requires InfoOk(i) && blocks == [] && front == Header(i)
    ensures FrontOk(i, blocks, front, dict, check)
  {
    hide Header, InfoOk;
    assert front[..HeaderLength(i)] == front && front[HeaderLength(i)..] == [];
  }

  lemma {:induction false} SpellsLess(s: bytes, i: Info, blocks: seq<Block>)
    requires Spells(s, i, blocks, true)
    ensures Spells(s, i, blocks, false)
    decreases |blocks|
  {
    hide Footer, LE32;
    if blocks != [] {
      SpellsLess(s[..|s| - BlockLength(i, blocks[|blocks| - 1])], i, blocks[..|blocks| - 1]);
    }
  }

  lemma {:induction false} FrontLess(i: Info, blocks: seq<Block>, front: bytes, dict: bytes, check: bool, less: bool)
    requires FrontOk(i, blocks, front, dict, check) && (less ==> check)
    ensures FrontOk(i, blocks, front, dict, less)
  {
    hide Header, InfoOk, BlocksStand, Spells;
    if check && !less { SpellsLess(front[HeaderLength(i)..], i, blocks); }
  }

  lemma {:induction false} StandNext(i: Info, dict: bytes, blocks: seq<Block>, b: Block)
    requires BlocksStand(i, dict, blocks)
    requires BlockStands(b, Before(Frame(i, dict, blocks), |blocks|), BlockSize(i.sizeId))
    ensures BlocksStand(i, dict, blocks + [b])
  {
    hide BlockStands, BlockSize, Out;
    var more := blocks + [b];
    forall n | 0 <= n < |more| ensures BlockStands(more[n], Before(Frame(i, dict, more), n), BlockSize(i.sizeId)) {
      OutSame(blocks, more, n);
      assert more[n] == if n < |blocks| then blocks[n] else b;
    }
  }

  lemma {:induction false} SpellsNext(s: bytes, i: Info, blocks: seq<Block>, check: bool, b: Block, part: bytes,
      foot: bytes)
    requires Spells(s, i, blocks, check) && |b.data| < UNCOMPRESSED_FLAG
    requires part == LE32(BlockHeader(b)) + b.data && |foot| == BLOCK_FOOTER * Bit(i.blockChecksum)
    requires check ==> foot == Footer(i.blockChecksum, b.data)
    ensures Spells(s + part + foot, i, blocks + [b], check)
  {
    hide Footer, LE32, BlockHeader;
    var more, all := blocks + [b], s + part + foot;
    assert more[|more| - 1] == b && more[..|more| - 1] == blocks;
    var n := |all| - BlockLength(i, b);
    assert n == |s|;
    assert all[..n] == s;
    assert all[n..n + BLOCK_HEADER + |b.data|] == part && all[n + BLOCK_HEADER + |b.data|..] == foot;
  }

  /** One more block. */
  lemma {:induction false} FrontNext(i: Info, blocks: seq<Block>, front: bytes, dict: bytes, check: bool, b: Block,
      foot: bytes)
    requires FrontOk(i, blocks, front, dict, check) && |b.data| < UNCOMPRESSED_FLAG
    requires BlockStands(b, Before(Frame(i, dict, blocks), |blocks|), BlockSize(i.sizeId))
    requires |foot| == BLOCK_FOOTER * Bit(i.blockChecksum)
    requires check ==> foot == Footer(i.blockChecksum, b.data)
    ensures FrontOk(i, blocks + [b], front + (LE32(BlockHeader(b)) + b.data) + foot, dict, check)
    ensures Made(blocks + [b]) == Made(blocks) + b.content
  {
    hide Header, InfoOk, BlocksStand, Spells, BlockStands, LE32, Footer, BlockHeader, BlockSize, Made;
    var h, part := HeaderLength(i), LE32(BlockHeader(b)) + b.data;
    var now := front + part + foot;
    StandNext(i, dict, blocks, b);
    MadeNext(blocks, b);
    SpellsNext(front[h..], i, blocks, check, b, part, foot);
    assert now[h..] == front[h..] + part + foot;
    assert now[..h] == front[..h];
  }

  /** A skippable frame is passed over, whatever it holds. */
  lemma {:induction false} SkippableEnd(read: bytes, dict: bytes, check: bool)
    requires 8 <= |read| && IsSkippable(ReadLE32(read, 0)) && ReadLE32(read, 4) == |read| - 8
    ensures WasFrame(read, dict, check, [])
  {
    hide LE32, ReadLE32;
    var f := Skippable(ReadLE32(read, 0) - MAGIC_SKIPPABLE_START, read[8..]);
    LE32At(read, 0);
    LE32At(read, 4);
    assert read == read[0..4] + read[4..8] + read[8..];
    assert Accepted(read, f, check);
  }

  /** The end mark and the checksum complete the frame. */
  lemma {:induction false} FrameEnd(i: Info, blocks: seq<Block>, front: bytes, dict: bytes, check: bool, foot: bytes,
      read: bytes)
    requires FrontOk(i, blocks, front, dict, check) && read == front + LE32(0) + foot
    requires |foot| == BLOCK_FOOTER * Bit(i.contentChecksum)
    requires check ==> foot == Footer(i.contentChecksum, Made(blocks))
    requires SizeCounts(i.contentSize, |Made(blocks)|)
    ensures Accepted(read, Frame(i, dict, blocks), check)
    ensures FrameContent(Frame(i, dict, blocks)) == Made(blocks)
  {
    hide Header, InfoOk, BlocksStand, Spells, LE32, Footer, SizeCounts;
    var h, n := HeaderLength(i), |front|;
    assert read[..h] == front[..h];
    assert read[h..n] == front[h..];
    assert read[n..n + BLOCK_HEADER] == LE32(0) && read[n + BLOCK_HEADER..] == foot;
  }

  /** No byte read stands for more than a block. */
  lemma {:induction false} SpellsBound(s: bytes, i: Info, blocks: seq<Block>, check: bool)
    requires Spells(s, i, blocks, check)
    requires forall n :: 0 <= n < |blocks| ==> |blocks[n].content| <= MAX_BLOCK
    ensures |Made(blocks)| <= |s| * MAX_BLOCK
    decreases |blocks|
  {
    hide LE32, Footer, BlockHeader;
    if blocks == [] {
      assert Made(blocks) == [];
    } else {
      var less, b := blocks[..|blocks| - 1], blocks[|blocks| - 1];
      var n := |s| - BlockLength(i, b);
      SpellsBound(s[..n], i, less, check);
      assert less + [b] == blocks;
      MadeNext(less, b);
    }
  }

  lemma {:induction false} FrontBound(i: Info, blocks: seq<Block>, front: bytes, dict: bytes, check: bool)
    requires FrontOk(i, blocks, front, dict, check)
    ensures |Made(blocks)| <= |front| * MAX_BLOCK
  {
    hide Header, InfoOk, Spells, Made, BlockSize, Before;
    forall n | 0 <= n < |blocks| ensures |blocks[n].content| <= MAX_BLOCK {
      assert BlockStands(blocks[n], Before(Frame(i, dict, blocks), n), BlockSize(i.sizeId));
    }
    SpellsBound(front[HeaderLength(i)..], i, blocks, check);
  }

  /** `read` is a frame of `content` after the dictionary `dict`. */
  ghost predicate WasFrame(read: bytes, dict: bytes, check: bool, content: bytes) {
    exists f: Frame :: Accepted(read, f, check) && FrameContent(f) == content && (f.Frame? ==> f.dict == dict)
  }

  lemma CountedDown(size: nat, made: nat, remaining: nat, x: nat)
    requires remaining == (size - made) % TWO64
    ensures (remaining - x) % TWO64 == (size - (made + x)) % TWO64
  {
    var q := (size - made) / TWO64;
    assert size - (made + x) == (remaining - x) + TWO64 * q;
    ModTwo64(remaining - x, q);
  }

  lemma ModTwo64(a: int, q: int)
    ensures (a + TWO64 * q) % TWO64 == a % TWO64
  {
    var b, r := a / TWO64, a % TWO64;
    assert a + TWO64 * q == TWO64 * (b + q) + r;
  }

  /** Nothing is missing of a size, modulo 2^64. */
  lemma CountedOut(size: nat, made: nat)
    requires size < TWO64 && (size - made) % TWO64 == 0
    ensures size == made % TWO64
  {
    var q := (size - made) / TWO64;
    assert made == size + TWO64 * (-q);
    ModTwo64(size, -q);
  }

  // ----- Valid frames are accepted, and accepted for what they are -----

  /** Blocks that a compressor may have made are blocks in this sense. */
  lemma {:induction false} ValidStands(f: Frame)
    requires ValidFrame(f) && f.Frame?
    ensures BlocksStand(f.info, f.dict, f.blocks)
  {
    hide IsBlockOf, StandsFor, BlockSize, InfoOk, SizeDeclared, Out;
    forall n | 0 <= n < |f.blocks|
      ensures BlockStands(f.blocks[n], Before(f, n), BlockSize(f.info.sizeId))
    {
      var b := f.blocks[n];
      assert BlockOk(b, Before(f, n), BlockSize(f.info.sizeId));
      if b.compressed { BlockStandsFor(Before(f, n), b.content, b.data); }
    }
  }

  /** The bytes of the first `n` blocks. */
  ghost function Front(i: Info, blocks: seq<Block>): bytes
    requires forall k :: 0 <= k < |blocks| ==> |blocks[k].data| < UNCOMPRESSED_FLAG
    decreases |blocks|
  {
    if blocks == [] then [] else
      Front(i, blocks[..|blocks| - 1]) + (LE32(BlockHeader(blocks[|blocks| - 1])) + blocks[|blocks| - 1].data)
      + Footer(i.blockChecksum, blocks[|blocks| - 1].data)
  }

  lemma {:induction false} ThreeParts(s: bytes, a: bytes, b: bytes, c: bytes)
    ensures s == a + (b + c) <==>
      |s| == |a| + |b| + |c| && s[..|a|] == a && s[|a|..|a| + |b|] == b && s[|a| + |b|..] == c
  {
    if |s| == |a| + |b| + |c| {
      assert s == s[..|a|] + (s[|a|..|a| + |b|] + s[|a| + |b|..]);
    }
  }

  /** With checked checksums the blocks are spelled in one way only. */
  lemma {:induction false} SpellsIs(s: bytes, i: Info, blocks: seq<Block>)
    requires forall k :: 0 <= k < |blocks| ==> |blocks[k].data| < UNCOMPRESSED_FLAG
    ensures Spells(s, i, blocks, true) <==> s == Front(i, blocks)
    decreases |blocks|
  {
    hide LE32, Footer, BlockHeader;
    if blocks != [] {
      var b, rest := blocks[|blocks| - 1], blocks[..|blocks| - 1];
      var n := |s| - BlockLength(i, b);
      var front, part, foot := Front(i, rest), LE32(BlockHeader(b)) + b.data, Footer(i.blockChecksum, b.data);
      SpellsIs(if 0 <= n then s[..n] else s, i, rest);
      assert Front(i, blocks) == front + (part + foot);
      ThreeParts(s, front, part, foot);
    }
  }

  lemma {:induction false} BodyFront(f: Frame, n: nat)
    requires ValidFrame(f) && f.Frame? && n <= |f.blocks|
    ensures forall k :: 0 <= k < |f.blocks| ==> |f.blocks[k].data| < UNCOMPRESSED_FLAG
    ensures Body(f, 0) == Front(f.info, f.blocks[..n]) + Body(f, n)
  {
    hide BlockOk, LE32, Footer, BlockHeader, InfoOk, SizeDeclared, BlockSize, ValidFrame;
    DataFits(f);
    if n > 0 {
      BodyFront(f, n - 1);
      var b, rest := f.blocks[n - 1], f.blocks[..n - 1];
      assert f.blocks[..n][..n - 1] == rest && f.blocks[..n][n - 1] == b;
      var part, foot, more := LE32(BlockHeader(b)) + b.data, Footer(f.info.blockChecksum, b.data), Body(f, n);
      assert Body(f, n - 1) == part + foot + more;
      assert Front(f.info, rest) + (part + foot + more) == Front(f.info, rest) + part + foot + more;
    }
  }

  lemma {:induction false} DataFits(f: Frame)
    requires ValidFrame(f) && f.Frame?
    ensures forall k :: 0 <= k < |f.blocks| ==> |f.blocks[k].data| < UNCOMPRESSED_FLAG
  {
    hide InfoOk, SizeDeclared, Before;
    forall k | 0 <= k < |f.blocks| ensures |f.blocks[k].data| < UNCOMPRESSED_FLAG {
      assert BlockOk(f.blocks[k], Before(f, k), BlockSize(f.info.sizeId));
      BlockDataFits(f.blocks[k], Before(f, k), BlockSize(f.info.sizeId));
    }
  }

  lemma {:induction false} BodyIs(f: Frame)
    requires ValidFrame(f) && f.Frame?
    ensures forall k :: 0 <= k < |f.blocks| ==> |f.blocks[k].data| < UNCOMPRESSED_FLAG
    ensures Body(f, 0) == Front(f.info, f.blocks) + (LE32(0) + Footer(f.info.contentChecksum, FrameContent(f)))
  {
    hide LE32, Footer, Front, FrameContent, ValidFrame;
    BodyFront(f, |f.blocks|);
    assert f.blocks[..|f.blocks|] == f.blocks;
  }

  /** Of a valid frame exactly its encoding is accepted, when checksums are checked. */
  lemma {:induction false} ValidAccepted(s: bytes, f: Frame)
    requires ValidFrame(f)
    ensures Accepted(s, f, true) <==> s == Encode(f)
  {
    if f.Frame? { ValidFrameAccepted(s, f); }
  }

  lemma {:induction false} ValidFrameAccepted(s: bytes, f: Frame)
    requires ValidFrame(f) && f.Frame?
    ensures Accepted(s, f, true) <==> s == Encode(f)
  {
    hide Header, LE32, Footer, BlocksStand, Spells, BlockSize, BlockOk, Front, FrameContent, HeaderLength, Body;
    ValidStands(f);
    BodyIs(f);
    var hd, front, mark, foot := Header(f.info), Front(f.info, f.blocks), LE32(0),
      Footer(f.info.contentChecksum, FrameContent(f));
    ThreeParts(s, hd, front, mark + foot);
    var n := |s| - |mark + foot|;
    if |hd| <= n {
      SpellsIs(s[|hd|..n], f.info, f.blocks);
      assert s[n..] == mark + foot <==> s[n..n + BLOCK_HEADER] == mark && s[n + BLOCK_HEADER..] == foot by {
        assert s[n..] == s[n..n + BLOCK_HEADER] + s[n + BLOCK_HEADER..];
        assert (mark + foot)[..BLOCK_HEADER] == mark && (mark + foot)[BLOCK_HEADER..] == foot;
      }
    }
  }
}
