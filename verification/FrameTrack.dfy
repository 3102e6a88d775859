/** What the frame decoder is described by: stages, the frame it follows, and facts about strings. */
module FrameTrack {
  import opened Bytes
  import opened BlockWriter
  import opened BlockApi
  import opened WildCopy
  import opened BlockDecoderSpec
  import opened FrameFormat
  import opened FrameHistory

  const TWO64 := 0x1_0000_0000_0000_0000

  datatype Stage =
    | GetFrameHeader | StoreFrameHeader | Init
    | GetBlockHeader | StoreBlockHeader
    | CopyDirect | GetBlockChecksum
    | GetCBlock | StoreCBlock | FlushOut
    | GetSuffix | StoreSuffix
    | GetSFrameSize | StoreSFrameSize | SkipSkippable

  /** What becomes of the history: untouched dictionary, covered by `dict`, partly waiting in
      the internal buffer, or not needed any more. */
  datatype Phase = Fresh | Between | Flushing | Over

  function PhaseOf(s: Stage): Phase {
    match s
    case GetFrameHeader | StoreFrameHeader | Init => Fresh
    case FlushOut => Flushing
    case GetSuffix | StoreSuffix | GetSFrameSize | StoreSFrameSize | SkipSkippable => Over
    case _ => Between
  }

  /** How a pass of the state machine ends. */
  datatype Step = Again | Stop(hint: nat) | Fail(code: ErrorCode)

  /** The result of a call: how many bytes to present next, 0 at the end of a frame. */
  datatype Result = Hint(next: nat) | Error(code: ErrorCode)

  /** The buffers of one call; a null destination has no room. */
  datatype Call = Call(src: bytes, dst: array?<byte>, start: nat, end: nat)

  /** The frame that is being read: `n` blocks are complete, `rest` has not been read. */
  datatype Track = Off | On(f: Frame, n: nat, rest: bytes) | Done(f: Frame)

  predicate IsBlockSize(n: int) {
    n == KB64 || n == 4 * KB64 || n == 16 * KB64 || n == 64 * KB64
  }

  /** The internal buffers were allocated for one block size, linked or not. */
  predicate Allocated(inLength: int, outLength: int) {
    IsBlockSize(inLength - BLOCK_FOOTER)
    && (outLength == inLength - BLOCK_FOOTER || outLength == inLength - BLOCK_FOOTER + KB128)
  }

  // ----- Following the input -----

  lemma {:induction false} Consume(src: bytes, ip: nat, rest: bytes, n: nat)
    requires ip + n <= |src| && Agree(src[ip..], rest) && n <= |rest|
    ensures src[ip..ip + n] == rest[..n] && Agree(src[ip + n..], rest[n..])
  {
    var a, b := src[ip..], rest;
    var m := Min(|a|, |b|);
    assert src[ip..ip + n] == a[..m][..n] && b[..n] == b[..m][..n];
    var a', b' := src[ip + n..], rest[n..];
    assert a'[..m - n] == a[..m][n..] && b'[..m - n] == b[..m][n..];
  }

  /** Bytes moved to a buffer continue what the buffer holds. */
  lemma {:induction false} Stored(held: bytes, src: bytes, ip: nat, rest: bytes, c: nat, whole: bytes)
    requires ip + c <= |src| && Agree(src[ip..], rest) && c <= |rest|
    requires held + rest == whole
    ensures held + src[ip..ip + c] + rest[c..] == whole && Agree(src[ip + c..], rest[c..])
  {
    Consume(src, ip, rest, c);
    assert rest == rest[..c] + rest[c..];
    assert held + rest[..c] + rest[c..] == held + (rest[..c] + rest[c..]);
  }

  lemma {:induction false} StartOfFrame(f: Frame, s: bytes)
    requires ValidFrame(f) && Agree(s, Encode(f)) && MIN_HEADER <= |s|
    ensures f.Frame? ==>
              && ParseHeader(s)
                == (if |s| < HeaderLength(f.info) then NeedMore(HeaderLength(f.info)) else Complete(f.info))
              && HeaderLength(f.info) <= |Encode(f)| && Encode(f)[HeaderLength(f.info)..] == Body(f, 0)
    ensures f.Skippable? ==>
              && ParseHeader(s) == SkippableStart
              && 8 <= |Encode(f)| && Encode(f)[4..] == LE32(|f.payload|) + f.payload
  {
    hide ParseHeader, Body, Header, LE32, HeaderLength, ReadLE32;
    var e := Encode(f);
    var m := Min(|s|, |e|);
    assert s[..m] == e[..m];
    if f.Frame? {
      var h := Header(f.info);
      var n := Min(|s|, |h|);
      assert e[..n] == h[..n];
      assert s[..n] == s[..m][..n] && e[..n] == e[..m][..n];
      HeaderRoundTrip(f.info, s);
    } else {
      assert e == LE32(MAGIC_SKIPPABLE_START + f.nibble) + (LE32(|f.payload|) + f.payload);
      assert s[0..4] == s[..m][..4] && e[..4] == e[..m][..4];
      LE32Read(s, 0, MAGIC_SKIPPABLE_START + f.nibble);
      SkippableMagic(f.nibble, s);
    }
  }

  lemma LongEnough(s: bytes)
    requires MAX_HEADER <= |s|
    ensures !ParseHeader(s).NeedMore?
  {
    hide ReadLE32, IsSkippable, HeaderChecksum, ReadLE64;
  }

  /** As many bytes as LZ4F_headerSize says are enough for the parser. */
  lemma SizeMeansWhole(s: bytes)
    requires HeaderSize(s).Size? && HeaderSize(s).value <= |s|
    ensures var h := HeaderSize(s).value; MIN_HEADER <= h && !ParseHeader(s[..h]).NeedMore?
  {
    hide IsSkippable, HeaderChecksum, ReadLE64;
    var h := HeaderSize(s).value;
    assert ReadLE32(s[..h], 0) == ReadLE32(s, 0) && s[..h][4] == s[4];
  }

  /** What LZ4F_getFrameInfo wants to see of a frame. */
  function InfoSize(f: Frame): (n: nat)
    ensures 5 <= n
  {
    if f.Frame? then HeaderLength(f.info) else 8
  }

  lemma {:induction false} InfoSizeIs(f: Frame, s: bytes)
    requires ValidFrame(f) && Agree(s, Encode(f))
    ensures if |s| < 5 then HeaderSize(s).Unknown? else HeaderSize(s) == Size(InfoSize(f))
  {
    hide Body, Header, LE32, HeaderLength, ReadLE32;
    if |s| >= 5 {
      var e := Encode(f);
      EncodeLength(f);
      var m := Min(|s|, |e|);
      assert s[..m] == e[..m];
      if f.Frame? {
        var h := Header(f.info);
        var n := Min(|s|, |h|);
        assert e[..n] == h[..n];
        assert s[..n] == s[..m][..n] && e[..n] == e[..m][..n];
        HeaderSizeIs(f.info, s);
      } else {
        assert e == LE32(MAGIC_SKIPPABLE_START + f.nibble) + (LE32(|f.payload|) + f.payload);
        assert s[0..4] == s[..m][..4] && e[..4] == e[..m][..4];
        LE32Read(s, 0, MAGIC_SKIPPABLE_START + f.nibble);
        assert ReadLE32(s, 0) / 16 == MAGIC_SKIPPABLE_START / 16;
      }
    }
  }

  lemma AgreeShorter(s: bytes, rest: bytes, n: nat)
    requires Agree(s, rest) && n <= |s|
    ensures Agree(s[..n], rest)
  {
    var m := Min(|s|, |rest|);
    var m' := Min(n, |rest|);
    assert s[..n][..m'] == s[..m][..m'] && rest[..m'] == rest[..m][..m'];
  }

  lemma SkippableMagic(nibble: nat, s: bytes)
    requires nibble < 16 && MIN_HEADER <= |s| && ReadLE32(s, 0) == MAGIC_SKIPPABLE_START + nibble
    ensures ParseHeader(s) == SkippableStart
  {
    hide ReadLE32;
  }

  lemma {:induction false} BodyStart(f: Frame, n: nat)
    requires ValidFrame(f) && f.Frame? && n <= |f.blocks|
    ensures n < |f.blocks| ==>
              var b := f.blocks[n];
              && BlockOk(b, Before(f, n), BlockSize(f.info.sizeId))
              && |b.data| < UNCOMPRESSED_FLAG
              && Body(f, n) == LE32(BlockHeader(b)) + (b.data + Footer(f.info.blockChecksum, b.data) + Body(f, n + 1))
    ensures n == |f.blocks| ==> Body(f, n) == LE32(0) + Footer(f.info.contentChecksum, FrameContent(f))
  {
    hide BlockOk, LE32, BlockHeader, Footer, FrameContent, Out, Before, InfoOk, SizeDeclared, BlockSize;
    if n < |f.blocks| {
      var b := f.blocks[n];
      BlockDataFits(b, Before(f, n), BlockSize(f.info.sizeId));
      assert LE32(BlockHeader(b)) + b.data + Footer(f.info.blockChecksum, b.data) + Body(f, n + 1)
          == LE32(BlockHeader(b)) + (b.data + Footer(f.info.blockChecksum, b.data) + Body(f, n + 1));
    }
  }

  lemma BlockDataFits(b: Block, h: bytes, max: nat)
    requires BlockOk(b, h, max) && max <= 64 * KB64
    ensures |b.data| < UNCOMPRESSED_FLAG && |b.data| <= max && |b.content| <= max
    ensures !b.compressed ==> b.content == b.data
    ensures b.compressed ==> IsBlockOf(h, b.content, b.data)
  {
    hide IsBlockOf;
  }

  lemma {:induction false} OutPrefix(blocks: seq<Block>, n: nat, m: nat)
    requires n <= m <= |blocks|
    ensures |Out(blocks, n)| <= |Out(blocks, m)|
    decreases m - n
  {
    if n < m {
      OutPrefix(blocks, n, m - 1);
    }
  }

  /** What follows the data of block `n`. */
  ghost function Tail(f: Frame, n: nat): bytes
    requires ValidFrame(f) && f.Frame? && n < |f.blocks|
  {
    Footer(f.info.blockChecksum, f.blocks[n].data) + Body(f, n + 1)
  }

  ghost predicate Next(t: Track, t': Track, c: nat) {
    t.On? ==>
      && !t'.Off? && t'.f == t.f
      && (t'.On? ==> c <= |t.rest| && t'.rest == t.rest[c..])
      && (t'.Done? ==> c == |t.rest|)
  }

  /** The running hash and the size still expected. */
  ghost predicate SumsOk(check: bool, xxh: bytes, made: bytes, size: nat, remaining: nat) {
    && (check ==> xxh == made)
    && remaining == if size == 0 then 0 else size - |made|
  }

  /** `left` bytes of stored block `n` are not copied yet, and begin `whole`. */
  ghost predicate CopyAt(f: Frame, n: nat, left: nat, whole: bytes, made: bytes, xxh: bytes, check: bool)
    requires ValidFrame(f) && f.Frame?
  {
    && n < |f.blocks| && !f.blocks[n].compressed && left <= |f.blocks[n].data|
    && var data, done := f.blocks[n].data, |f.blocks[n].data| - left;
       && made == Out(f.blocks, n) + data[..done]
       && whole == data[done..] + Tail(f, n)
       && (check ==> xxh == data[..done])
  }

  lemma {:induction false} CopyAtMore(f: Frame, n: nat, left: nat, whole: bytes, made: bytes, xxh: bytes, check: bool,
      c: nat)
    requires ValidFrame(f) && f.Frame? && CopyAt(f, n, left, whole, made, xxh, check) && c <= left
    ensures c <= |whole|
    ensures var x := whole[..c];
      && CopyAt(f, n, left - c, whole[c..], made + x, xxh + x, check)
      && |made + x| <= |FrameContent(f)|
  {
    hide Tail, Out, ValidFrame, BlockOk;
    var data, done, rest := f.blocks[n].data, |f.blocks[n].data| - left, Tail(f, n);
    var x := data[done..done + c];
    assert whole[..c] == x && whole[c..] == data[done + c..] + rest;
    assert data[..done] + x == data[..done + c];
    assert Out(f.blocks, n) + data[..done] + x == Out(f.blocks, n) + (data[..done] + x);
    BlockContent(f, n);
    OutPrefix(f.blocks, n + 1, |f.blocks|);
  }

  lemma {:induction false} BlockContent(f: Frame, n: nat)
    requires ValidFrame(f) && f.Frame? && n < |f.blocks|
    ensures Out(f.blocks, n + 1) == Out(f.blocks, n) + f.blocks[n].content
    ensures !f.blocks[n].compressed ==> f.blocks[n].content == f.blocks[n].data
    ensures f.blocks[n].compressed ==> IsBlockOf(Before(f, n), f.blocks[n].content, f.blocks[n].data)
    ensures |f.blocks[n].content| <= BlockSize(f.info.sizeId)
  {
    hide IsBlockOf, BlockSize;
    assert BlockOk(f.blocks[n], Before(f, n), BlockSize(f.info.sizeId));
  }

  lemma SumsMore(check: bool, xxh: bytes, made: bytes, size: nat, remaining: nat, x: bytes, xxh': bytes,
      remaining': nat)
    requires SumsOk(check, xxh, made, size, remaining) && (check ==> xxh' == xxh + x)
    requires remaining' == if size != 0 then (remaining - |x|) % TWO64 else remaining
    requires size != 0 ==> |made + x| <= size < TWO64
    ensures SumsOk(check, xxh', made + x, size, remaining')
  {
  }

  /** Four bytes gathered from a field `whole` and what comes after it. */
  lemma {:induction false} Gather(src: bytes, ip: nat, ip': nat, held: bytes, rest: bytes, whole: bytes,
      selected: Option<bytes>)
    requires ip <= ip' <= |src| && Agree(src[ip..], rest) && held + rest == whole && 4 <= |whole|
    requires |held + src[ip..ip']| <= 4
    requires selected.Some? ==> |selected.value| == 4 && selected.value == held + src[ip..ip']
    ensures ip' - ip <= |rest|
    ensures held + src[ip..ip'] + rest[ip' - ip..] == whole && Agree(src[ip'..], rest[ip' - ip..])
    ensures selected.Some? ==> selected.value == whole[..4] && rest[ip' - ip..] == whole[4..]
  {
    hide Agree;
    var c := ip' - ip;
    Stored(held, src, ip, rest, c, whole);
    if selected.Some? {
      assert selected.value + rest[c..] == whole;
    }
  }

  /** More of a waiting block handed over. */
  lemma {:induction false} HandOver(b: bytes, start: nat, c: nat, emitted: bytes, made: bytes)
    requires start + c <= |b| && start <= |emitted| && emitted[|emitted| - start..] == b[..start]
    requires made == emitted + b[start..]
    ensures var e := emitted + b[start..start + c];
      e[|e| - (start + c)..] == b[..start + c] && made == e + b[start + c..]
  {
    var x, e := b[start..start + c], emitted + b[start..start + c];
    assert b[start..] == x + b[start + c..];
    assert b[..start + c] == b[..start] + x;
    assert e[|e| - (start + c)..] == emitted[|emitted| - start..] + x;
  }

  lemma NextSelf(t: Track)
    requires !t.Done?
    ensures Next(t, t, 0)
  {
    assert t.On? ==> t.rest[0..] == t.rest;
  }

  lemma NextMore(t: Track, t1: Track, t2: Track, c1: nat, c2: nat)
    requires Next(t, t1, c1) && Next(t1, t2, c2) && !t1.Done?
    ensures Next(t, t2, c1 + c2)
  {
    if t.On? && t2.On? {
      assert t.rest[c1..][c2..] == t.rest[c1 + c2..];
    }
  }

  lemma NextSame(t: Track, t1: Track, t2: Track, c: nat)
    requires Next(t, t1, c) && !t1.Done? && if t1.On? then t2.On? && t2.f == t1.f && t2.rest == t1.rest else t2.Off?
    ensures Next(t, t2, c) && !t2.Done?
  {
  }

  lemma NextDone(t: Track, t': Track)
    requires t.On? ==> t.rest == [] && t' == Done(t.f)
    ensures Next(t, t', 0)
  {
  }

  lemma StillOn(t: Track, t1: Track, c: nat)
    requires Next(t, t1, c) && !t1.Done?
    ensures t.On? ==> t1.On?
  {
  }

  lemma SumsLess(check: bool, xxh: bytes, made: bytes, size: nat, remaining: nat)
    ensures SumsOk(check, xxh, made, size, remaining) ==> SumsOk(false, xxh, made, size, remaining)
  {
  }

  lemma CopyLess(f: Frame, n: nat, left: nat, whole: bytes, made: bytes, xxh: bytes, check: bool)
    requires ValidFrame(f) && f.Frame?
    ensures CopyAt(f, n, left, whole, made, xxh, check) ==> CopyAt(f, n, left, whole, made, xxh, false)
  {
    hide Tail, Out, ValidFrame;
  }

  lemma {:induction false} EncodeLength(f: Frame)
    requires ValidFrame(f)
    ensures |Encode(f)| >= MIN_HEADER
    ensures f.Frame? ==> |Encode(f)| >= HeaderLength(f.info)
  {
    hide Header, Body;
  }

  lemma {:induction false} AgreePrefix(s: bytes, rest: bytes)
    ensures Agree(s, s + rest)
  {
    assert (s + rest)[..|s|] == s;
  }

  lemma SameMagic(s: bytes, n: nat)
    requires 4 <= n <= |s|
    ensures ReadLE32(s[..n], 0) == ReadLE32(s, 0)
  {
  }

  lemma {:induction false} SameStart(was: bytes, now: bytes, n: nat, held: bytes, more: bytes)
    requires n + |more| <= |was| == |now| && held == was[..n] && now[..n + |more|] == held + more
    ensures 4 <= n ==> ReadLE32(now, 0) == ReadLE32(was, 0)
  {
    if 4 <= n {
      assert now[..n] == now[..n + |more|][..n] == was[..n];
      SameMagic(now, n);
      SameMagic(was, n);
    }
  }

  lemma ParseFacts(s: bytes)
    ensures ParseHeader(s).SkippableStart? ==> MIN_HEADER <= |s| && IsSkippable(ReadLE32(s, 0))
    ensures ParseHeader(s).NeedMore? ==> MIN_HEADER <= |s| && !IsSkippable(ReadLE32(s, 0))
    ensures !ParseHeader(s).Failed? ==> MIN_HEADER <= |s|
  {
    hide ReadLE32, IsSkippable, HeaderChecksum, ReadLE64;
  }

  lemma HeaderLengthMax(f: Frame)
    ensures f.Frame? ==> MIN_HEADER <= HeaderLength(f.info) <= MAX_HEADER
  {
  }

  /** Whatever comes before, `part` and the block `b` behind it cover the history `all`. */
  ghost predicate FrontReady(part: bytes, b: bytes, at: nat, all: bytes) {
    |part| <= at && forall junk: bytes :: |junk| + |part| == at ==> Covers(junk + part + b, all)
  }

  lemma {:induction false} FrontIsReady(d: bytes, h: bytes, start: nat, at: nat, b: bytes, part: bytes, all: bytes)
    requires Covers(d, h) && start <= |b| && start <= |h| && h[|h| - start..] == b[..start] && all == h + b[start..]
    requires Min(KB64, |h| - start) <= at <= |h| - start
    requires |part| == Min(Max(0, KB64 - |b|), at)
    requires |part| > 0 ==> start + |part| <= |d| && part == d[|d| - start - |part|..|d| - start]
    ensures FrontReady(part, b, at, all)
  {
    hide Covers;
    forall junk: bytes | |junk| + |part| == at ensures Covers(junk + part + b, all) {
      var e := junk + part + b;
      assert e[|e| - |b|..] == b && e[|e| - |b| - |part|..|e| - |b|] == part;
      CoversFront(d, h, start, b, e, |part|, all);
    }
  }

  lemma {:induction false} FrontNow(was: bytes, now: bytes, at: nat, part: bytes, b: bytes, all: bytes)
    requires FrontReady(part, b, at, all) && at + |b| <= |was| == |now| && b == was[at..at + |b|]
    requires |part| <= at && now[at - |part|..at] == part && now[at..] == was[at..]
    ensures Covers(now[..at + |b|], all)
  {
    hide Covers;
    var junk := now[..at - |part|];
    assert now[at..at + |b|] == now[at..][..|b|] && was[at..at + |b|] == was[at..][..|b|];
    assert now[..at + |b|] == junk + part + b;
  }

  /** What a decoding with the end of a covering dictionary returns. */
  lemma {:induction false} DecodedAs(data: bytes, seen: bytes, full: bytes, ext: nat, cap: nat, r: int, now: bytes,
      at: nat,
                                     h: bytes, content: bytes)
    requires ext <= |seen| <= |full| && seen == full[|full| - |seen|..] && (|seen| == |full| || |seen| == KB64)
    requires !Decompress(data, seen, ext, cap, false).Unspecified?
    requires Returns(Decompress(data, seen, ext, cap, false), seen, r, now, at, cap)
    ensures r <= cap
    ensures Covers(full, h) && IsBlockOf(h, content, data) && |content| <= cap ==>
              r == |content| && at + r <= |now| && now[at..at + r] == content
  {
    hide Decompress, Covers, IsBlockOf;
    if Covers(full, h) && IsBlockOf(h, content, data) && |content| <= cap {
      CoversSeen(full, h, seen);
      BlockKeeps(seen, h, content, data);
      BlockDecodes(seen, content, data, ext, cap, false);
      assert (seen + content)[..|seen| + |content|] == seen + content;
      assert (seen + now[at..at + r])[|seen|..] == now[at..at + r] && (seen + content)[|seen|..] == content;
    }
  }

  lemma CoversSeen(full: bytes, h: bytes, seen: bytes)
    requires Covers(full, h) && |seen| <= |full| && seen == full[|full| - |seen|..]
      && (|seen| == |full| || |seen| == KB64)
    ensures Covers(seen, h)
  {
    hide Covers;
    if |seen| == |full| {
      assert seen == full;
    } else {
      CoversDrop(full, h, |full| - KB64);
    }
  }

  lemma EndSlice(s: bytes, a: nat, d: bytes, n: nat)
    requires a + |d| <= |s| && d == s[a..a + |d|] && n <= |d|
    ensures s[a + |d| - n..a + |d|] == d[|d| - n..]
  {
    SubSlice(s, a, a + |d|, |d| - n, |d|);
    assert d[|d| - n..|d|] == d[|d| - n..];
  }

  lemma SplitAt4(s: bytes, n: nat, was: bytes, more: bytes)
    requires 4 <= |was| && n == |was| + |more| <= |s| && s[..n] == was + more
    ensures s[4..n] == was[4..] + more
  {
    assert s[4..n] == s[..n][4..];
    assert (was + more)[4..] == was[4..] + more;
  }

  lemma BlockSizeIs(id: nat)
    ensures IsBlockSize(BlockSize(id))
  {
  }
}
