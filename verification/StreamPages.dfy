/**
  The stream bindings of _stream.c: chunks compressed and decompressed through two pages used in turn,
  each block with a length field in front. The pages are apart from each other here.
*/
module StreamPages {
  import opened Bytes
  import opened BlockWriter
  import opened WildCopy
  import opened FastStream
  import opened StreamBounds
  import opened FrameHistory
  import opened HcStream
  import HcSearch
  import StreamDecode
  import BlockDecoderSpec

  datatype Result = Ok(data: bytes) | Error

  /** Two pages with a gap between them. */
  datatype Pages = Pages(first: nat, second: nat, size: nat) {
    function At(index: nat): nat {
      if index == 0 then first else second
    }

    ghost predicate Valid(mem: nat) {
      && 0 < size && 0 < first && 0 < second && first + size <= mem && second + size <= mem
      && (first + size < second || second + size < first)
    }

    /** A region that the page in use neither touches nor continues. */
    ghost predicate Away(d: nat, z: nat, index: nat) {
      z == 0 || (Disjoint(d, z, At(index), size) && d + z != At(index))
    }
  }

  /** double_buffer_update_index */
  function Flip(index: nat): (r: nat)
    ensures r <= 1
    ensures index <= 1 ==> r != index
  {
    (index + 1) % 2
  }

  /** What has been written to one page is away from the other. */
  lemma OtherPage(p: Pages, mem: nat, index: nat, z: nat)
    requires p.Valid(mem) && index <= 1 && z <= p.size
    ensures p.Away(p.At(index), z, Flip(index))
  {
  }

  method WriteSource(mem: array<byte>, a: nat, source: bytes)
    requires a + |source| <= mem.Length
    modifies mem
    ensures mem[a..a + |source|] == source
    ensures forall i :: 0 <= i < mem.Length && !(a <= i < a + |source|) ==> mem[i] == old(mem[i])
  {
    forall k | 0 <= k < |source| {
      mem[a + k] := source[k];
    }
  }

  class Compressor {
    const mem: array<byte>
    const pages: Pages
    const width: nat
    const high: bool     // HIGH_COMPRESSION
    const s: Stream
    const hc: StreamHC
    var index: nat
    ghost var last: bytes

    /** What the stream refers to is `last`, and out of the way of the next page. */
    ghost predicate Valid()
      reads this, mem, s, s.hashTable, hc, hc.ctx, hc.ctx.hashTable, hc.ctx.chainTable
    {
      && pages.Valid(mem.Length) && CompressorOk(pages.size, width) && index <= 1
      && if high then HighOk() else FastOk()
    }

    ghost predicate FastOk()
      reads this, mem, s, s.hashTable
    {
      && s.Valid() && s.Linked(mem) && s.dictionary + s.dictSize <= mem.Length
      && (s.tableType.Cleared? ==> s.currentOffset <= KB64)
      && last == mem[s.dictionary..s.dictionary + s.dictSize]
      && pages.Away(s.dictionary, s.dictSize, index)
    }

    ghost predicate HighOk()
      reads this, mem, hc, hc.ctx, hc.ctx.hashTable, hc.ctx.chainTable
    {
      && hc.Valid() && hc.Placed(mem.Length)
      && if hc.started then
           && last == mem[hc.prefixStart..hc.prefixStart + |hc.ctx.prefix|]
           && hc.prefixStart + |hc.ctx.prefix| != pages.At(index)
           && pages.Away(hc.prefixStart, |hc.ctx.prefix|, index)
         else last == []
    }

    constructor (mem: array<byte>, pages: Pages, width: nat, high: bool, s: Stream, hc: StreamHC)
      requires pages.Valid(mem.Length) && CompressorOk(pages.size, width)
      requires !high ==>
        s.Valid() && s.Linked(mem) && s.dictionary + s.dictSize <= mem.Length && pages.Away(s.dictionary, s.dictSize, 0)
        && (s.tableType.Cleared? ==> s.currentOffset <= KB64)
      requires high ==>
        && hc.Valid() && hc.Placed(mem.Length)
        && (hc.started ==>
              hc.prefixStart + |hc.ctx.prefix| != pages.first && pages.Away(hc.prefixStart, |hc.ctx.prefix|, 0))
      ensures Valid() && this.mem == mem && this.pages == pages && this.width == width && this.high == high
      ensures this.s == s && this.hc == hc
      ensures last == if !high then mem[s.dictionary..s.dictionary + s.dictSize]
                      else if hc.started then mem[hc.prefixStart..hc.prefixStart + |hc.ctx.prefix|] else []
    {
      this.mem, this.pages, this.width, this.high, this.s, this.hc := mem, pages, width, high, s, hc;
      index := 0;
      last := if !high then mem[s.dictionary..s.dictionary + s.dictSize]
              else if hc.started then mem[hc.prefixStart..hc.prefixStart + |hc.ctx.prefix|] else [];
    }

    /** memcpy of the source into the page. */
    method FillPage(source: bytes)
      requires Valid() && |source| <= pages.size
      modifies mem
      ensures Valid() && mem[pages.At(index)..pages.At(index) + |source|] == source
    {
      hide Stream.Valid, Stream.Linked, StreamHC.Valid;
      ghost var was := mem[..];
      var a := pages.At(index);
      WriteSource(mem, a, source);
      if high {
        if hc.started { SliceKept(was, mem[..], hc.prefixStart, hc.prefixStart + |hc.ctx.prefix|, a, |source|); }
      } else {
        SliceKept(was, mem[..], s.dictionary, s.dictionary + s.dictSize, a, |source|);
      }
    }

    /** _compress_generic: the block of the page, after the last chunk. */
    method CompressPage(n: nat, out: array<byte>, acceleration: int) returns (size: nat)
      requires Valid() && n <= pages.size && out.Length == GetCompressBound(pages.size) && out != mem
      requires HcSearch.Apart(hc.ctx, out)
      modifies s, s.hashTable, hc, hc.ctx, hc.ctx.hashTable, hc.ctx.chainTable, out
      ensures PageDone(n) && 0 < size <= n + n / 255 + 2 && size <= out.Length
      ensures IsBlockOf(last, mem[pages.At(index)..pages.At(index) + n], out[..size])
    {
      hide Stream.Valid, Stream.Linked, StreamHC.Valid, IsBlockOf, EndOf, Stream.NextRun, Within, StreamHC.TriedAfter,
        NoneFits, StreamHC.AllKnown;
      assert EndOf(last, last) by { Whole(last); }
      BoundGrows(n, pages.size);
      if high {
        HighUsable(n);
        size := hc.Continue(mem, pages.At(index), n, out, last);
      } else {
        Untouched();
        size := s.Continue(mem, pages.At(index), n, out, acceleration, last);
      }
    }

    /** The stream now refers to the page. */
    ghost predicate PageDone(n: nat)
      reads this, mem, s, s.hashTable, hc, hc.ctx, hc.ctx.hashTable, hc.ctx.chainTable
    {
      if high then
        && hc.Valid() && hc.started && hc.InMemory(mem) && hc.prefixStart == pages.At(index) && |hc.ctx.prefix| == n
      else
        && s.Valid() && s.Linked(mem) && s.dictionary == pages.At(index) && s.dictSize == n
        && (s.tableType.Cleared? ==> s.currentOffset <= KB64)
    }

    lemma Untouched()
      requires Valid() && !high
      ensures forall n {:trigger s.Intact(pages.At(index), n)} :: 0 <= n <= pages.size ==>
        s.Intact(pages.At(index), n) == s.dictSize
      ensures s.DictEnd() != pages.At(index)
    {
    }

    lemma HighUsable(n: nat)
      requires Valid() && high && n <= pages.size
      ensures hc.Usable(mem[..], pages.At(index), n) == last
    {
    }

    /** _compress: a length field and a block that decodes after the last chunk. */
    method Compress(source: bytes, acceleration: int) returns (r: Result)
      requires Valid()
      modifies this`index, this`last, mem, s, s.hashTable, hc, hc.ctx, hc.ctx.hashTable, hc.ctx.chainTable
      ensures Valid()
      ensures r.Error? <==> |source| > pages.size
      ensures r.Error? ==> last == old(last) && index == old(index)
      ensures r.Ok? ==>
        && last == source && index == Flip(old(index)) && width < |r.data|
        && (width > 0 ==> LoadBlockLength(width, r.data) == |r.data| - width)
        && IsBlockOf(old(last), source, r.data[width..])
        && |r.data| - width <= |source| + |source| / 255 + 2
    {
      hide Stream.Valid, Stream.Linked, StreamHC.Valid, IsBlockOf, CompressorOk, GetCompressBound, PageDone,
        LoadBlockLength;
      if |source| > pages.size { return Error; }
      FillPage(source);
      var out := new byte[GetCompressBound(pages.size)];
      var size := CompressPage(|source|, out, acceleration);
      Storable(|source|, size);
      var field := new byte[width];
      var status := StoreBlockLength(size, width, field);
      TurnPage(source);
      r := Ok(field[..] + out[..size]);
      assert r.data[width..] == out[..size];
      if width > 0 { SameField(width, field[..], r.data); }
    }

    /** The page in use becomes the history, and the other page is next. */
    method TurnPage(source: bytes)
      requires pages.Valid(mem.Length) && CompressorOk(pages.size, width) && index <= 1
      requires PageDone(|source|) && |source| <= pages.size
      requires mem[pages.At(index)..pages.At(index) + |source|] == source
      modifies this`index, this`last
      ensures Valid() && last == source && index == Flip(old(index))
    {
      hide Stream.Valid, Stream.Linked, StreamHC.Valid, CompressorOk;
      OtherPage(pages, mem.Length, index, |source|);
      index, last := Flip(index), source;
    }

    lemma Storable(n: nat, size: nat)
      requires CompressorOk(pages.size, width) && 0 < pages.size && n <= pages.size && 0 < size <= n + n / 255 + 2
      ensures WidthOk(width) && size <= INT32_MAX && (width > 0 && width != 4 ==> size <= StoreMax(width))
    {
      ChunkPasses(pages.size, width, n, size);
    }
  }

  lemma SameField(width: nat, a: bytes, b: bytes)
    requires WidthOk(width) && 0 < width == |a| <= |b| && b[..width] == a
    ensures LoadBlockLength(width, b) == LoadBlockLength(width, a)
  {
    assert forall i :: 0 <= i < width ==> b[i] == b[..width][i];
  }

  class Decompressor {
    const mem: array<byte>
    const pages: Pages
    const width: nat
    const d: StreamDecode.Decoder
    var index: nat

    ghost predicate Valid()
      reads this, mem, d
    {
      && pages.Valid(mem.Length) && CompressorOk(pages.size, width) && index <= 1 && d.Valid(mem[..])
      && (d.prefixSize == 0 || (d.prefixEnd != pages.first && d.prefixEnd != pages.second))
    }

    /** What was decoded last, or the dictionary, is out of the way of the next page. */
    ghost predicate Clean()
      reads this, d
    {
      d.prefixSize <= d.prefixEnd && pages.Away(d.prefixEnd - d.prefixSize, d.prefixSize, index)
    }

    constructor (mem: array<byte>, pages: Pages, width: nat, d: StreamDecode.Decoder)
      requires pages.Valid(mem.Length) && CompressorOk(pages.size, width)
      requires d.Valid(mem[..]) && pages.Away(d.prefixEnd - d.prefixSize, d.prefixSize, 0)
      requires d.prefixSize == 0 || d.prefixEnd != pages.second
      ensures Valid() && Clean() && this.mem == mem && this.pages == pages && this.width == width && this.d == d
    {
      this.mem, this.pages, this.width, this.d := mem, pages, width, d;
      index := 0;
    }

    ghost function Last(): bytes
      reads this, mem, d
      requires d.Valid(mem[..])
    {
      d.Prefix(mem[..])
    }

    /** The outcome that the specification of a block has after what was decoded last, whatever the source. */
    ghost function Specified(source: bytes, last: bytes): Result {
      if !DecompressorAccepts(pages.size, width, |source|) then Error
      else
        match BlockDecoderSpec.Decompress(source, last, |last|, pages.size, false)
        case Decoded(all) => if |last| <= |all| then Ok(all[|last|..]) else Error
        case _ => Error
    }

    /** _decompress: of any source what is specified, and of a block that a compressor may have made of a chunk
        within the page the chunk. A block without content turns the page but leaves the history where it is, which
        may be in the way of the next one. */
    method Decompress(source: bytes, ghost h: bytes, ghost chunk: bytes) returns (r: Result)
      requires Valid()
      modifies this`index, mem, d
      ensures Valid()
      ensures old(Clean()) ==> r == Specified(source, old(Last()))
      ensures EndOf(h, old(Last())) && IsBlockOf(h, chunk, source)
              && |chunk| <= pages.size && 0 < |source| <= |chunk| + |chunk| / 255 + 2 ==>
                old(Clean()) || h == [] ==> r == Ok(chunk)
      ensures r.Ok? ==> index == Flip(old(index)) && |r.data| <= pages.size
      ensures r.Ok? && r.data != [] ==> Clean() && Last() == r.data
      ensures r.Error? ==> index == old(index)
      ensures r.Error? || r.data == [] ==> d.prefixEnd == old(d.prefixEnd) && d.prefixSize == old(d.prefixSize)
      ensures old(Clean()) && (r.Error? || r.data == []) ==> Last() == old(Last())
    {
      hide IsBlockOf, EndOf, CompressorOk, GetInputBound, StoreMax, Specified, BlockDecoderSpec.Decompress;
      Accepted(|chunk|, |source|);
      NotAccepted(source, Last());
      if |source| > StoreMax(width) { return Error; }
      if GetInputBound(|source|) == 0 || GetInputBound(|source|) > pages.size { return Error; }
      var outputSize := DecodePage(source, h, chunk);
      if outputSize < 0 { return Error; }
      if outputSize > pages.size { return Error; }
      r := Ok(mem[pages.At(index)..pages.At(index) + outputSize]);
      index := Flip(index);
    }

    lemma NotAccepted(source: bytes, last: bytes)
      ensures !DecompressorAccepts(pages.size, width, |source|) ==> Specified(source, last) == Error
    {
    }

    /** LZ4_decompress_safe_continue into the page. */
    method DecodePage(source: bytes, ghost h: bytes, ghost chunk: bytes) returns (outputSize: int)
      requires Valid() && DecompressorAccepts(pages.size, width, |source|)
      modifies mem, d
      ensures Valid() && outputSize <= pages.size
      ensures old(Clean()) ==> Specified(source, old(Last())) == Outcome(outputSize)
      ensures EndOf(h, old(Last())) && IsBlockOf(h, chunk, source) && |chunk| <= pages.size ==>
        old(Clean()) || h == [] ==> Outcome(outputSize) == Ok(chunk)
      ensures outputSize > 0 ==>
        && pages.Away(d.prefixEnd - d.prefixSize, d.prefixSize, Flip(index))
        && Last() == mem[pages.At(index)..pages.At(index) + outputSize]
      ensures outputSize <= 0 ==> d.prefixEnd == old(d.prefixEnd) && d.prefixSize == old(d.prefixSize)
      ensures old(Clean()) && outputSize <= 0 ==> Last() == old(Last())
    {
      hide IsBlockOf, EndOf, Outside, BlockDecoderSpec.Decompress, Specified, DecompressorAccepts, Clean, CompressorOk,
        StreamDecode.Decoder.Does, StreamDecode.Decoder.Known, StreamDecode.Decoder.Seen, StreamDecode.Decoder.Clear,
        StreamDecode.Decoder.SeenExternal, StreamDecode.Decoder.External, Pages.Away, Pages.Valid;
      ghost var was, at, last, clean := mem[..], pages.At(index), Last(), Clean();
      ghost var end, z := d.prefixEnd, d.prefixSize;
      PageFits(was, at);
      outputSize := d.Continue(mem, source, pages.At(index), pages.size, true, h, chunk);
      if clean {
        SpecifiedIs(source, last, was, mem[..], at, outputSize);
      }
      PageDecoded(was, at, end, z, clean, outputSize);
    }

    /** What is known after the page has been written. */
    lemma PageDecoded(was: bytes, at: nat, end: nat, z: nat, clean: bool, outputSize: int)
      requires at == pages.At(index) && index <= 1 && pages.Valid(|was|) && |was| == mem.Length
      requires z <= end <= |was| && (clean ==> pages.Away(end - z, z, index)) && CompressorOk(pages.size, width)
      requires z == 0 || (end != pages.first && end != pages.second)
      requires outputSize <= pages.size && d.Valid(mem[..]) && Outside(was, mem[..], at, at + pages.size)
      requires outputSize <= 0 ==> d.prefixEnd == end && d.prefixSize == z
      requires outputSize > 0 ==> d.prefixEnd == at + outputSize && d.Prefix(mem[..]) == [] + mem[at..at + outputSize]
      ensures Valid()
      ensures outputSize > 0 ==>
        && pages.Away(d.prefixEnd - d.prefixSize, d.prefixSize, Flip(index))
        && Last() == mem[pages.At(index)..pages.At(index) + outputSize]
      ensures clean && outputSize <= 0 ==> Last() == was[end - z..end]
    {
      hide Outside, CompressorOk;
      if outputSize > 0 {
        assert |d.Prefix(mem[..])| == d.prefixSize == outputSize;
        OtherPage(pages, mem.Length, index, outputSize);
        BetweenPages(|was|, at, outputSize);
        assert [] + mem[at..at + outputSize] == mem[at..at + outputSize];
      } else if clean {
        StillLast(was, mem[..], at, end - z, z);
      }
    }

    lemma PageFits(m: bytes, at: nat)
      requires Valid() && m == mem[..] && at == pages.At(index)
      ensures pages.Valid(|m|) && at + pages.size <= |m| && d.Valid(m)
      ensures !(d.prefixSize > 0 && d.prefixEnd == at) && d.Known(m, at) == Last()
      ensures Clean() ==> d.Seen(m, at) == Last() && d.SeenExternal(at) == |Last()| && d.Clear(at, pages.size)
      ensures Clean() ==> pages.Away(d.prefixEnd - d.prefixSize, d.prefixSize, index)
      ensures Last() == m[d.prefixEnd - d.prefixSize..d.prefixEnd]
    {
      if Clean() { KnownIsLast(); }
    }

    lemma BetweenPages(m: nat, at: nat, n: nat)
      requires pages.Valid(m) && index <= 1 && at == pages.At(index) && 0 < n <= pages.size
      ensures at + n != pages.first && at + n != pages.second
    {
    }

    lemma StillLast(was: bytes, now: bytes, at: nat, lo: nat, z: nat)
      requires at == pages.At(index) && pages.Away(lo, z, index) && Outside(was, now, at, at + pages.size)
      requires lo + z <= |was| && |now| == |was|
      ensures now[lo..lo + z] == was[lo..lo + z]
    {
      hide Outside;
      if z > 0 { d.Still(was, now, lo, z, at, pages.size); }
    }

    ghost function Outcome(outputSize: int): Result
      reads this, mem, d
      requires Valid() && outputSize <= pages.size
    {
      if outputSize < 0 then Error else Ok(mem[pages.At(index)..pages.At(index) + outputSize])
    }

    lemma NotRolling(m: bytes, at: nat)
      requires Valid() && m == mem[..] && at == pages.At(index)
      ensures !(d.prefixSize > 0 && d.prefixEnd == at) && d.Known(m, at) == Last()
    {
    }

    lemma SpecifiedIs(source: bytes, last: bytes, was: bytes, now: bytes, at: nat, outputSize: int)
      requires DecompressorAccepts(pages.size, width, |source|) && at + pages.size <= |now|
      requires d.Does(was, now, source, last, |last|, at, pages.size, outputSize)
      ensures outputSize <= pages.size
      ensures Specified(source, last) == if outputSize < 0 then Error else Ok(now[at..at + outputSize])
    {
      hide BlockDecoderSpec.Decompress, Outside;
      FullSpecified(source, last, |last|, pages.size);
      if outputSize >= 0 { assert (last + now[at..at + outputSize])[|last|..] == now[at..at + outputSize]; }
    }

    lemma Accepted(n: nat, size: nat)
      requires Valid()
      ensures n <= pages.size && 0 < size <= n + n / 255 + 2 ==> DecompressorAccepts(pages.size, width, size)
    {
      if n <= pages.size && 0 < size <= n + n / 255 + 2 { ChunkPasses(pages.size, width, n, size); }
    }

    lemma KnownIsLast()
      requires Valid() && Clean()
      ensures d.Known(mem[..], pages.At(index)) == Last() && d.Clear(pages.At(index), pages.size)
      ensures d.Seen(mem[..], pages.At(index)) == Last() && d.SeenExternal(pages.At(index)) == |Last()|
      ensures d.prefixSize == 0 || d.prefixEnd != pages.At(index)
    {
    }

    /** What lies in the page in use is in the way. */
    lemma TurnedBack()
      requires Valid() && 0 < d.prefixSize <= pages.size && d.prefixEnd - d.prefixSize == pages.At(index)
      ensures !Clean() && !d.Clear(pages.At(index), pages.size)
    {
    }
  }

  /** Any chunks that fit the page, empty ones included, through both ends of a stream with the same dictionary:
      every one comes back, and its length field holds the length of its block. */
  method AnyChunks(c: Compressor, d: Decompressor, chunks: seq<bytes>, acceleration: int) returns (outs: seq<bytes>)
    requires c.Valid() && d.Valid() && d.Clean()
    requires c.pages.size == d.pages.size && c.width == d.width && c.mem != d.mem
    requires EndOf(c.last, d.Last())
    requires forall i :: 0 <= i < |chunks| ==> |chunks[i]| <= c.pages.size
    modifies c, c.mem, c.s, c.s.hashTable, c.hc, c.hc.ctx, c.hc.ctx.hashTable, c.hc.ctx.chainTable, d, d.mem, d.d
    ensures outs == chunks
  {
    hide Compressor.Valid, Pages.Away, Pages.Valid, IsBlockOf, EndOf, Decompressor.Clean, Decompressor.Specified;
    outs := [];
    for i := 0 to |chunks|
      invariant c.Valid() && d.Valid() && EndOf(c.last, d.Last()) && outs == chunks[..i]
      invariant d.Clean() || c.last == []
    {
      ghost var h := c.last;
      var sent := c.Compress(chunks[i], acceleration);
      var block := sent.data[c.width..];
      var got := d.Decompress(block, h, chunks[i]);
      outs := outs + [got.data];
      Whole(chunks[i]);
      NothingEnds(d.Last());
    }
  }

  lemma NothingEnds(all: bytes)
    ensures EndOf([], all)
  {
  }

  lemma Whole(h: bytes)
    ensures EndOf(h, h)
  {
  }
}
