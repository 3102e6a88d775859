/** The blocks a frame compressor has sent so far, and the frame they make when it ends. */
module FrameWire {
  import opened Bytes
  import opened BlockWriter
  import opened FrameFormat

  /** The content of all blocks. */
  function Made(blocks: seq<Block>): bytes {
    Out(blocks, |blocks|)
  }

  ghost function FrameOf(info: Info, blocks: seq<Block>): Frame {
    Frame(info, [], blocks)
  }

  ghost predicate BlocksOk(info: Info, blocks: seq<Block>) {
    InfoOk(info) && forall n :: 0 <= n < |blocks| ==>
      BlockOk(blocks[n], Before(FrameOf(info, blocks), n), BlockSize(info.sizeId))
  }

  /** The bytes of the first `n` blocks. */
  ghost function Wire(info: Info, blocks: seq<Block>, n: nat): bytes
    requires BlocksOk(info, blocks) && n <= |blocks|
  {
    if n == 0 then [] else Wire(info, blocks, n - 1) + BlockBytes(info, blocks[n - 1])
  }

  /** `sent` is a header and these blocks. */
  ghost predicate Sound(info: Info, blocks: seq<Block>, sent: bytes) {
    BlocksOk(info, blocks) && sent == Header(info) + Wire(info, blocks, |blocks|)
  }

  lemma {:induction false} SoundStart(info: Info, blocks: seq<Block>, sent: bytes)
    requires InfoOk(info) && blocks == [] && sent == Header(info)
    ensures Sound(info, blocks, sent) && Made(blocks) == []
  {
    hide Header;
    assert Wire(info, blocks, 0) == [];
  }

  lemma {:induction false} OutSame(a: seq<Block>, b: seq<Block>, n: nat)
    requires n <= |a| && n <= |b| && a[..n] == b[..n]
    ensures Out(a, n) == Out(b, n)
  {
    if n > 0 {
      assert a[..n - 1] == a[..n][..n - 1] && b[..n - 1] == b[..n][..n - 1];
      OutSame(a, b, n - 1);
      assert a[n - 1] == a[..n][n - 1] && b[n - 1] == b[..n][n - 1];
    }
  }

  lemma {:induction false} MadeNext(blocks: seq<Block>, b: Block)
    ensures Made(blocks + [b]) == Made(blocks) + b.content
  {
    OutSame(blocks, blocks + [b], |blocks|);
  }

  /** Blocks have been added, each with `size` bytes of content but for a last one, if that may be smaller. */
  ghost predicate Grew(was: seq<Block>, now: seq<Block>, size: nat, loose: bool) {
    && was <= now
    && forall k :: |was| <= k < |now| ==>
         |now[k].content| == size || (loose && k == |now| - 1 && |now[k].content| < size)
  }

  lemma GrewOne(was: seq<Block>, b: Block, size: nat, loose: bool)
    requires |b.content| == size || (loose && |b.content| < size)
    ensures Grew(was, was + [b], size, loose)
  {
  }

  lemma GrewNone(was: seq<Block>, size: nat, loose: bool)
    ensures Grew(was, was, size, loose)
  {
  }

  lemma {:induction false} GrewMore(a: seq<Block>, b: seq<Block>, c: seq<Block>, size: nat, loose: bool)
    requires Grew(a, b, size, false) && Grew(b, c, size, loose)
    ensures Grew(a, c, size, loose)
  {
  }

  /** What the matches of the next block may refer to. */
  function History(info: Info, blocks: seq<Block>): bytes {
    if info.linked then Made(blocks) else []
  }

  lemma {:induction false} BlocksNext(info: Info, blocks: seq<Block>, b: Block)
    requires BlocksOk(info, blocks) && BlockOk(b, History(info, blocks), BlockSize(info.sizeId))
    ensures BlocksOk(info, blocks + [b])
  {
    hide BlockOk, BlockSize, InfoOk, Out;
    var more := blocks + [b];
    forall n | 0 <= n < |more| ensures BlockOk(more[n], Before(FrameOf(info, more), n), BlockSize(info.sizeId)) {
      OutSame(blocks, more, n);
      assert [] + Out(blocks, n) == Out(blocks, n);
      assert more[n] == if n < |blocks| then blocks[n] else b;
    }
  }

  lemma {:induction false} WireSame(info: Info, a: seq<Block>, b: seq<Block>, n: nat)
    requires BlocksOk(info, a) && BlocksOk(info, b) && n <= |a| && n <= |b| && a[..n] == b[..n]
    ensures Wire(info, a, n) == Wire(info, b, n)
  {
    hide BlocksOk, BlockBytes;
    if n > 0 {
      assert a[..n - 1] == a[..n][..n - 1] && b[..n - 1] == b[..n][..n - 1];
      WireSame(info, a, b, n - 1);
      assert a[n - 1] == a[..n][n - 1] && b[n - 1] == b[..n][n - 1];
    }
  }

  /** One more block. */
  lemma {:induction false} SoundNext(info: Info, blocks: seq<Block>, sent: bytes, b: Block, part: bytes)
    requires Sound(info, blocks, sent) && BlockOk(b, History(info, blocks), BlockSize(info.sizeId))
    requires |b.data| < UNCOMPRESSED_FLAG && part == BlockBytes(info, b)
    ensures Sound(info, blocks + [b], sent + part) && Made(blocks + [b]) == Made(blocks) + b.content
  {
    hide BlockOk, BlocksOk, BlockBytes, Header, History, Made;
    BlocksNext(info, blocks, b);
    MadeNext(blocks, b);
    WireSame(info, blocks, blocks + [b], |blocks|);
    assert (blocks + [b])[|blocks|] == b;
  }

  lemma {:induction false} BodyAfter(f: Frame, n: nat)
    requires ValidFrame(f) && f.Frame? && f.dict == [] && n <= |f.blocks| && BlocksOk(f.info, f.blocks)
    ensures Body(f, 0) == Wire(f.info, f.blocks, n) + Body(f, n)
  {
    hide ValidFrame, BlocksOk, BlockBytes;
    if n > 0 { BodyAfter(f, n - 1); }
  }

  lemma {:induction false} ValidNow(info: Info, blocks: seq<Block>)
    requires BlocksOk(info, blocks) && SizeDeclared(info.contentSize, |Made(blocks)|)
    ensures InfoOk(info) && ValidFrame(FrameOf(info, blocks)) && FrameContent(FrameOf(info, blocks)) == Made(blocks)
  {
    hide BlockOk, InfoOk, SizeDeclared, BlockSize, Before;
  }

  /** The end of a frame: what has been sent is a valid frame of the content. */
  lemma {:induction false} SoundEnd(info: Info, blocks: seq<Block>, sent: bytes)
    requires Sound(info, blocks, sent) && SizeDeclared(info.contentSize, |Made(blocks)|)
    ensures var f := FrameOf(info, blocks);
      ValidFrame(f) && FrameContent(f) == Made(blocks)
      && Encode(f) == sent + LE32(0) + Footer(info.contentChecksum, Made(blocks))
  {
    hide BlocksOk, ValidFrame, BlockBytes, Header, SizeDeclared, LE32, Footer, FrameContent, Wire, Made;
    var f := FrameOf(info, blocks);
    ValidNow(info, blocks);
    BodyAfter(f, |blocks|);
    var all, end := Wire(info, blocks, |blocks|), LE32(0) + Footer(info.contentChecksum, Made(blocks));
    assert Body(f, |blocks|) == end;
    assert Encode(f) == Header(info) + (all + end);
    assert Header(info) + (all + end) == Header(info) + all + end;
    assert sent + LE32(0) + Footer(info.contentChecksum, Made(blocks)) == sent + end;
  }
}
