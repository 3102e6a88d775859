/**
  The loop of the frame bindings around the decoder: one destination that grows by reallocation; on frames, and
  on any source at all.
*/
module FrameChunks {
  import opened Bytes
  import opened FrameFormat
  import opened FrameTrack
  import opened FrameDecoder
  import opened FrameAcceptance
  import opened FrameRuns
  import opened WildCopy

  /** The bytes of what is left of the input agree with what is left of the frame. */
  lemma StillAgrees(source: bytes, rest: bytes, pos: nat, c: nat)
    requires pos + c <= |source| && c <= |rest| && Agree(source[pos..], rest)
    ensures Agree(source[pos + c..], rest[c..])
  {
    var a, b := source[pos..], rest;
    var m := Min(|a|, |b|);
    assert source[pos + c..] == a[c..];
    assert a[c..][..m - c] == a[..m][c..] && b[c..][..m - c] == b[..m][c..];
  }

  /** PyMem_Realloc */
  method Realloc(dst: array<byte>, size: nat) returns (r: array<byte>)
    requires dst.Length <= size
    ensures fresh(r) && r.Length == size && r[..dst.Length] == dst[..]
  {
    r := new byte[size];
    forall k | 0 <= k < dst.Length {
      r[k] := dst[k];
    }
  }

  // ----- What a call knows of a run -----

  /** A run in progress: `read` is what has been read of its frame, `output` what came of it, after the dictionary
      `dict`. */
  ghost predicate Going(d: Dctx, t: Track, dict: bytes, read: bytes, output: bytes)
    reads d, d.header, d.tmpIn, d.tmpOutBuffer, d.dict
  {
    && d.Valid(t) && (t.On? || t.Off?) && d.Settled() && d.hist == dict && !d.skipChecksum
    && d.ReadBefore() == read && d.Prior() == output
  }

  /** The source is a part of the frame that is being followed, if one is. */
  ghost predicate Along(d: Dctx, f: Frame, t: Track, used: nat, output: bytes, source: bytes)
    reads d, d.header, d.tmpIn, d.tmpOutBuffer, d.dict
  {
    t.On? ==> d.Midway(f, used, output, t) && Agree(source, t.rest)
  }

  /** What has been read when a run ends is a frame, and the decoder expects another one. */
  ghost predicate Complete(d: Dctx, dict: bytes, read: bytes, output: bytes)
    reads d, d.header, d.tmpIn, d.tmpOutBuffer, d.dict
  {
    WasFrame(read, dict, true, output) && d.Valid(Off) && d.Settled() && d.dStage == GetFrameHeader
  }

  /** What a turn comes to: an error, the end of the frame, or more to do. */
  datatype Turned = TurnFailed(code: ErrorCode) | Ended | Onward

  /** The buffers that the decoder may have replaced. */
  twostate predicate Buffers(d: Dctx)
    reads d
  {
    && d.lent == old(d.lent) && (d.tmpIn == old(d.tmpIn) || fresh(d.tmpIn))
    && (d.tmpOutBuffer == old(d.tmpOutBuffer) || fresh(d.tmpOutBuffer))
  }

  /** One turn of the loop: the decoder goes on behind what has been written. */
  method Turn(d: Dctx, ghost f: Frame, source: bytes, pos: nat, dst: array<byte>, written: nat,
              ghost used: nat, ghost read: bytes, ghost before: bytes, ghost t: Track)
    returns (r: Turned, pos': nat, written': nat, ghost t': Track)
    requires pos <= |source| && written <= dst.Length && dst != d.header
    requires dst != d.tmpIn && dst != d.tmpOutBuffer && dst != d.lent
    requires Going(d, t, d.hist, read, before + dst[..written])
    requires Along(d, f, t, used + pos, before + dst[..written], source[pos..])
    modifies d, d.header, d.tmpIn, d.tmpOutBuffer, dst
    ensures Buffers(d) && (r.TurnFailed? ==> !t.On?)
    ensures !r.TurnFailed? ==> pos <= pos' <= |source| && written <= written' <= dst.Length
    ensures !r.TurnFailed? ==> t.On? ==>
      d.Midway(f, used + pos', before + dst[..written'], t') && (r.Ended? <==> t'.Done?)
    ensures r.Ended? ==> Complete(d, old(d.hist), read + source[pos..pos'], before + dst[..written'])
    ensures r.Onward? ==>
      && d.hist == old(d.hist) && Going(d, t', d.hist, read + source[pos..pos'], before + dst[..written'])
      && Along(d, f, t', used + pos', before + dst[..written'], source[pos'..]) && (t.On? <==> t'.On?)
      && (pos' == |source| || written' == dst.Length)
  {
    hide Dctx.Valid, Dctx.Settled, Encode, FrameContent, ValidFrame, Agree, Dctx.Home, Dctx.Place, WasFrame;
    var k := Call(source[pos..], dst, written, dst.Length);
    d.CanCall(k);
    var c, consumed, n;
    ghost var was := dst[..];
    c, consumed, n, t' := d.Decompress(k, false, false, t);
    if c.Error? { return TurnFailed(c.code), pos, written, t; }
    pos', written', r := pos + consumed, written + n, if c.next == 0 then Ended else Onward;
    Behind(was, dst[..], written, written');
    assert before + dst[..written'] == before + was[..written] + dst[written..written'];
    assert k.src[..consumed] == source[pos..pos'];
    d.ValidOff(t');
    if t.Off? {
      t' := Off;
    } else if r.Ended? {
      d.DoneMeans(f);
    } else {
      SliceOn(Encode(f), used + pos, consumed);
      StillAgrees(source, t.rest, pos, consumed);
      if d.dStage != GetFrameHeader { d.EmittedBound(t'); }
    }
  }

  lemma Behind(was: bytes, now: bytes, at: nat, to: nat)
    requires at <= to <= |was| && Outside(was, now, at, |was|)
    ensures now[..to] == was[..at] + now[at..to]
  {
    assert now[..at] == was[..at];
    assert now[..to] == now[..at] + now[at..to];
  }

  lemma MidwayFacts(d: Dctx, f: Frame, used: nat, output: bytes, t: Track)
    requires d.Midway(f, used, output, t)
    ensures ValidFrame(f) && used <= |Encode(f)| && |output| <= |FrameContent(f)|
    ensures t.Done? ==> used == |Encode(f)| && output == FrameContent(f)
    ensures t.On? ==> t.rest != []
  {
    hide Dctx.Valid, Dctx.Settled, ValidFrame, Encode, FrameContent;
  }

  lemma LargerBy(n: nat, k: nat)
    requires 2 <= k
    ensures n * k >= n && (0 < n ==> n < n * k)
  {
  }

  /** A run that goes on has not put out more than what it has read can stand for. */
  lemma GoingBound(d: Dctx, t: Track, dict: bytes, read: bytes, output: bytes)
    requires Going(d, t, dict, read, output)
    ensures |output| <= |read| * MAX_BLOCK
  {
    hide Dctx.Valid, Dctx.Settled;
    d.ValidOff(t);
    d.PriorBound();
  }

  /** What the loop comes to. */
  datatype Looped = LoopFailed(code: ErrorCode) | Got(output: bytes, bytesRead: nat, endOfFrame: bool)

  /** The loop has read `source[start..bytesRead]`. */
  ghost predicate LoopedOk(r: Looped, source: bytes, start: nat, maxLength: int) {
    r.Got? ==>
      && start <= r.bytesRead <= |source| && (maxLength >= 0 ==> |r.output| <= maxLength)
      && (!r.endOfFrame ==> r.bytesRead == |source| || |r.output| == maxLength)
  }

  /** The loop, from `start` on: more of the source as long as there is any, a larger destination whenever
      it is full and may grow. `used` bytes of the frame, `read`, and `before` of its content came earlier. */
  method Loop(d: Dctx, ghost f: Frame, source: bytes, start: nat, room: array<byte>, maxLength: int, ghost used: nat,
      ghost read: bytes, ghost before: bytes, ghost t: Track)
    returns (r: Looped, ghost t': Track)
    requires start <= |source| && Going(d, t, d.hist, read, before)
    requires Along(d, f, t, used + start, before, source[start..])
    requires room != d.header && room != d.tmpIn && room != d.tmpOutBuffer && room != d.lent
    requires if maxLength >= 0 then room.Length == maxLength else start < |source| ==> 0 < room.Length
    modifies d, d.header, d.tmpIn, d.tmpOutBuffer, room
    ensures LoopedOk(r, source, start, maxLength) && (r.LoopFailed? ==> !t.On?)
    ensures r.Got? && t.On? ==> d.Midway(f, used + r.bytesRead, before + r.output, t') && (r.endOfFrame <==> t'.Done?)
    ensures r.Got? && r.endOfFrame ==> Complete(d, old(d.hist), read + source[start..r.bytesRead], before + r.output)
    ensures r.Got? && !r.endOfFrame ==>
      && (t.On? <==> t'.On?) && d.hist == old(d.hist)
      && Going(d, t', d.hist, read + source[start..r.bytesRead], before + r.output)
  {
    hide Dctx.Midway, Encode, FrameContent, ValidFrame, Agree, Going, Along, Complete;
    var destination, resizeFactor, written := room, 1, 0;
    var bytesRead := start;
    t' := t;
    assert before + destination[..0] == before && read + source[start..start] == read;
    while true
      invariant start <= bytesRead <= |source| && written <= destination.Length && 1 <= resizeFactor
      invariant d.hist == old(d.hist) && (t.On? <==> t'.On?)
      invariant Going(d, t', d.hist, read + source[start..bytesRead], before + destination[..written])
      invariant Along(d, f, t', used + bytesRead, before + destination[..written], source[bytesRead..])
      invariant (fresh(destination) || destination == room) && Buffers(d)
      invariant destination != d.header && destination != d.tmpIn && destination != d.tmpOutBuffer
      invariant destination != d.lent
      invariant maxLength >= 0 ==> destination.Length == maxLength
      invariant written < destination.Length || maxLength == 0 || bytesRead == |source|
      decreases |source| - bytesRead + (|read| + |source|) * MAX_BLOCK - |before| - written
    {
      ghost var t1, from := t', bytesRead;
      var turned;
      turned, bytesRead, written, t' := Turn(d, f, source, bytesRead, destination, written, used,
        read + source[start..from], before, t1);
      if turned.TurnFailed? { return LoopFailed(turned.code), t'; }
      assert read + source[start..bytesRead] == read + source[start..from] + source[from..bytesRead];
      if turned.Ended? { return Got(destination[..written], bytesRead, true), t'; }
      GoingBound(d, t', d.hist, read + source[start..bytesRead], before + destination[..written]);
      if bytesRead == |source| { break; }
      if written == destination.Length {
        if maxLength >= 0 { break; }
        resizeFactor := resizeFactor * 2;
        LargerBy(destination.Length, resizeFactor);
        ghost var was := destination[..written];
        destination := Realloc(destination, destination.Length * resizeFactor);
        assert destination[..written] == was;
      }
    }
    r := Got(destination[..written], bytesRead, false);
  }

  /** decompress_chunk: as much of the source as there is, or as `maxLength` allows when it is not negative. */
  method DecompressChunk(d: Dctx, ghost f: Frame, source: bytes, maxLength: int, ghost used: nat, ghost read: bytes,
      ghost before: bytes, ghost t: Track)
    returns (r: Looped, ghost t': Track)
    requires Going(d, t, d.hist, read, before) && Along(d, f, t, used, before, source)
    modifies d, d.header, d.tmpIn, d.tmpOutBuffer
    ensures LoopedOk(r, source, 0, maxLength) && (r.LoopFailed? ==> !t.On?)
    ensures r.Got? && t.On? ==> d.Midway(f, used + r.bytesRead, before + r.output, t') && (r.endOfFrame <==> t'.Done?)
    ensures r.Got? && r.endOfFrame ==> Complete(d, old(d.hist), read + source[..r.bytesRead], before + r.output)
    ensures r.Got? && !r.endOfFrame ==>
      && (t.On? <==> t'.On?) && d.hist == old(d.hist)
      && Going(d, t', d.hist, read + source[..r.bytesRead], before + r.output)
  {
    hide Dctx.Midway, Encode, FrameContent, ValidFrame, Agree, Going, Along, Complete;
    var destination := new byte[if maxLength >= 0 then maxLength else 2 * |source|];
    assert source[0..] == source;
    r, t' := Loop(d, f, source, 0, destination, maxLength, used, read, before, t);
    if r.Got? { assert source[0..r.bytesRead] == source[..r.bytesRead]; }
  }

  lemma NotAllRead(d: Dctx, f: Frame, used: nat, output: bytes, t: Track)
    requires d.Midway(f, used, output, t) && t.On?
    ensures used < |Encode(f)|
  {
    hide Dctx.Valid, Dctx.Settled, ValidFrame, Encode, FrameContent;
  }

  /** One call without a limit on a new context takes a whole frame apart, whatever follows it. */
  method DecompressWhole(d: Dctx, ghost f: Frame, input: bytes)
      returns (output: bytes, bytesRead: nat, endOfFrame: bool)
    requires ValidFrame(f) && (f.Frame? ==> f.dict == [])
    requires d.Valid(Off) && d.Settled() && d.dStage == GetFrameHeader && d.frameRemainingSize == 0 && d.hist == []
    requires !d.skipChecksum && |Encode(f)| <= |input| && input[..|Encode(f)|] == Encode(f)
    modifies d, d.header, d.tmpIn, d.tmpOutBuffer
    ensures endOfFrame && output == FrameContent(f) && bytesRead == |Encode(f)|
  {
    hide Dctx.Valid, Dctx.Settled, Encode, FrameContent, ValidFrame;
    ghost var t := On(f, 0, Encode(f));
    d.ReadyFor(Off, f);
    EncodeLength(f);
    Presented(input, Encode(f), 0, |input|);
    assert input[0..|input|] == input && Encode(f)[0..] == Encode(f);
    var r;
    ghost var t';
    r, t' := DecompressChunk(d, f, input, -1, 0, [], [], t);
    output, bytesRead, endOfFrame := r.output, r.bytesRead, r.endOfFrame;
    assert [] + output == output;
    if !endOfFrame { NotAllRead(d, f, bytesRead, output, t'); }
  }

  /** What `decompress` raises or returns. */
  datatype Decompressed =
    Content(output: bytes, bytesRead: nat) | InfoFailed(code: ErrorCode) | DecodeFailed(code: ErrorCode) | Incomplete

  lemma InfoWithin(f: Frame)
    requires ValidFrame(f)
    ensures InfoSize(f) <= |Encode(f)| && (f.Frame? ==> HeaderLength(f.info) < |Encode(f)|)
  {
    hide Header, Body, LE32;
    if f.Frame? { BodyStart(f, 0); }
  }

  /** After the header has been read: a run in progress. */
  lemma InfoRead(d: Dctx, f: Frame, consumed: nat, t: Track)
    requires ValidFrame(f) && consumed < |Encode(f)| && t.On? && t.f == f && t.rest == Encode(f)[consumed..]
    requires d.Valid(t) && d.Settled() && d.emitted == []
    ensures d.Midway(f, consumed, [], t)
  {
    hide Dctx.Valid, Dctx.Settled, ValidFrame, Encode, FrameContent;
  }

  /** The source starts like a frame without a dictionary. */
  ghost predicate StartsLike(source: bytes, f: Frame) {
    ValidFrame(f) && (f.Frame? ==> f.dict == []) && Agree(source, Encode(f))
  }

  /** The frame that is followed, if the source starts like it. */
  ghost function TrackOf(source: bytes, f: Frame): Track {
    if StartsLike(source, f) then On(f, 0, Encode(f)) else Off
  }

  /** decompress: the header first, to size the destination by the content size when there is one. Of any source that
      starts like a frame it returns exactly the content, or fails exactly when the frame is cut; and of any source
      at all it returns only the content of a frame with right checksums. */
  method Decompress(d: Dctx, ghost f: Frame, source: bytes) returns (r: Decompressed)
    requires d.Valid(Off) && d.Settled() && d.dStage == GetFrameHeader && d.frameRemainingSize == 0 && d.hist == []
    requires !d.skipChecksum
    modifies d, d.header, d.tmpIn, d.tmpOutBuffer
    ensures StartsLike(source, f) ==> (r.Content? <==> |Encode(f)| <= |source|)
    ensures StartsLike(source, f) && r.Content? ==> r.output == FrameContent(f) && r.bytesRead == |Encode(f)|
    ensures r.Content? ==> r.bytesRead <= |source| && WasFrame(source[..r.bytesRead], [], true, r.output)
  {
    hide Dctx.Valid, Dctx.Settled, Dctx.Midway, Encode, FrameContent, ValidFrame, Agree, InfoSize, WasFrame, Going,
      StartsLike;
    ghost var t0 := TrackOf(source, f);
    Starting(d, f, source);
    var info, consumed;
    ghost var t;
    info, consumed, t := d.GetFrameInfo(source, t0);
    if info.Error? { return InfoFailed(info.code); }
    t := AfterInfo(d, f, source, consumed, t0, t);
    var sourceRemain := |source| - consumed;
    var destination := new byte[if d.contentSize > 0 then d.contentSize else 2 * sourceRemain];
    var looped;
    ghost var t';
    looped, t' := Loop(d, f, source, consumed, destination, -1, 0, source[..consumed], [], t);
    if looped.LoopFailed? { return DecodeFailed(looped.code); }
    assert [] + looped.output == looped.output;
    if !looped.endOfFrame {
      if t.On? { NotAllRead(d, f, looped.bytesRead, looped.output, t'); }
      return Incomplete;
    }
    r := Content(looped.output, looped.bytesRead);
    assert source[..r.bytesRead] == source[..consumed] + source[consumed..r.bytesRead];
    if t.On? { MidwayFacts(d, f, r.bytesRead, r.output, t'); }
  }

  lemma Starting(d: Dctx, f: Frame, source: bytes)
    requires d.Valid(Off) && d.Settled() && d.dStage == GetFrameHeader && d.frameRemainingSize == 0 && d.hist == []
    ensures d.Valid(TrackOf(source, f))
    ensures StartsLike(source, f) ==> InfoSize(f) <= |Encode(f)| && Agree(source, Encode(f))
    ensures StartsLike(source, f) ==> if f.Frame? then HeaderLength(f.info) < |Encode(f)| else 4 < |Encode(f)|
  {
    hide Dctx.Valid, Dctx.Settled, Encode, ValidFrame, Agree, InfoSize;
    if StartsLike(source, f) {
      d.ReadyFor(Off, f);
      InfoWithin(f);
    }
  }

  /** After the header has been read. */
  lemma AfterInfo(d: Dctx, f: Frame, source: bytes, consumed: nat, t0: Track, t1: Track) returns (t: Track)
    requires t0 == TrackOf(source, f) && consumed <= |source| && d.Valid(t1) && d.Settled() && Next(t0, t1, consumed)
    requires d.emitted == [] && d.log.read == source[..consumed] && d.dStage != GetFrameHeader
    requires d.hist == [] && !d.skipChecksum && (t0.On? ==> !t1.Done? && consumed < |Encode(f)|)
    ensures Going(d, t, [], source[..consumed], []) && Along(d, f, t, consumed, [], source[consumed..])
    ensures t.On? <==> StartsLike(source, f)
  {
    hide Dctx.Valid, Dctx.Settled, Dctx.Midway, Encode, ValidFrame, Agree;
    d.ValidOff(t1);
    t := if t0.On? then t1 else Off;
    if t0.On? {
      StillAgrees(source, Encode(f), 0, consumed);
      InfoRead(d, f, consumed, t);
    }
  }
}
