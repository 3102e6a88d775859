/**
  Whole runs of the frame decoder: any way of cutting the input into calls, any output buffers, with a
  dictionary or without; on valid frames, and on any input at all.
*/
module FrameRuns {
  import opened Bytes
  import opened FrameFormat
  import opened FrameTrack
  import opened FrameDecoder
  import opened FrameAcceptance

  /** What is presented of the input agrees with what is left of the frame. */
  lemma {:induction false} Presented(input: bytes, e: bytes, used: nat, n: nat)
    requires |e| <= |input| && input[..|e|] == e && used <= |e| && used + n <= |input|
    ensures Agree(input[used..used + n], e[used..])
  {
    var a, b := input[used..used + n], e[used..];
    var m := Min(|a|, |b|);
    SubSlice(input, used, used + n, 0, m);
    SubSlice(input, 0, |e|, used, used + m);
    SubSlice(e, used, |e|, 0, m);
    assert e[used..] == e[used..|e|] && input[0..|e|] == e;
  }

  lemma SliceOn(e: bytes, used: nat, c: nat)
    requires used + c <= |e|
    ensures e[used..][c..] == e[used + c..]
  {
  }

  /** One call with part of the input and a buffer of its own; either may be empty. */
  method OneCall(d: Dctx, ghost f: Frame, input: bytes, used: nat, n: nat, room: nat, output: bytes, ghost t: Track)
    returns (used': nat, output': bytes, done: bool, ghost t': Track)
    requires d.Midway(f, used, output, t) && t.On? && used + n <= |input|
    requires |Encode(f)| <= |input| && input[..|Encode(f)|] == Encode(f)
    modifies d, d.header, d.tmpIn, d.tmpOutBuffer
    ensures d.Midway(f, used', output', t') && (done <==> t'.Done?) && d.lent == old(d.lent)
    ensures !done && 0 < n && 0 < room ==> used < used' || |output| < |output'|
    ensures used <= used' && output <= output'
    ensures fresh(d.tmpIn) || d.tmpIn == old(d.tmpIn)
    ensures fresh(d.tmpOutBuffer) || d.tmpOutBuffer == old(d.tmpOutBuffer)
  {
    hide Dctx.Valid, Dctx.Settled, Encode, FrameContent, ValidFrame, Agree, Dctx.Home, Dctx.Place;
    var dst := new byte[room];
    var k := Call(input[used..used + n], dst, 0, room);
    Presented(input, Encode(f), used, n);
    d.CanCall(k);
    var r, consumed, written;
    r, consumed, written, t' := d.Decompress(k, false, false, t);
    used', output', done := used + consumed, output + dst[0..written], r == Hint(0);
    if done {
      d.DoneMeans(f);
    } else {
      SliceOn(Encode(f), used, consumed);
      if d.dStage != GetFrameHeader { d.EmittedBound(t'); }
    }
  }

  /** How a caller goes about it: before call `i`, `idle(i)` calls without input or without room, then one
      with at most `cut(i) + 1` bytes of input and room for `room(i) + 1`. */
  datatype Manner = Manner(cut: nat -> nat, room: nat -> nat, idle: nat -> nat)

  /** Calls that cannot make progress do no harm. */
  method IdleCalls(d: Dctx, ghost f: Frame, input: bytes, used0: nat, count: nat, room: nat, output0: bytes,
      ghost t0: Track)
    returns (used: nat, output: bytes, done: bool, ghost t: Track)
    requires d.Midway(f, used0, output0, t0) && t0.On?
    requires |Encode(f)| <= |input| && input[..|Encode(f)|] == Encode(f)
    modifies d, d.header, d.tmpIn, d.tmpOutBuffer
    ensures d.Midway(f, used, output, t) && (done <==> t.Done?) && d.lent == old(d.lent)
    ensures used0 <= used && output0 <= output
    ensures fresh(d.tmpIn) || d.tmpIn == old(d.tmpIn)
    ensures fresh(d.tmpOutBuffer) || d.tmpOutBuffer == old(d.tmpOutBuffer)
  {
    hide Dctx.Midway, Encode;
    used, output, done, t := used0, output0, false, t0;
    for i := 0 to count
      invariant d.Midway(f, used, output, t) && (done <==> t.Done?) && (t.On? || t.Done?) && d.lent == old(d.lent)
      invariant used0 <= used && output0 <= output
      invariant fresh(d.tmpIn) || d.tmpIn == old(d.tmpIn)
      invariant fresh(d.tmpOutBuffer) || d.tmpOutBuffer == old(d.tmpOutBuffer)
    {
      if !done {
        ghost var t1 := t;
        MidwayBounds(d, f, used, output, t);
        if i % 2 == 0 {
          used, output, done, t := OneCall(d, f, input, used, 0, room, output, t1);
        } else {
          used, output, done, t := OneCall(d, f, input, used, |input| - used, 0, output, t1);
        }
        MidwayBounds(d, f, used, output, t);
      }
    }
  }

  lemma MidwayBounds(d: Dctx, f: Frame, used: nat, output: bytes, t: Track)
    requires d.Midway(f, used, output, t)
    ensures used <= |Encode(f)| && |output| <= |FrameContent(f)| && (t.On? || t.Done?) && ValidFrame(f)
    ensures t.On? ==> used < |Encode(f)|
    ensures t.Done? ==> used == |Encode(f)| && output == FrameContent(f)
  {
    hide Dctx.Valid, Dctx.Settled, Encode, FrameContent, ValidFrame;
  }

  /** The idle calls and the next one. */
  method NextCall(d: Dctx, ghost f: Frame, input: bytes, used0: nat, manner: Manner, i: nat, output0: bytes,
      ghost t0: Track)
    returns (used: nat, output: bytes, done: bool, ghost t: Track)
    requires d.Midway(f, used0, output0, t0) && t0.On?
    requires |Encode(f)| <= |input| && input[..|Encode(f)|] == Encode(f)
    modifies d, d.header, d.tmpIn, d.tmpOutBuffer
    ensures d.Midway(f, used, output, t) && (done <==> t.Done?) && (t.On? || t.Done?) && d.lent == old(d.lent)
    ensures !done ==> used0 < used || |output0| < |output|
    ensures used0 <= used && output0 <= output
    ensures fresh(d.tmpIn) || d.tmpIn == old(d.tmpIn)
    ensures fresh(d.tmpOutBuffer) || d.tmpOutBuffer == old(d.tmpOutBuffer)
  {
    hide Dctx.Midway, Encode, FrameContent;
    used, output, done, t := IdleCalls(d, f, input, used0, manner.idle(i), manner.room(i), output0, t0);
    MidwayBounds(d, f, used, output, t);
    if !done {
      ghost var t1 := t;
      var n := Min(manner.cut(i) + 1, |input| - used);
      used, output, done, t := OneCall(d, f, input, used, n, manner.room(i) + 1, output, t1);
      MidwayBounds(d, f, used, output, t);
    }
  }

  /** Any cut of the input into calls, what is not read being presented again, and any sequence
      of output buffers: the calls emit exactly the content and stop at the last byte of the frame. */
  method AnySplit(d: Dctx, ghost f: Frame, input: bytes, manner: Manner) returns (output: bytes, used: nat)
    requires ValidFrame(f) && (f.Frame? ==> f.dict == [])
    requires d.Valid(Off) && d.Settled() && d.dStage == GetFrameHeader && d.frameRemainingSize == 0 && d.hist == []
    requires |Encode(f)| <= |input| && input[..|Encode(f)|] == Encode(f)
    modifies d, d.header, d.tmpIn, d.tmpOutBuffer
    ensures output == FrameContent(f) && used == |Encode(f)|
    ensures d.Valid(Off) && d.Settled() && d.dStage == GetFrameHeader && d.frameRemainingSize == 0 && d.hist == []
  {
    hide Dctx.Valid, Dctx.Settled, Encode, FrameContent, ValidFrame;
    ghost var t := On(f, 0, Encode(f));
    d.ReadyFor(Off, f);
    EncodeLength(f);
    output, used := [], 0;
    assert Encode(f)[0..] == Encode(f);
    var calls: nat := 0;
    var done := false;
    while !done
      invariant d.Midway(f, used, output, t) && done == t.Done?
      invariant fresh(d.tmpIn) || d.tmpIn == old(d.tmpIn)
      invariant fresh(d.tmpOutBuffer) || d.tmpOutBuffer == old(d.tmpOutBuffer)
      decreases !done, |Encode(f)| - used + |FrameContent(f)| - |output|
    {
      used, output, done, t := NextCall(d, f, input, used, manner, calls, output, t);
      calls := calls + 1;
    }
    d.DoneMeans(f);
  }

  /** The same with LZ4F_decompress_usingDict and a dictionary that the caller leaves alone: frames whose
      blocks refer to it. */
  method AnySplitUsingDict(d: Dctx, ghost f: Frame, a: array<byte>, start: nat, size: nat, input: bytes, manner: Manner)
    returns (output: bytes, used: nat)
    requires start + size <= a.Length && a != d.tmpIn && a != d.tmpOutBuffer && a != d.header
    requires ValidFrame(f) && (f.Frame? ==> f.dict == a[start..start + size])
    requires d.Valid(Off) && d.Settled() && d.dStage == GetFrameHeader && d.frameRemainingSize == 0 && d.hist == []
    requires |Encode(f)| <= |input| && input[..|Encode(f)|] == Encode(f)
    modifies d, d.header, d.tmpIn, d.tmpOutBuffer
    ensures output == FrameContent(f) && used == |Encode(f)|
    ensures d.Valid(Off) && d.dStage == GetFrameHeader && d.frameRemainingSize == 0 && d.hist == []
  {
    hide Dctx.Valid, Encode, FrameContent, ValidFrame;
    ghost var t := On(f, 0, Encode(f));
    d.UseDict(a, start, size, Off);
    d.ReadyFor(Off, f);
    EncodeLength(f);
    output, used := [], 0;
    assert Encode(f)[0..] == Encode(f);
    var calls: nat := 0;
    var done := false;
    while !done
      invariant d.Midway(f, used, output, t) && done == t.Done?
      invariant fresh(d.tmpIn) || d.tmpIn == old(d.tmpIn)
      invariant fresh(d.tmpOutBuffer) || d.tmpOutBuffer == old(d.tmpOutBuffer)
      decreases !done, |Encode(f)| - used + |FrameContent(f)| - |output|
    {
      used, output, done, t := NextCall(d, f, input, used, manner, calls, output, t);
      calls := calls + 1;
    }
    d.DoneMeans(f);
  }

  // ----- Any input -----

  /** How a run ends: the frame is complete, a call fails, or there are no more calls. */
  datatype Ending = Finished | Refused(code: ErrorCode) | Unfinished

  /** A run on any input: `used` bytes are read, `output` is what came of them. */
  ghost predicate Underway(d: Dctx, dict: bytes, input: bytes, used: nat, output: bytes)
    reads d, d.header, d.tmpIn, d.tmpOutBuffer, d.dict
  {
    && d.Valid(Off) && d.Settled() && d.hist == dict && !d.skipChecksum && used <= |input|
    && d.ReadBefore() == input[..used] && d.Prior() == output
  }

  /** One call on any input. */
  method AnyCall(d: Dctx, input: bytes, used: nat, n: nat, room: nat, output: bytes)
    returns (used': nat, output': bytes, ending: Ending)
    requires Underway(d, d.hist, input, used, output) && used + n <= |input|
    modifies d, d.header, d.tmpIn, d.tmpOutBuffer
    ensures used <= used' <= |input| && d.lent == old(d.lent)
    ensures ending.Finished? ==>
      && WasFrame(input[..used'], old(d.hist), true, output')
      && d.Valid(Off) && d.Settled() && d.dStage == GetFrameHeader
    ensures ending.Unfinished? ==> d.hist == old(d.hist) && Underway(d, d.hist, input, used', output')
    ensures fresh(d.tmpIn) || d.tmpIn == old(d.tmpIn)
    ensures fresh(d.tmpOutBuffer) || d.tmpOutBuffer == old(d.tmpOutBuffer)
  {
    hide Dctx.Valid, Dctx.Settled, Dctx.Home, Dctx.Place, WasFrame;
    var dst := new byte[room];
    var k := Call(input[used..used + n], dst, 0, room);
    d.CanCall(k);
    var r, consumed, written;
    ghost var t;
    r, consumed, written, t := d.Decompress(k, false, false, Off);
    if r.Error? { return used, output, Refused(r.code); }
    used', output' := used + consumed, output + dst[0..written];
    ending := if r.next == 0 then Finished else Unfinished;
    d.ValidOff(t);
    SubSlice(input, used, used + n, 0, consumed);
    assert input[..used'] == input[..used] + k.src[..consumed];
  }

  /** Any calls, each with some of the input that is left and an output buffer of some size: when one of them
      returns 0, what has been read is a frame with right checksums, and the output is its content. */
  method AnyInput(d: Dctx, input: bytes, cuts: seq<nat>, rooms: seq<nat>)
    returns (output: bytes, used: nat, ending: Ending)
    requires d.Valid(Off) && d.Settled() && d.dStage == GetFrameHeader && !d.skipChecksum && |cuts| == |rooms|
    modifies d, d.header, d.tmpIn, d.tmpOutBuffer
    ensures used <= |input|
    ensures ending.Finished? ==>
      && WasFrame(input[..used], old(d.hist), true, output)
      && d.Valid(Off) && d.Settled() && d.dStage == GetFrameHeader
  {
    hide Dctx.Valid, Dctx.Settled, WasFrame;
    output, used, ending := [], 0, Unfinished;
    var i := 0;
    while i < |cuts| && ending.Unfinished?
      invariant i <= |cuts| && used <= |input|
      invariant ending.Unfinished? ==> d.hist == old(d.hist) && Underway(d, d.hist, input, used, output)
      invariant ending.Finished? ==>
        && WasFrame(input[..used], old(d.hist), true, output)
        && d.Valid(Off) && d.Settled() && d.dStage == GetFrameHeader
      invariant fresh(d.tmpIn) || d.tmpIn == old(d.tmpIn)
      invariant fresh(d.tmpOutBuffer) || d.tmpOutBuffer == old(d.tmpOutBuffer)
      decreases |cuts| - i
    {
      used, output, ending := AnyCall(d, input, used, Min(cuts[i], |input| - used), rooms[i], output);
      i := i + 1;
    }
  }
}
