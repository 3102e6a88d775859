/**
  The copy routines of the decoder. They move 8, 16 or 32 bytes at a time and write past the
  end of the copy; what they leave before that end is the byte-by-byte copy.
*/
module WildCopy {
  import opened Bytes
  import opened BlockFormat

  const WILDCOPYLENGTH := 8

  // ----- Periodic contents -----

  /** Every byte of `s[from..to]` repeats the byte `offset` back; zeros when `offset` is 0. */
  ghost predicate Periodic(s: bytes, from: nat, to: nat, offset: nat)
    requires offset <= from && to <= |s|
  {
    forall p :: from <= p < to ==> s[p] == if offset == 0 then 0 else s[p - offset]
  }

  /** Outside `[from, to)` nothing has changed. */
  ghost predicate Outside(was: bytes, now: bytes, from: nat, to: nat) {
    && |was| == |now|
    && forall p :: 0 <= p < |was| && (p < from || to <= p) ==> now[p] == was[p]
  }

  /** A match of period `offset` has been copied to `[op, cpy)`; writes stay below `top`. */
  ghost predicate MatchCopied(was: bytes, now: bytes, op: nat, cpy: nat, offset: nat, top: nat) {
    && offset <= op <= cpy <= |now|
    && Outside(was, now, op, top)
    && Periodic(now, op, cpy, offset)
  }

  // ----- Block moves -----

  /** memcpy inside one buffer; the regions must not overlap. */
  method Memcpy(buf: array<byte>, d: nat, s: nat, n: nat)
    requires d + n <= buf.Length && s + n <= buf.Length
    requires s + n <= d || d + n <= s
    modifies buf
    ensures forall p :: d <= p < d + n ==> buf[p] == old(buf[p - d + s])
    ensures forall p :: 0 <= p < buf.Length && (p < d || d + n <= p) ==> buf[p] == old(buf[p])
  {
    forall k | 0 <= k < n {
      buf[d + k] := buf[s + k];
    }
  }

  /** memcpy from another memory region. */
  method MemcpyFrom(buf: array<byte>, d: nat, src: bytes, s: nat, n: nat)
    requires d + n <= buf.Length && s + n <= |src|
    modifies buf
    ensures forall p :: d <= p < d + n ==> buf[p] == src[p - d + s]
    ensures forall p :: 0 <= p < buf.Length && (p < d || d + n <= p) ==> buf[p] == old(buf[p])
  {
    forall k | 0 <= k < n {
      buf[d + k] := src[s + k];
    }
  }

  /** LZ4_wildCopy8: copies at least 8 bytes, up to 8 past `e`. */
  method WildCopy8(buf: array<byte>, d0: nat, s0: nat, e: nat)
    requires s0 + 8 <= d0
    requires d0 + 8 <= buf.Length && e + 7 <= buf.Length
    modifies buf
    ensures forall p :: d0 <= p < e ==> buf[p] == buf[p - (d0 - s0)]
    ensures forall p :: d0 <= p < d0 + 8 ==> buf[p] == buf[p - (d0 - s0)]
    ensures forall p :: 0 <= p < buf.Length && (p < d0 || Max(d0 + 8, e + 7) <= p) ==> buf[p] == old(buf[p])
  {
    var d, s := d0, s0;
    ghost var stride := d0 - s0;
    Memcpy(buf, d, s, 8);
    d, s := d + 8, s + 8;
    while d < e
      invariant d0 + 8 <= d <= Max(d0 + 8, e + 7) && s == d - stride
      invariant forall p :: d0 <= p < d ==> buf[p] == buf[p - stride]
      invariant forall p :: 0 <= p < buf.Length && (p < d0 || d <= p) ==> buf[p] == old(buf[p])
    {
      label Before:
      Memcpy(buf, d, s, 8);
      assert forall p :: d0 <= p < d ==> buf[p] == old@Before(buf[p]);
      d, s := d + 8, s + 8;
    }
  }

  /** LZ4_wildCopy8 from the compressed input. */
  method WildCopy8From(buf: array<byte>, d0: nat, src: bytes, s0: nat, e: nat)
    requires d0 <= e
    requires d0 + 8 <= buf.Length && e + 7 <= buf.Length
    requires s0 + 8 <= |src| && s0 + (e - d0) + 7 <= |src|
    modifies buf
    ensures forall p :: d0 <= p < e ==> buf[p] == src[p - d0 + s0]
    ensures forall p :: 0 <= p < buf.Length && (p < d0 || Max(d0 + 8, e + 7) <= p) ==> buf[p] == old(buf[p])
  {
    var d, s := d0, s0;
    MemcpyFrom(buf, d, src, s, 8);
    d, s := d + 8, s + 8;
    while d < e
      invariant d0 + 8 <= d <= Max(d0 + 8, e + 7) && s - s0 == d - d0
      invariant forall p :: d0 <= p < d ==> buf[p] == src[p - d0 + s0]
      invariant forall p :: 0 <= p < buf.Length && (p < d0 || d <= p) ==> buf[p] == old(buf[p])
    {
      MemcpyFrom(buf, d, src, s, 8);
      d, s := d + 8, s + 8;
    }
  }

  /** LZ4_wildCopy32: two moves of 16 bytes a turn, up to 32 past `e`. */
  method WildCopy32(buf: array<byte>, d0: nat, s0: nat, e: nat)
    requires s0 + 16 <= d0
    requires d0 + 32 <= buf.Length && e + 31 <= buf.Length
    modifies buf
    ensures forall p :: d0 <= p < e ==> buf[p] == buf[p - (d0 - s0)]
    ensures forall p :: 0 <= p < buf.Length && (p < d0 || Max(d0 + 32, e + 31) <= p) ==> buf[p] == old(buf[p])
  {
    var d, s := d0, s0;
    ghost var stride := d0 - s0;
    d, s := Turn32(buf, d0, d, s);
    while d < e
      invariant d0 + 32 <= d <= Max(d0 + 32, e + 31) && s == d - stride
      invariant forall p :: d0 <= p < d ==> buf[p] == buf[p - stride]
      invariant forall p :: 0 <= p < buf.Length && (p < d0 || d <= p) ==> buf[p] == old(buf[p])
    {
      d, s := Turn32(buf, d0, d, s);
    }
  }

  method Turn32(buf: array<byte>, ghost d0: nat, d: nat, s: nat) returns (d': nat, s': nat)
    requires s + 16 <= d && d0 <= d && d + 32 <= buf.Length
    requires d - s <= d0
    requires forall p :: d0 <= p < d ==> buf[p] == buf[p - (d - s)]
    modifies buf
    ensures d' == d + 32 && s' == s + 32
    ensures forall p :: d0 <= p < d' ==> buf[p] == buf[p - (d - s)]
    ensures forall p :: 0 <= p < buf.Length && (p < d || d' <= p) ==> buf[p] == old(buf[p])
  {
    Memcpy(buf, d, s, 16);
    assert forall p :: d0 <= p < d + 16 ==> buf[p] == buf[p - (d - s)];
    label Half:
    Memcpy(buf, d + 16, s + 16, 16);
    assert forall p :: 0 <= p < d + 16 ==> buf[p] == old@Half(buf[p]);
    d', s' := d + 32, s + 32;
  }

  /** LZ4_wildCopy32 from the compressed input. */
  method WildCopy32From(buf: array<byte>, d0: nat, src: bytes, s0: nat, e: nat)
    requires d0 <= e
    requires d0 + 32 <= buf.Length && e + 31 <= buf.Length
    requires s0 + 32 <= |src| && s0 + (e - d0) + 31 <= |src|
    modifies buf
    ensures forall p :: d0 <= p < e ==> buf[p] == src[p - d0 + s0]
    ensures forall p :: 0 <= p < buf.Length && (p < d0 || Max(d0 + 32, e + 31) <= p) ==> buf[p] == old(buf[p])
  {
    var d, s := d0, s0;
    MemcpyFrom(buf, d, src, s, 16);
    MemcpyFrom(buf, d + 16, src, s + 16, 16);
    d, s := d + 32, s + 32;
    while d < e
      invariant d0 + 32 <= d <= Max(d0 + 32, e + 31) && s - s0 == d - d0
      invariant forall p :: d0 <= p < d ==> buf[p] == src[p - d0 + s0]
      invariant forall p :: 0 <= p < buf.Length && (p < d0 || d <= p) ==> buf[p] == old(buf[p])
    {
      MemcpyFrom(buf, d, src, s, 16);
      MemcpyFrom(buf, d + 16, src, s + 16, 16);
      d, s := d + 32, s + 32;
    }
  }

  // ----- Small offsets -----

  const INC32: seq<int> := [0, 1, 2, 1, 0, 4, 4, 4]
  const DEC64: seq<int> := [0, 0, 0, -1, -4, 1, 2, 3]

  /** How far behind the output the source is once the first 8 bytes have been spread. */
  function Stride(offset: nat): int
    requires offset < 8
  {
    8 + offset - INC32[offset] + DEC64[offset]
  }

  /** The tables move the source back by a multiple of the offset, at least 8 bytes and no
      further than the 8 bytes just written allow. */
  lemma StrideTable(offset: nat)
    requires offset < 8
    ensures 8 <= Stride(offset) <= 8 + offset
    ensures offset > 0 ==> Stride(offset) % offset == 0
  {
    assert INC32[offset] == if offset == 0 then 0 else if offset == 1 then 1 else if offset == 2 then 2
                            else if offset == 3 then 1 else if offset == 4 then 0 else 4;
    assert DEC64[offset] == if offset <= 2 then 0 else if offset == 3 then -1 else if offset == 4 then -4
                            else offset - 4;
  }

  /** One step of the periodicity argument: where the bytes before `p` have period `offset`,
      a byte `Stride` back is a byte `offset` back. */
  lemma StrideStep(s: bytes, op: nat, p: nat, offset: nat)
    requires 1 <= offset < 8 && offset <= op && op + 8 <= p <= |s|
    requires Periodic(s, op, p, offset)
    ensures 0 <= p - Stride(offset) && s[p - Stride(offset)] == s[p - offset]
  {
    StrideTable(offset);
    assert Stride(offset) == if offset == 3 then 9 else if offset <= 4 then 8 else 2 * offset;
    if offset == 1 {
      assert s[p - 1] == s[p - 2] == s[p - 3] == s[p - 4] == s[p - 5] == s[p - 6] == s[p - 7] == s[p - 8];
    } else if offset == 2 {
      assert s[p - 2] == s[p - 4] == s[p - 6] == s[p - 8];
    } else if offset == 3 {
      assert s[p - 3] == s[p - 6] == s[p - 9];
    } else if offset == 4 {
      assert s[p - 4] == s[p - 8];
    }
  }

  /** Copying at the stride of a periodic run continues the run. */
  lemma {:induction false} StrideIsPeriodic(s: bytes, op: nat, e: nat, offset: nat)
    requires offset < 8 && offset <= op && op + 8 <= e <= |s|
    requires Periodic(s, op, op + 8, offset)
    requires Stride(offset) <= op + 8
    requires forall p :: op + 8 <= p < e ==> s[p] == s[p - Stride(offset)]
    ensures Periodic(s, op, e, offset)
  {
    if e > op + 8 {
      StrideIsPeriodic(s, op, e - 1, offset);
      var p := e - 1;
      if offset == 0 {
        assert s[p] == s[p - 8] == 0;
      } else {
        StrideStep(s, op, p, offset);
      }
    }
  }

  /** The second half of the spread: where it reads from, by the table. */
  lemma SpreadSecondHalf(s: bytes, op: nat, offset: nat)
    requires offset < 8 && offset <= op && op + 8 <= |s|
    requires Periodic(s, op, op + 4, offset)
    requires forall p {:trigger s[p]} :: op + 4 <= p < op + 8 ==>
               0 <= p - 4 - offset + INC32[offset] < |s| && s[p] == s[p - 4 - offset + INC32[offset]]
    ensures Periodic(s, op, op + 8, offset)
  {
    var d := 4 + offset - INC32[offset];
    assert d == if offset == 0 || offset == 1 || offset == 2 then 4
                else if offset == 3 then 6 else if offset == 4 then 8 else offset;
    assert s[op + 4] == s[op + 4 - d] && s[op + 5] == s[op + 5 - d];
    assert s[op + 6] == s[op + 6 - d] && s[op + 7] == s[op + 7 - d];
    if 1 <= offset <= 4 {
      assert s[op] == s[op - offset] && s[op + 1] == s[op + 1 - offset];
      assert s[op + 2] == s[op + 2 - offset] && s[op + 3] == s[op + 3 - offset];
    }
  }

  method WriteFirst4(buf: array<byte>, op: nat, offset: nat)
    requires offset < 8 && offset <= op && op + 8 <= buf.Length
    modifies buf
    ensures forall p :: op <= p < op + 4 ==> buf[p] == if offset == 0 then 0 else buf[p - offset]
    ensures forall p :: 0 <= p < buf.Length && (p < op || op + 4 <= p) ==> buf[p] == old(buf[p])
  {
    var m := op - offset;
    buf[op], buf[op + 1], buf[op + 2], buf[op + 3] := 0, 0, 0, 0;
    buf[op] := buf[m];
    buf[op + 1] := buf[m + 1];
    buf[op + 2] := buf[m + 2];
    buf[op + 3] := buf[m + 3];
  }

  /** Spreads the first 8 bytes of a match with a small offset, by the tables. */
  method SpreadFirst8(buf: array<byte>, op: nat, offset: nat) returns (match': int)
    requires offset < 8 && offset <= op && op + 8 <= buf.Length
    modifies buf
    ensures match' == op + 8 - Stride(offset)
    ensures Outside(old(buf[..]), buf[..], op, op + 8)
    ensures Periodic(buf[..], op, op + 8, offset)
  {
    var m := op - offset;
    WriteFirst4(buf, op, offset);
    StrideTable(offset);
    label Half:
    Memcpy(buf, op + 4, m + INC32[offset], 4);
    assert forall p :: 0 <= p < op + 4 ==> buf[p] == old@Half(buf[p]);
    SpreadSecondHalf(buf[..], op, offset);
    match' := m + INC32[offset] - DEC64[offset];
  }

  /** LZ4_memcpy_using_offset_base */
  method CopyUsingOffsetBase(buf: array<byte>, op: nat, cpy: nat, offset: nat)
    requires offset <= op <= cpy && op + 16 <= buf.Length && cpy + 8 <= buf.Length
    modifies buf
    ensures MatchCopied(old(buf[..]), buf[..], op, cpy, offset, Max(op + 16, cpy + 7))
  {
    if offset < 8 {
      var m := SpreadFirst8(buf, op, offset);
      StrideTable(offset);
      ContinueSpread(buf, op, m, Max(cpy, op + 8), offset);
    } else {
      var m := op - offset;
      Memcpy(buf, op, m, 8);
      assert forall p :: op <= p < op + 8 ==> buf[p] == buf[p - offset];
      label Half:
      WildCopy8(buf, op + 8, m + 8, cpy);
      assert forall p :: 0 <= p < op + 8 ==> buf[p] == old@Half(buf[p]);
    }
  }

  /** The wild copy after the spread. */
  method ContinueSpread(buf: array<byte>, op: nat, m: int, e: nat, offset: nat)
    requires offset < 8 && offset <= op && op + 8 <= e && op + 16 <= buf.Length && e + 7 <= buf.Length
    requires m == op + 8 - Stride(offset) && 0 <= m && m + 8 <= op + 8
    requires Periodic(buf[..], op, op + 8, offset)
    modifies buf
    ensures Outside(old(buf[..]), buf[..], op + 8, Max(op + 16, e + 7))
    ensures Periodic(buf[..], op, e, offset)
  {
    WildCopy8(buf, op + 8, m, e);
    assert forall p :: 0 <= p < op + 8 ==> buf[p] == old(buf[p]);
    assert Periodic(buf[..], op, op + 8, offset) by {
      assert forall p :: 0 <= p < op + 8 ==> buf[..][p] == old(buf[..])[p];
    }
    StrideIsPeriodic(buf[..], op, e, offset);
  }

  /** The 8-byte pattern of a match at offset 1, 2 or 4. */
  function Pattern(w: bytes, offset: nat): (v: bytes)
    requires (offset == 1 || offset == 2 || offset == 4) && |w| == offset
    ensures |v| == 8
    ensures forall i :: 0 <= i < 8 ==> v[i] == if i < offset then w[i] else v[i - offset]
  {
    if offset == 1 then [w[0], w[0], w[0], w[0], w[0], w[0], w[0], w[0]]
    else if offset == 2 then [w[0], w[1], w[0], w[1], w[0], w[1], w[0], w[1]]
    else [w[0], w[1], w[2], w[3], w[0], w[1], w[2], w[3]]
  }

  /** The first 8 bytes of a match at offset 1, 2 or 4 are its pattern. */
  method WritePattern(buf: array<byte>, op: nat, offset: nat) returns (v: bytes)
    requires (offset == 1 || offset == 2 || offset == 4) && offset <= op && op + 8 <= buf.Length
    modifies buf
    ensures |v| == 8 && forall p :: op <= p < op + 8 ==> buf[p] == v[p - op]
    ensures Outside(old(buf[..]), buf[..], op, op + 8)
    ensures Periodic(buf[..], op, op + 8, offset)
  {
    var w := buf[op - offset..op];
    v := Pattern(w, offset);
    MemcpyFrom(buf, op, v, 0, 8);
    forall p | op <= p < op + 8 ensures buf[p] == buf[p - offset] {
      var i := p - op;
      assert buf[p] == v[i];
      if i < offset {
        assert w[i] == buf[p - offset];
      } else {
        assert buf[p - offset] == v[i - offset];
      }
    }
  }

  /** Repeats the 8 bytes before `d0` up to at least `e`. */
  method FillPattern(buf: array<byte>, d0: nat, v: bytes, e: nat) returns (d: nat)
    requires |v| == 8 && 8 <= d0 <= buf.Length && e + 7 <= buf.Length
    requires forall p :: d0 - 8 <= p < d0 ==> buf[p] == v[p - (d0 - 8)]
    modifies buf
    ensures e <= d && d0 <= d <= Max(d0, e + 7)
    ensures forall p :: d0 <= p < d ==> buf[p] == buf[p - 8]
    ensures forall p :: 0 <= p < buf.Length && (p < d0 || d <= p) ==> buf[p] == old(buf[p])
  {
    d := d0;
    while d < e
      invariant d0 <= d <= Max(d0, e + 7)
      invariant forall p :: d - 8 <= p < d ==> buf[p] == v[p - (d - 8)]
      invariant forall p :: d0 <= p < d ==> buf[p] == buf[p - 8]
      invariant forall p :: 0 <= p < buf.Length && (p < d0 || d <= p) ==> buf[p] == old(buf[p])
    {
      label Turn:
      MemcpyFrom(buf, d, v, 0, 8);
      assert forall p :: 0 <= p < d ==> buf[p] == old@Turn(buf[p]);
      d := d + 8;
    }
  }

  /** LZ4_memcpy_using_offset */
  method CopyUsingOffset(buf: array<byte>, op: nat, cpy: nat, offset: nat)
    requires offset <= op && op + MINMATCH <= cpy
    requires op + 16 <= buf.Length && cpy + 8 <= buf.Length
    modifies buf
    ensures MatchCopied(old(buf[..]), buf[..], op, cpy, offset, Max(op + 16, cpy + 8))
  {
    if offset == 1 || offset == 2 || offset == 4 {
      var v := WritePattern(buf, op, offset);
      label Spread:
      ghost var spread := buf[..];
      var d := FillPattern(buf, op + 8, v, cpy);
      assert Periodic(buf[..], op, op + 8, offset) by {
        assert forall p :: 0 <= p < op + 8 ==> buf[..][p] == spread[p];
      }
      StrideTable(offset);
      StrideIsPeriodic(buf[..], op, d, offset);
    } else {
      CopyUsingOffsetBase(buf, op, cpy, offset);
    }
  }

  /** The 18-byte copy of the shortcut, for offsets of at least 8. */
  method Copy18(buf: array<byte>, op: nat, offset: nat)
    requires 8 <= offset <= op && op + 18 <= buf.Length
    modifies buf
    ensures MatchCopied(old(buf[..]), buf[..], op, op + 18, offset, op + 18)
  {
    var m := op - offset;
    Memcpy(buf, op, m, 8);
    assert forall p :: op <= p < op + 8 ==> buf[p] == buf[p - offset];
    label A:
    Memcpy(buf, op + 8, m + 8, 8);
    assert forall p :: 0 <= p < op + 8 ==> buf[p] == old@A(buf[p]);
    assert forall p :: op <= p < op + 16 ==> buf[p] == buf[p - offset];
    label B:
    Memcpy(buf, op + 16, m + 16, 2);
    assert forall p :: 0 <= p < op + 16 ==> buf[p] == old@B(buf[p]);
  }

  // ----- The copy of the tail loop -----

  /** The first 8 bytes of a match in the tail loop. */
  method First8(buf: array<byte>, op: nat, offset: nat) returns (m: int)
    requires offset <= op && op + 8 <= buf.Length
    modifies buf
    ensures m == op + 8 - Distance(offset)
    ensures 0 <= m && m + 8 <= op + 8
    ensures MatchCopied(old(buf[..]), buf[..], op, op + 8, offset, op + 8)
  {
    if offset < 8 {
      m := SpreadFirst8(buf, op, offset);
      StrideTable(offset);
    } else {
      m := op - offset;
      Memcpy(buf, op, m, 8);
      m := m + 8;
    }
  }

  /** How far behind the output the source is after `First8`. */
  function Distance(offset: nat): int {
    if offset < 8 then Stride(offset) else offset
  }

  lemma {:induction false} DistanceIsPeriodic(s: bytes, op: nat, e: nat, offset: nat)
    requires offset <= op && op + 8 <= e <= |s| && Distance(offset) <= op + 8
    requires Periodic(s, op, op + 8, offset)
    requires forall p :: op + 8 <= p < e ==> s[p] == s[p - Distance(offset)]
    ensures Periodic(s, op, e, offset)
  {
    if offset < 8 {
      StrideIsPeriodic(s, op, e, offset);
    }
  }

  /** The rest of a match that ends at least MATCH_SAFEGUARD_DISTANCE before the end. */
  method CopyRestSafely(buf: array<byte>, op8: nat, m: nat, cpy: nat)
    requires m + 8 <= op8 && cpy + 12 <= buf.Length && op8 + 8 <= buf.Length
    modifies buf
    ensures forall p :: op8 <= p < Max(op8 + 8, cpy) ==> buf[p] == buf[p - (op8 - m)]
    ensures forall p :: 0 <= p < buf.Length && (p < op8 || Max(op8 + 8, cpy + 7) <= p) ==> buf[p] == old(buf[p])
  {
    Memcpy(buf, op8, m, 8);
    if cpy > op8 + 8 {
      label First:
      WildCopy8(buf, op8 + 8, m + 8, cpy);
      assert forall p :: 0 <= p < op8 + 8 ==> buf[p] == old@First(buf[p]);
    }
  }

  /** The rest of a match close to the end: 8 bytes at a time while 8 bytes remain, then one. */
  method CopyRestNearEnd(buf: array<byte>, op8: nat, m0: nat, cpy: nat, oend: nat)
    requires m0 + 8 <= op8 && cpy <= oend <= buf.Length && 7 <= oend
    modifies buf
    ensures forall p :: op8 <= p < cpy ==> buf[p] == buf[p - (op8 - m0)]
    ensures forall p :: 0 <= p < buf.Length && (p < op8 || oend <= p) ==> buf[p] == old(buf[p])
  {
    var op, m := op8, m0;
    var oCopyLimit := oend - (WILDCOPYLENGTH - 1);
    if op < oCopyLimit {
      WildCopy8(buf, op, m, oCopyLimit);
      m := m + (oCopyLimit - op);
      op := oCopyLimit;
    }
    while op < cpy
      invariant op8 <= op && m == op - (op8 - m0)
      invariant forall p :: op8 <= p < op && p < cpy ==> buf[p] == buf[p - (op8 - m0)]
      invariant forall p :: 0 <= p < buf.Length && (p < op8 || oend <= p) ==> buf[p] == old(buf[p])
    {
      buf[op] := buf[m];
      op, m := op + 1, m + 1;
    }
  }

  /** The copy of a match by the tail loop, past the checks. */
  method TailCopy(buf: array<byte>, op: nat, cpy: nat, offset: nat, oend: nat)
    requires offset <= op && op + MINMATCH <= cpy <= oend <= buf.Length
    requires op + 8 <= oend && (cpy + 12 > oend ==> op + 12 <= oend)
    modifies buf
    ensures MatchCopied(old(buf[..]), buf[..], op, cpy, offset, oend)
  {
    var m := First8(buf, op, offset);
    label Spread:
    ghost var spread := buf[..];
    if cpy > oend - 12 {
      CopyRestNearEnd(buf, op + 8, m, cpy, oend);
    } else {
      CopyRestSafely(buf, op + 8, m, cpy);
    }
    assert Periodic(buf[..], op, op + 8, offset) by {
      assert forall p :: 0 <= p < op + 8 ==> buf[..][p] == spread[p];
    }
    if cpy > op + 8 {
      DistanceIsPeriodic(buf[..], op, cpy, offset);
    }
  }
}
