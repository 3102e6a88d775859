/** LZ4HC_encodeSequence and the last run of literals, as the two parsers of lz4hc.c use them. */
module HcEncoder {
  import opened Bytes
  import opened BlockFormat
  import opened BlockWriter

  /** The output of a call, `dst` whole. Without a limit it must hold the worst case. */
  ghost predicate RoomOk(n: nat, limit: bool, capacity: nat) {
    limit || CompressBound(n) <= capacity
  }

  /** The capacity that makes any compression succeed. */
  ghost predicate WorstCase(n: nat, capacity: nat) {
    n + n / 255 + 16 <= capacity
  }

  /** The additional bytes of a match length, two at a time; `length0` already diminished by 15. */
  method WriteMatchLength(dst: array<byte>, op0: nat, length0: nat) returns (op: nat)
    requires op0 + length0 / 255 + 1 <= dst.Length
    modifies dst
    ensures op == op0 + length0 / 255 + 1
    ensures dst[..op] == old(dst[..op0]) + Extension(length0 + RUN_MASK)
  {
    op := op0;
    var length := length0;
    while length >= 510
      invariant op0 <= op && length == length0 - 255 * (op - op0) && length >= 0
      invariant dst[..op] == old(dst[..op0]) + Repeat(255, op - op0)
    {
      dst[op] := 255;
      dst[op + 1] := 255;
      assert dst[..op + 2] == dst[..op] + [255, 255];
      assert Repeat(255, op + 2 - op0) == Repeat(255, op - op0) + [255, 255];
      op, length := op + 2, length - 510;
    }
    if length >= 255 {
      length := length - 255;
      dst[op] := 255;
      assert dst[..op + 1] == dst[..op] + [255];
      assert Repeat(255, op + 1 - op0) == Repeat(255, op - op0) + [255];
      op := op + 1;
    }
    dst[op] := length;
    op := op + 1;
    assert dst[..op] == dst[..op - 1] + [length];
  }

  /** Token, literals and offset of a sequence. */
  method WriteHead(src: bytes, dst: array<byte>, anchor: nat, ip: nat, op0: nat, offset: nat) returns (op: nat)
    requires anchor <= ip && ip + 8 <= |src| && offset <= DISTANCE_MAX
    requires op0 + 1 + ExtensionSize(ip - anchor) + CopyRoom(ip - anchor, true) <= dst.Length
    requires op0 + 1 + ExtensionSize(ip - anchor) + (ip - anchor) + 2 <= dst.Length
    modifies dst
    ensures op == op0 + 1 + ExtensionSize(ip - anchor) + (ip - anchor) + 2
    ensures dst[..op] == old(dst[..op0]) + EncodeLiterals(src[anchor..ip], 0) + LE16(offset)
  {
    hide EncodeLiterals, Extension, LE16, Token;
    op := WriteLiterals(dst, op0, src, anchor, ip, true);
    WriteOffset(dst, op, offset);
    op := op + 2;
  }

  /** The match length of a sequence, in its token and behind its offset. */
  method WriteTail(dst: array<byte>, token: nat, op0: nat, ghost was: bytes, ghost lits: bytes, ghost offset: nat,
      ml: nat)
    returns (op: nat)
    requires token < op0 && |was| == token && offset < 65536 && MINMATCH <= ml
    requires op0 + ExtensionSize(ml - MINMATCH) <= dst.Length
    requires dst[..op0] == was + EncodeLiterals(lits, 0) + LE16(offset)
    modifies dst
    ensures op == op0 + ExtensionSize(ml - MINMATCH)
    ensures dst[..op] == was + EncodeSeqn(Seqn(lits, offset, ml))
  {
    hide EncodeLiterals, Extension, LE16, Token, EncodeSeqn;
    op := op0;
    var length := ml - MINMATCH;
    AddToToken(dst, token, op, was, lits, LE16(offset), length);
    if length >= RUN_MASK {
      op := WriteMatchLength(dst, op, length - RUN_MASK);
    }
    SequenceLayout(was, lits, offset, ml, dst[..op]);
  }

  lemma SequenceLayout(was: bytes, lits: bytes, offset: nat, ml: nat, now: bytes)
    requires offset < 65536 && MINMATCH <= ml
    requires now == was + EncodeLiterals(lits, ml - MINMATCH) + LE16(offset)
                    + (if ml - MINMATCH >= RUN_MASK then Extension(ml - MINMATCH) else [])
    ensures now == was + EncodeSeqn(Seqn(lits, offset, ml))
  {
    hide EncodeLiterals, LE16;
    assert ml - MINMATCH < RUN_MASK ==> Extension(ml - MINMATCH) == [];
  }

  /** LZ4HC_encodeSequence. It fails only when a block with this sequence, however it ends, does not fit. */
  method EncodeSequence(ghost h: bytes, src: bytes, dst: array<byte>, ip: nat, op0: nat, anchor: nat,
                        ml: nat, ref: int, limit: bool, ghost ss: seq<Seqn>)
    returns (fail: bool, op: nat)
    requires Emitted(h, src, dst[..], anchor, op0, ss) && anchor <= ip && MINMATCH <= ml
    requires ref < ip && TrueMatch(h, src, ip, ip - ref, ml)
    requires ip + MFLIMIT <= |src| && ip + ml + LASTLITERALS <= |src|
    requires RoomOk(|src|, limit, dst.Length) && |src| <= MAX_INPUT_SIZE
    modifies dst
    ensures !fail ==> Emitted(h, src, dst[..], ip + ml, op, ss + [SeqnAt(src, anchor, ip, ip - ref, ml)])
    ensures fail ==> limit && !WorstCase(|src|, dst.Length)
    ensures fail ==> op0 + SeqnSize(ip - anchor, ml) + LastSize(LASTLITERALS) > dst.Length
  {
    hide Emitted, EncodeSeqn, CopyMatch, EncodeLiterals, LE16, NoRoom;
    ghost var was := dst[..];
    OpBound(h, src, was, anchor, op0, ss);
    fail := false;
    var length := ip - anchor;
    op := op0 + 1;
    if limit && op + length / 255 + length + (2 + 1 + LASTLITERALS) > dst.Length {
      LiteralsNoRoom(op0, length, dst.Length);
      NoRoomFor(op0, length, ml, dst.Length);
      return true, op;
    }
    op := WriteHead(src, dst, anchor, ip, op0, ip - ref);
    if limit && op + (ml - MINMATCH) / 255 + (1 + LASTLITERALS) > dst.Length {
      return true, op;
    }
    assert was[..op0] == old(dst[..op0]);
    op := WriteTail(dst, op0, op, was[..op0], src[anchor..ip], ip - ref, ml);
    EmittedNext(h, src, was, dst[..], anchor, op0, ss, ip, ip - ref, ml, op);
  }

  lemma NoRoomFor(token: nat, literals: nat, ml: nat, capacity: nat)
    requires NoRoom(token, literals, LASTLITERALS, capacity) && MINMATCH <= ml
    ensures token + SeqnSize(literals, ml) + LastSize(LASTLITERALS) > capacity
  {
    hide SeqnSize;
  }

  lemma OpBound(h: bytes, src: bytes, dst: bytes, anchor: nat, op: nat, ss: seq<Seqn>)
    requires Emitted(h, src, dst, anchor, op, ss)
    ensures op <= anchor + anchor / 255 && anchor <= |src| && op <= |dst|
  {
  }

  /** The last run of literals; 0 when it does not fit a limited output. */
  method EncodeLastLiterals(ghost h: bytes, src: bytes, dst: array<byte>, op0: nat, anchor: nat, limit: bool,
      ghost ss: seq<Seqn>)
    returns (result: nat)
    requires Emitted(h, src, dst[..], anchor, op0, ss)
    requires RoomOk(|src|, limit, dst.Length) && |src| <= MAX_INPUT_SIZE
    modifies dst
    ensures result > 0 ==> result <= dst.Length && IsBlockOf(h, src, dst[..result])
    ensures result > 0 ==> anchor <= |src| && IsParse(h, src, dst[..result], ss, src[anchor..])
    ensures result > 0 ==> result <= |src| + |src| / 255 + 2
    ensures result == 0 ==> limit && !WorstCase(|src|, dst.Length)
    ensures var size := op0 + LastSize(|src| - anchor);
      result == if limit && size > dst.Length then 0 else size
  {
    hide Emitted, EncodeLiterals, IsBlockOf, IsParse;
    ghost var was := dst[..];
    OpBound(h, src, was, anchor, op0, ss);
    var lastRunSize := |src| - anchor;
    FullExtension(lastRunSize);
    var llAdd := (lastRunSize + 255 - RUN_MASK) / 255;
    var totalSize := 1 + llAdd + lastRunSize;
    if limit && op0 + totalSize > dst.Length {
      return 0;
    }
    var op := WriteLiterals(dst, op0, src, anchor, |src|, false);
    assert was[..op0] == old(dst[..op0]);
    assert src[anchor..|src|] == src[anchor..];
    EmittedLast(h, src, was, dst[..], anchor, op0, ss, op);
    result := op;
  }
}
