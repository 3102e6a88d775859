/**
  What the compressors have in common: true matches, the parse they have emitted so far, the
  bytes they write for a sequence and the room those bytes take.
*/
module BlockWriter {
  import opened Bytes
  import opened BlockFormat
  import opened BlockDecoderSpec
  import opened BlockRoundTrip
  import opened WildCopy

  const MAX_INPUT_SIZE := 0x7E000000

  /** LZ4_COMPRESSBOUND */
  function CompressBound(n: nat): nat {
    if n > MAX_INPUT_SIZE then 0 else n + n / 255 + 16
  }

  // ----- Matches -----

  /** `src[pos..pos + len]` repeats what lies `offset` bytes back in history and source. */
  ghost predicate TrueMatch(h: bytes, src: bytes, pos: nat, offset: nat, len: nat) {
    && 1 <= offset <= DISTANCE_MAX
    && offset <= |h| + pos
    && pos + len <= |src|
    && forall k :: |h| + pos <= k < |h| + pos + len ==> (h + src)[k] == (h + src)[k - offset]
  }

  /** A part of a true match is a true match. */
  lemma SubMatch(h: bytes, src: bytes, pos: nat, offset: nat, len: nat, pos': nat, len': nat)
    requires TrueMatch(h, src, pos, offset, len)
    requires pos <= pos' && pos' + len' <= pos + len
    ensures TrueMatch(h, src, pos', offset, len')
  {
  }

  // ----- The parse emitted so far -----

  /** `ss` is a parse of `src[..anchor]` whose matches respect the end-of-block rules of `src`. */
  ghost predicate Parsed(h: bytes, src: bytes, anchor: nat, ss: seq<Seqn>) {
    && anchor <= |src|
    && ParseOk(|h|, ss)
    && Expand(h, ss) == h + src[..anchor]
    && (ss != [] ==> anchor + LASTLITERALS <= |src| && anchor + MFLIMIT <= |src| + ss[|ss| - 1].mlen)
  }

  /** The bytes of that parse fill `dst[..op]`, within the room that `anchor` bytes may take. */
  ghost predicate Emitted(h: bytes, src: bytes, dst: bytes, anchor: nat, op: nat, ss: seq<Seqn>) {
    && Parsed(h, src, anchor, ss)
    && op <= |dst|
    && dst[..op] == EncodeSeqns(|h|, ss)
    && op <= anchor + anchor / 255
  }

  lemma {:induction false} ParsedStart(h: bytes, src: bytes, dst: bytes)
    ensures Emitted(h, src, dst, 0, 0, [])
  {
  }

  /** The sequence of the literals up to `ip` and a true match. */
  function SeqnAt(src: bytes, anchor: nat, ip: nat, offset: nat, len: nat): Seqn
    requires anchor <= ip <= |src|
  {
    Seqn(src[anchor..ip], offset, len)
  }

  lemma {:induction false} ParsedNext(h: bytes, src: bytes, anchor: nat, ss: seq<Seqn>, ip: nat, offset: nat, len: nat)
    requires Parsed(h, src, anchor, ss) && anchor <= ip && MINMATCH <= len
    requires TrueMatch(h, src, ip, offset, len)
    requires ip + MFLIMIT <= |src| && ip + len + LASTLITERALS <= |src|
    ensures SeqnOk(SeqnAt(src, anchor, ip, offset, len), |h| + anchor)
    ensures ParseLength(ss) == anchor
    ensures Parsed(h, src, ip + len, ss + [SeqnAt(src, anchor, ip, offset, len)])
  {
    hide ParseOk, Expand, ParseLength, EncodeSeqns, EncodeSeqn, CopyMatch;
    var s := SeqnAt(src, anchor, ip, offset, len);
    assert |Expand(h, ss)| == |h| + ParseLength(ss);
    ParseAppend(h, ss, s);
    var a, r := h + src[..anchor] + s.literals, h + src[..ip + len];
    assert a == h + src[..ip];
    assert forall k :: 0 <= k < |r| ==> r[k] == (h + src)[k];
    CopyMatchUnique(a, offset, r);
    assert Expand(h, ss + [s]) == r;
    assert (ss + [s])[|ss|] == s;
  }

  /** The room a sequence takes is paid for by the bytes it stands for. */
  lemma SeqnRoom(anchor: nat, ip: nat, len: nat)
    requires anchor <= ip && MINMATCH <= len
    ensures anchor + anchor / 255 + SeqnSize(ip - anchor, len) <= ip + len + (ip + len) / 255
    ensures 1 + ExtensionSize(ip - anchor) + (ip - anchor) <= ip - anchor + (ip - anchor) / 255 + 2
  {
  }

  lemma {:induction false} EmittedNext(h: bytes, src: bytes, was: bytes, now: bytes, anchor: nat, op: nat,
      ss: seq<Seqn>,
                                       ip: nat, offset: nat, len: nat, op': nat)
    requires Emitted(h, src, was, anchor, op, ss) && anchor <= ip && MINMATCH <= len
    requires TrueMatch(h, src, ip, offset, len)
    requires ip + MFLIMIT <= |src| && ip + len + LASTLITERALS <= |src|
    requires op' <= |now| && now[..op'] == was[..op] + EncodeSeqn(SeqnAt(src, anchor, ip, offset, len))
    ensures Emitted(h, src, now, ip + len, op', ss + [SeqnAt(src, anchor, ip, offset, len)])
  {
    hide ParseOk, Expand, ParseLength, EncodeSeqns, EncodeSeqn, TrueMatch;
    var s := SeqnAt(src, anchor, ip, offset, len);
    ParsedNext(h, src, anchor, ss, ip, offset, len);
    ParseAppend(h, ss, s) by { assert |Expand(h, ss)| == |h| + ParseLength(ss); }
    SeqnRoom(anchor, ip, len);
    assert |EncodeSeqn(s)| == SeqnSize(ip - anchor, len);
    assert op' == |now[..op']|;
  }

  /** A finished block: it decodes to the source whatever the layout of the history. */
  ghost predicate IsBlockOf(h: bytes, src: bytes, block: bytes) {
    exists ss, last :: IsParse(h, src, block, ss, last)
  }

  ghost predicate IsParse(h: bytes, src: bytes, block: bytes, ss: seq<Seqn>, last: bytes) {
    Conforming(|h|, ss, last) && Content(h, ss, last) == h + src && block == EncodeBlock(|h|, ss, last)
  }

  /** What a block of a source is worth: every decoding gives the source back, or the part of it
      that was asked for, whatever the layout of the history. */
  lemma {:induction false} BlockDecodes(h: bytes, src: bytes, block: bytes, ext: nat, cap: nat, partial: bool)
    requires IsBlockOf(h, src, block) && ext <= |h| && (partial || |src| <= cap)
    ensures Decompress(block, h, ext, cap, partial) == Decoded((h + src)[..|h| + Min(|src|, cap)])
  {
    hide Conforming, Content, EncodeBlock, Decompress;
    var ss, last :| IsParse(h, src, block, ss, last);
    RoundTrip(h, ss, last, ext, cap, partial);
  }

  lemma {:induction false} EmittedLast(h: bytes, src: bytes, was: bytes, now: bytes, anchor: nat, op: nat,
      ss: seq<Seqn>, op': nat)
    requires Emitted(h, src, was, anchor, op, ss)
    requires op' <= |now| && now[..op'] == was[..op] + EncodeLiterals(src[anchor..], 0)
    ensures IsBlockOf(h, src, now[..op']) && IsParse(h, src, now[..op'], ss, src[anchor..])
    ensures op' <= |src| + |src| / 255 + 2
  {
    hide ParseOk, Expand, EncodeSeqns, EncodeLiterals;
    var last := src[anchor..];
    assert h + src[..anchor] + last == h + src;
    assert IsParse(h, src, now[..op'], ss, last);
    SeqnRoom(anchor, |src|, 4);
    assert op' == |now[..op']|;
  }

  // ----- Refusals -----

  /** The bytes of a last run of `n` literals. */
  function LastSize(n: nat): nat {
    1 + ExtensionSize(n) + n
  }

  /** Behind `token` there is no room for a sequence with so many literals, whatever its match, and a last
      run of at least `last0` literals. */
  ghost predicate NoRoom(token: nat, literals: nat, last0: nat, capacity: nat) {
    forall ml: nat, last: nat :: MINMATCH <= ml && last0 <= last ==>
      token + SeqnSize(literals, ml) + LastSize(last) > capacity
  }

  lemma {:induction false} NoRoomAt(token: nat, literals: nat, last0: nat, capacity: nat)
    requires token + 1 + literals + ExtensionSize(literals) + 2 + 1 + last0 > capacity
    ensures NoRoom(token, literals, last0, capacity)
  {
  }

  /** The estimate of the length bytes in the first test is never too high. */
  lemma {:induction false} LiteralsNoRoom(token: nat, literals: nat, capacity: nat)
    requires token + 1 + literals + (2 + 1 + LASTLITERALS) + literals / 255 > capacity
    ensures NoRoom(token, literals, LASTLITERALS, capacity)
  {
    assert literals / 255 <= ExtensionSize(literals);
    NoRoomAt(token, literals, LASTLITERALS, capacity);
  }

  lemma FullExtension(n: nat)
    ensures ExtensionSize(n) == (n + 240) / 255
  {
  }

  // ----- Writing -----

  /** The additional bytes of a literal length, `len` already diminished by 15. */
  method WriteLength(dst: array<byte>, op0: nat, len0: nat) returns (op: nat)
    requires op0 + len0 / 255 + 1 <= dst.Length
    modifies dst
    ensures op == op0 + len0 / 255 + 1
    ensures dst[..op] == old(dst[..op0]) + Extension(len0 + RUN_MASK)
  {
    op := op0;
    var len := len0;
    while len >= 255
      invariant op0 <= op && len == len0 - 255 * (op - op0) && len >= 0
      invariant dst[..op] == old(dst[..op0]) + Repeat(255, op - op0)
    {
      dst[op] := 255;
      op, len := op + 1, len - 255;
      assert dst[..op] == dst[..op - 1] + [255];
      assert Repeat(255, op - op0) == Repeat(255, op - 1 - op0) + [255];
    }
    dst[op] := len;
    op := op + 1;
    assert dst[..op] == dst[..op - 1] + [len];
  }

  /** The token of a run of literals and its additional length bytes. */
  method WriteRunLength(dst: array<byte>, op0: nat, length: nat) returns (op: nat)
    requires op0 + 1 + ExtensionSize(length) <= dst.Length
    modifies dst
    ensures op == op0 + 1 + ExtensionSize(length)
    ensures dst[..op] == old(dst[..op0]) + [Token(length, 0)] + Extension(length)
  {
    op := op0 + 1;
    if length >= RUN_MASK {
      dst[op0] := RUN_MASK * 16;
      op := WriteLength(dst, op, length - RUN_MASK);
    } else {
      dst[op0] := length * 16;
    }
  }

  /** The bytes that copying `length` literals may write. */
  function CopyRoom(length: nat, wild: bool): nat {
    if wild then Max(8, length + 7) else length
  }

  /** Token and literals of a sequence or of the last run; the low nibble of the token is 0. */
  method WriteLiterals(dst: array<byte>, op0: nat, src: bytes, anchor: nat, ip: nat, wild: bool) returns (op: nat)
    requires anchor <= ip <= |src|
    requires wild ==> ip + 8 <= |src|
    requires op0 + 1 + ExtensionSize(ip - anchor) + CopyRoom(ip - anchor, wild) <= dst.Length
    modifies dst
    ensures op == op0 + 1 + ExtensionSize(ip - anchor) + (ip - anchor)
    ensures dst[..op] == old(dst[..op0]) + EncodeLiterals(src[anchor..ip], 0)
  {
    hide EncodeLiterals, Token, Extension, ExtensionSize;
    ghost var was := dst[..op0];
    var length := ip - anchor;
    op := WriteRunLength(dst, op0, length);
    CopyLiterals(dst, op, src, anchor, length, wild);
    op := op + length;
    LiteralsLayout(was, src[anchor..ip], 0, dst[..op]);
  }

  lemma LiteralsLayout(was: bytes, lits: bytes, ml: nat, now: bytes)
    requires now == was + [Token(|lits|, ml)] + Extension(|lits|) + lits
    ensures now == was + EncodeLiterals(lits, ml)
  {
    hide Token, Extension;
  }

  method CopyLiterals(dst: array<byte>, op: nat, src: bytes, anchor: nat, length: nat, wild: bool)
    requires anchor + length <= |src| && op + CopyRoom(length, wild) <= dst.Length
    requires wild ==> anchor + length + 8 <= |src|
    modifies dst
    ensures dst[..op + length] == old(dst[..op]) + src[anchor..anchor + length]
  {
    if wild {
      WildCopy8From(dst, op, src, anchor, op + length);
    } else {
      MemcpyFrom(dst, op, src, anchor, length);
    }
    assert dst[..op] == old(dst[..op]);
    assert dst[op..op + length] == src[anchor..anchor + length];
    assert dst[..op + length] == dst[..op] + dst[op..op + length];
  }

  /** LZ4_writeLE16 */
  method WriteOffset(dst: array<byte>, op: nat, offset: nat)
    requires op + 2 <= dst.Length && offset < 65536
    modifies dst
    ensures dst[..op + 2] == old(dst[..op]) + LE16(offset)
  {
    dst[op], dst[op + 1] := offset % 256, offset / 256;
  }

  /** The high nibble of the token stands, its low nibble is added. */
  method AddToToken(dst: array<byte>, token: nat, op: nat, ghost was: bytes, ghost lits: bytes, ghost rest: bytes,
      ml: nat)
    requires token < op <= dst.Length && |was| == token
    requires dst[..op] == was + EncodeLiterals(lits, 0) + rest
    modifies dst
    ensures dst[..op] == was + EncodeLiterals(lits, ml) + rest
  {
    TokenSplit(dst[..op], was, lits, rest, ml);
    dst[token] := dst[token] + Nibble(ml);
  }

  lemma TokenSplit(s: bytes, was: bytes, lits: bytes, rest: bytes, ml: nat)
    requires s == was + EncodeLiterals(lits, 0) + rest
    ensures s[|was|] == Token(|lits|, 0) && Token(|lits|, 0) + Nibble(ml) == Token(|lits|, ml)
    ensures s[|was| := Token(|lits|, ml)] == was + EncodeLiterals(lits, ml) + rest
  {
    hide Extension, Token;
    var e := Extension(|lits|) + lits;
    assert EncodeLiterals(lits, 0) == [Token(|lits|, 0)] + e;
    assert EncodeLiterals(lits, ml) == [Token(|lits|, ml)] + e;
    var rest' := e + rest;
    assert s == was + [Token(|lits|, 0)] + rest';
    assert s[|was| := Token(|lits|, ml)] == was + [Token(|lits|, ml)] + rest';
    assert was + ([Token(|lits|, ml)] + e) + rest == was + [Token(|lits|, ml)] + rest';
    TokenSum(|lits|, ml);
  }

  lemma TokenSum(ll: nat, ml: nat)
    ensures Token(ll, 0) + Nibble(ml) == Token(ll, ml)
  {
  }
}
