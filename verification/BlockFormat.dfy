/**
  The LZ4 block format, independent of any implementation: a block is a list of
  sequences (literals, offset, match length) followed by a last run of literals.
*/
module BlockFormat {
  import opened Bytes

  const MINMATCH := 4
  const LASTLITERALS := 5
  const MFLIMIT := 12
  const DISTANCE_MAX := 65535
  const RUN_MASK := 15

  // ----- Meaning -----

  /** History `h` followed by `len` bytes copied one at a time from `offset` bytes back.
      Offset 0, which the format forbids but the decoder accepts, appends zeros. */
  function CopyMatch(h: bytes, offset: nat, len: nat): (r: bytes)
    requires offset <= |h|
    ensures |r| == |h| + len
    ensures h <= r
    ensures forall k :: |h| <= k < |r| ==> r[k] == if offset == 0 then 0 else r[k - offset]
  {
    if len == 0 then h
    else
      var p := CopyMatch(h, offset, len - 1);
      p + [if offset == 0 then 0 else p[|p| - offset]]
  }

  /** `r` extends `h` and every added byte repeats the one `offset` back. */
  ghost predicate Repeats(h: bytes, offset: nat, r: bytes)
    requires offset <= |h|
  {
    && h <= r
    && forall k :: |h| <= k < |r| ==> r[k] == if offset == 0 then 0 else r[k - offset]
  }

  /** The byte-by-byte copy is the only extension of `h` with period `offset`. */
  lemma {:induction false} CopyMatchUnique(h: bytes, offset: nat, r: bytes)
    requires offset <= |h|
    requires Repeats(h, offset, r)
    ensures r == CopyMatch(h, offset, |r| - |h|)
    decreases |r|
  {
    if |r| > |h| {
      var q := r[..|r| - 1];
      assert Repeats(h, offset, q);
      CopyMatchUnique(h, offset, q);
      assert r == q + [r[|r| - 1]];
    } else {
      assert r == h;
    }
  }

  /** Copying in two steps is copying once. */
  lemma CopyMatchSplit(h: bytes, offset: nat, m: nat, n: nat)
    requires offset <= |h|
    ensures CopyMatch(CopyMatch(h, offset, m), offset, n) == CopyMatch(h, offset, m + n)
  {
    var a := CopyMatch(h, offset, m);
    var r := CopyMatch(a, offset, n);
    assert forall k :: |h| <= k < |a| ==> r[k] == a[k];
    assert Repeats(h, offset, r);
    CopyMatchUnique(h, offset, r);
  }

  datatype Seqn = Seqn(literals: bytes, offset: nat, mlen: nat)

  /** A sequence is well formed after a history of `n` bytes. */
  predicate SeqnOk(s: Seqn, n: nat) {
    && 1 <= s.offset <= DISTANCE_MAX
    && s.offset <= n + |s.literals|
    && MINMATCH <= s.mlen
  }

  function ApplySeqn(h: bytes, s: Seqn): (r: bytes)
    requires SeqnOk(s, |h|)
    ensures |r| == |h| + |s.literals| + s.mlen
    ensures h <= r
  {
    var r := CopyMatch(h + s.literals, s.offset, s.mlen);
    assert h <= h + s.literals <= r;
    r
  }

  function ParseLength(ss: seq<Seqn>): nat {
    if ss == [] then 0
    else
      var s := ss[|ss| - 1];
      ParseLength(ss[..|ss| - 1]) + |s.literals| + s.mlen
  }

  /** Every sequence of the list is well formed after `n` bytes of history. */
  predicate ParseOk(n: nat, ss: seq<Seqn>) {
    ss == [] || (ParseOk(n, ss[..|ss| - 1]) && SeqnOk(ss[|ss| - 1], n + ParseLength(ss[..|ss| - 1])))
  }

  /** History `h` extended by all the sequences. */
  function Expand(h: bytes, ss: seq<Seqn>): (r: bytes)
    requires ParseOk(|h|, ss)
    ensures |r| == |h| + ParseLength(ss)
    ensures h <= r
  {
    if ss == [] then h else ApplySeqn(Expand(h, ss[..|ss| - 1]), ss[|ss| - 1])
  }

  /** The end-of-block rules: the last five bytes are literals and the last match starts
      at least twelve bytes before the end. */
  predicate EndOk(ss: seq<Seqn>, last: bytes) {
    ss == [] || (LASTLITERALS <= |last| && MFLIMIT <= ss[|ss| - 1].mlen + |last|)
  }

  /** The content of a block that respects the format, after history `h`. */
  predicate Conforming(n: nat, ss: seq<Seqn>, last: bytes) {
    ParseOk(n, ss) && EndOk(ss, last)
  }

  function Content(h: bytes, ss: seq<Seqn>, last: bytes): (r: bytes)
    requires ParseOk(|h|, ss)
    ensures |r| == |h| + ParseLength(ss) + |last|
    ensures h <= r
  {
    Expand(h, ss) + last
  }

  // ----- Encoding -----

  function Repeat(b: byte, n: nat): (s: bytes)
    ensures |s| == n
    ensures forall k :: 0 <= k < n ==> s[k] == b
  {
    seq(n, _ => b)
  }

  /** The bytes after the nibble that encode a length field `n`, none when it is below 15. */
  function Extension(n: nat): (s: bytes)
    ensures |s| == ExtensionSize(n)
  {
    if n < RUN_MASK then [] else Repeat(255, (n - RUN_MASK) / 255) + [(n - RUN_MASK) % 255]
  }

  function ExtensionSize(n: nat): nat {
    if n < RUN_MASK then 0 else (n - RUN_MASK) / 255 + 1
  }

  function Nibble(n: nat): (v: nat)
    ensures v <= 15
  {
    if n < RUN_MASK then n else RUN_MASK
  }

  function Token(ll: nat, ml: nat): (b: byte) {
    16 * Nibble(ll) + Nibble(ml)
  }

  function EncodeLiterals(lits: bytes, ml: nat): (s: bytes)
    ensures |s| == 1 + ExtensionSize(|lits|) + |lits|
  {
    [Token(|lits|, ml)] + Extension(|lits|) + lits
  }

  function EncodeSeqn(s: Seqn): (e: bytes)
    requires s.offset < 65536 && MINMATCH <= s.mlen
    ensures |e| == SeqnSize(|s.literals|, s.mlen)
  {
    EncodeLiterals(s.literals, s.mlen - MINMATCH) + LE16(s.offset) + Extension(s.mlen - MINMATCH)
  }

  function SeqnSize(ll: nat, ml: nat): nat
    requires MINMATCH <= ml
  {
    1 + ExtensionSize(ll) + ll + 2 + ExtensionSize(ml - MINMATCH)
  }

  function EncodeSeqns(n: nat, ss: seq<Seqn>): (e: bytes)
    requires ParseOk(n, ss)
  {
    if ss == [] then [] else EncodeSeqns(n, ss[..|ss| - 1]) + EncodeSeqn(ss[|ss| - 1])
  }

  function EncodeBlock(n: nat, ss: seq<Seqn>, last: bytes): (e: bytes)
    requires ParseOk(n, ss)
  {
    EncodeSeqns(n, ss) + EncodeLiterals(last, 0)
  }

  // ----- Appending a sequence -----

  lemma ParseAppend(h: bytes, ss: seq<Seqn>, s: Seqn)
    requires ParseOk(|h|, ss)
    requires SeqnOk(s, |h| + ParseLength(ss))
    ensures ParseOk(|h|, ss + [s])
    ensures ParseLength(ss + [s]) == ParseLength(ss) + |s.literals| + s.mlen
    ensures Expand(h, ss + [s]) == ApplySeqn(Expand(h, ss), s)
    ensures EncodeSeqns(|h|, ss + [s]) == EncodeSeqns(|h|, ss) + EncodeSeqn(s)
  {
    var t := ss + [s];
    assert t[..|t| - 1] == ss;
    assert t[|t| - 1] == s;
  }
}
