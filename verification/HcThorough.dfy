/**
  How thorough the high-compression parsers are: which literals of a block repeat nothing that a search could
  have found, and that a limited output is refused only when such a block does not fit.
*/
module HcThorough {
  import opened Bytes
  import opened BlockFormat
  import opened BlockWriter
  import opened HcMatchFinder
  import opened HcEncoder
  import opened HcSearch

  /** The lazy parser gives up this many positions at most when it prefers a later match. */
  const SLACK := 4

  /** No position of the source from `from` to `to` repeats anything. */
  ghost predicate SilentFrom(sc: Scope, e: Effort, n: nat, from: int, to: int) {
    forall q: nat :: from <= q < to ==> Silent(sc, e, n, q)
  }

  /** The literals of a sequence that starts at `anchor` are silent but for the last ones. */
  ghost predicate Quiet(sc: Scope, e: Effort, n: nat, anchor: nat, literals: nat) {
    SilentFrom(sc, e, n, anchor, anchor + literals - SLACK)
  }

  /** So are the literals of all sequences of a parse. */
  ghost predicate Thorough(sc: Scope, e: Effort, n: nat, ss: seq<Seqn>) {
    forall k :: 0 <= k < |ss| ==> Quiet(sc, e, n, ParseLength(ss[..k]), |ss[k].literals|)
  }

  lemma {:induction false} ThoroughNext(sc: Scope, e: Effort, n: nat, ss: seq<Seqn>, s: Seqn)
    requires Thorough(sc, e, n, ss) && Quiet(sc, e, n, ParseLength(ss), |s.literals|)
    ensures Thorough(sc, e, n, ss + [s])
  {
    hide Quiet, ParseLength;
    var ss' := ss + [s];
    forall k | 0 <= k < |ss'| ensures Quiet(sc, e, n, ParseLength(ss'[..k]), |ss'[k].literals|) {
      assert ss'[..k] == ss[..k];
      if k == |ss| { assert ss[..k] == ss; }
    }
  }

  /** Every match goes on as far as the bytes agree or is cut where the next one follows without literals; the
      last match may be cut for one that is still `open`. */
  ghost predicate Stretched(h: bytes, src: bytes, ss: seq<Seqn>, open: bool) {
    forall k :: 0 <= k < |ss| ==>
      || EndsAt(h, src, ParseLength(ss[..k + 1]), ss[k].offset)
      || (if k + 1 < |ss| then ss[k + 1].literals == [] else open)
  }

  ghost predicate EndsAt(h: bytes, src: bytes, end: nat, offset: nat) {
    Ends(h + src, |h| + end, |h| + |src| - LASTLITERALS, offset)
  }

  lemma {:induction false} StretchedNext(h: bytes, src: bytes, ss: seq<Seqn>, open: bool, s: Seqn, open': bool)
    requires Stretched(h, src, ss, open) && (open ==> s.literals == [])
    requires EndsAt(h, src, ParseLength(ss + [s]), s.offset) || open'
    ensures Stretched(h, src, ss + [s], open')
  {
    hide EndsAt, ParseLength;
    var ss' := ss + [s];
    forall k | 0 <= k < |ss'| ensures EndsAt(h, src, ParseLength(ss'[..k + 1]), ss'[k].offset)
      || (if k + 1 < |ss'| then ss'[k + 1].literals == [] else open')
    {
      if k < |ss| {
        assert ss'[..k + 1] == ss[..k + 1];
      } else {
        assert ss'[..k + 1] == ss';
      }
    }
  }

  lemma StretchedMore(h: bytes, src: bytes, ss: seq<Seqn>, open: bool, open': bool)
    requires Stretched(h, src, ss, open) && (open ==> open')
    ensures Stretched(h, src, ss, open')
  {
    hide EndsAt, ParseLength;
  }

  lemma NothingYet(sc: Scope, e: Effort, n: nat)
    ensures Thorough(sc, e, n, []) && SilentFrom(sc, e, n, 0, 0)
    ensures forall h, src :: Stretched(h, src, [], false)
  {
  }

  lemma NothingSilent(sc: Scope, e: Effort, n: nat, from: nat, to: nat)
    requires to <= from
    ensures SilentFrom(sc, e, n, from, to)
  {
  }

  lemma OneMoreSilent(sc: Scope, e: Effort, n: nat, from: nat, ip: nat)
    requires SilentFrom(sc, e, n, from, ip) && NoneLonger(sc, e, n, ip, MINMATCH - 1)
    ensures SilentFrom(sc, e, n, from, ip + 1)
  {
    hide NoneLonger;
    forall q: nat | from <= q < ip + 1 ensures Silent(sc, e, n, q) {
      if q < ip { assert Silent(sc, e, n, q); }
    }
  }

  lemma AllSearched(sc: Scope, e: Effort, n: nat, anchor: nat, ip: nat)
    requires SilentFrom(sc, e, n, anchor, ip) && (n - MFLIMIT < ip || n <= MFLIMIT)
    ensures LastSilent(sc, e, n, anchor)
  {
    hide Silent;
  }

  /** The literals up to the position where the search found something, and a few more, are quiet. */
  lemma {:induction false} QuietTo(sc: Scope, e: Effort, n: nat, anchor: nat, first: nat, start: nat)
    requires SilentFrom(sc, e, n, anchor, first) && anchor <= start <= Max(first, anchor) + SLACK
    ensures Quiet(sc, e, n, anchor, start - anchor)
  {
    hide Silent;
  }

  /** The last run from `anchor` on is silent, as far as a match may start; in sources of 12 bytes and less
      there is no search. */
  ghost predicate LastSilent(sc: Scope, e: Effort, n: nat, anchor: int) {
    n <= MFLIMIT || SilentFrom(sc, e, n, anchor, n - MFLIMIT + 1)
  }

  /** A block of the source whose literals repeat nothing, but for the last few of a sequence, and whose matches
      are stretched. */
  ghost predicate ThoroughBlock(sc: Scope, e: Effort, h: bytes, src: bytes, block: bytes) {
    exists ss, last :: IsParse(h, src, block, ss, last) && ThoroughParse(sc, e, h, src, ss, |last|)
  }

  ghost predicate ThoroughParse(sc: Scope, e: Effort, h: bytes, src: bytes, ss: seq<Seqn>, last: nat) {
    LastSilent(sc, e, |src|, |src| - last) && Thorough(sc, e, |src|, ss) && Stretched(h, src, ss, false)
  }

  lemma ThoroughIs(sc: Scope, e: Effort, h: bytes, src: bytes, block: bytes, ss: seq<Seqn>, last: bytes)
    requires IsParse(h, src, block, ss, last) && ThoroughParse(sc, e, h, src, ss, |last|)
    ensures ThoroughBlock(sc, e, h, src, block)
  {
  }

  /** A parse of the first part of the source that leaves no room for the shortest last run. */
  ghost predicate Overflows(h: bytes, src: bytes, capacity: nat, anchor: nat, ss: seq<Seqn>) {
    Parsed(h, src, anchor, ss) && |EncodeSeqns(|h|, ss)| + LastSize(LASTLITERALS) > capacity
  }

  /** A parse after which there is no room for the literals that are left. */
  ghost predicate LastOverflows(h: bytes, src: bytes, capacity: nat, anchor: nat, ss: seq<Seqn>) {
    Parsed(h, src, anchor, ss) && |EncodeSeqns(|h|, ss)| + LastSize(|src| - anchor) > capacity
  }

  /** A limited output is refused for a parse that does not fit. */
  ghost predicate Unfit(h: bytes, src: bytes, capacity: nat) {
    exists ss, anchor: nat :: Overflows(h, src, capacity, anchor, ss) || LastOverflows(h, src, capacity, anchor, ss)
  }

  /** The parse that does not fit is a thorough one. */
  ghost predicate Refused(sc: Scope, e: Effort, h: bytes, src: bytes, capacity: nat) {
    exists ss, anchor: nat :: ThoroughOverflow(sc, e, h, src, capacity, anchor, ss)
  }

  ghost predicate ThoroughOverflow(sc: Scope, e: Effort, h: bytes, src: bytes, capacity: nat, anchor: nat,
      ss: seq<Seqn>)
  {
    && Thorough(sc, e, |src|, ss)
    && (|| (Overflows(h, src, capacity, anchor, ss) && Stretched(h, src, ss, true))
        || ( && LastOverflows(h, src, capacity, anchor, ss) && Stretched(h, src, ss, false)
             && LastSilent(sc, e, |src|, anchor)))
  }

  lemma RefusedIs(sc: Scope, e: Effort, h: bytes, src: bytes, capacity: nat, anchor: nat, ss: seq<Seqn>)
    requires ThoroughOverflow(sc, e, h, src, capacity, anchor, ss)
    ensures Refused(sc, e, h, src, capacity)
  {
  }

  lemma UnfitIs(h: bytes, src: bytes, capacity: nat, anchor: nat, ss: seq<Seqn>)
    requires Overflows(h, src, capacity, anchor, ss) || LastOverflows(h, src, capacity, anchor, ss)
    ensures Unfit(h, src, capacity)
  {
  }

  lemma RefusedUnfit(sc: Scope, e: Effort, h: bytes, src: bytes, capacity: nat)
    requires Refused(sc, e, h, src, capacity)
    ensures Unfit(h, src, capacity)
  {
    var ss, anchor: nat :| ThoroughOverflow(sc, e, h, src, capacity, anchor, ss);
    UnfitIs(h, src, capacity, anchor, ss);
  }

  /** The size of a parse with one more sequence. */
  lemma {:induction false} ParsedSize(h: bytes, src: bytes, dst: bytes, anchor: nat, op: nat, ss: seq<Seqn>, m: Found)
    requires Emitted(h, src, dst, anchor, op, ss) && MatchOk(h, src, m) && anchor <= m.start
    ensures var s := SeqnAt(src, anchor, m.start, m.start - m.ref, m.ml);
      && ParseLength(ss) == anchor
      && Parsed(h, src, End(m), ss + [s]) && ParseLength(ss + [s]) == End(m)
      && |EncodeSeqns(|h|, ss + [s])| == op + SeqnSize(m.start - anchor, m.ml)
  {
    hide ParseOk, Expand, ParseLength, EncodeSeqns, EncodeSeqn, TrueMatch;
    var s := SeqnAt(src, anchor, m.start, m.start - m.ref, m.ml);
    ParsedNext(h, src, anchor, ss, m.start, m.start - m.ref, m.ml);
    ParseAppend(h, ss, s) by { assert |Expand(h, ss)| == |h| + ParseLength(ss); }
    assert |EncodeSeqn(s)| == SeqnSize(m.start - anchor, m.ml);
    assert op == |dst[..op]|;
    assert |Expand(h, ss + [s])| == |h| + ParseLength(ss + [s]);
  }

  /** Encodes a match; a refusal is for a parse that does not fit. */
  method EncodeOne(ghost h: bytes, src: bytes, dst: array<byte>, m: Found, anchor: nat, op0: nat, limit: bool,
                   ghost ss0: seq<Seqn>)
    returns (fail: bool, op: nat, ghost ss: seq<Seqn>)
    requires Emitted(h, src, dst[..], anchor, op0, ss0) && MatchOk(h, src, m) && anchor <= m.start
    requires RoomOk(|src|, limit, dst.Length) && |src| <= MAX_INPUT_SIZE
    modifies dst
    ensures anchor <= m.start <= |src| && MatchOk(h, src, m)
    ensures !fail ==> Emitted(h, src, dst[..], End(m), op, ss)
    ensures fail ==> limit && !WorstCase(|src|, dst.Length)
    ensures ss == ss0 + [SeqnAt(src, anchor, m.start, m.start - m.ref, m.ml)]
    ensures fail ==> Overflows(h, src, dst.Length, End(m), ss)
    ensures ParseLength(ss0) == anchor && ParseLength(ss) == End(m)
  {
    hide Emitted, MatchOk, TrueMatch, Parsed, ParseLength, EncodeSeqns, SeqnSize;
    ParsedSize(h, src, dst[..], anchor, op0, ss0, m);
    MatchBounds(h, src, m);
    fail, op, ss := Encode(h, src, dst, m, anchor, op0, limit, ss0);
    ss := ss0 + [SeqnAt(src, anchor, m.start, m.start - m.ref, m.ml)];
  }

  /** Encodes a match of the lazy parser, found when the search had come to `first` without finding anything
      before. */
  method EncodeNext(ghost sc: Scope, ghost e: Effort, ghost h: bytes, src: bytes, dst: array<byte>, m: Found,
      anchor: nat,
                    op0: nat, limit: bool, ghost ss0: seq<Seqn>, ghost first: nat, ghost open: bool)
    returns (fail: bool, op: nat, ghost ss: seq<Seqn>)
    requires Emitted(h, src, dst[..], anchor, op0, ss0) && MatchOk(h, src, m) && anchor <= m.start
    requires Thorough(sc, e, |src|, ss0) && SilentFrom(sc, e, |src|, anchor, first)
    requires Stretched(h, src, ss0, m.start == anchor) && (open || Full(h, src, m))
    requires m.start <= Max(first, anchor) + SLACK
    requires RoomOk(|src|, limit, dst.Length) && |src| <= MAX_INPUT_SIZE
    modifies dst
    ensures !fail ==> Emitted(h, src, dst[..], End(m), op, ss)
    ensures !fail ==> Thorough(sc, e, |src|, ss) && Stretched(h, src, ss, open)
    ensures fail ==> limit && !WorstCase(|src|, dst.Length) && Refused(sc, e, h, src, dst.Length)
  {
    hide Emitted, MatchOk, TrueMatch, Thorough, Quiet, SilentFrom, ParseLength, Overflows, Refused, Stretched, Ends;
    fail, op, ss := EncodeOne(h, src, dst, m, anchor, op0, limit, ss0);
    ghost var s := SeqnAt(src, anchor, m.start, m.start - m.ref, m.ml);
    QuietTo(sc, e, |src|, anchor, first, m.start);
    ThoroughNext(sc, e, |src|, ss0, s);
    assert m.start == anchor ==> s.literals == [];
    StretchedNext(h, src, ss0, m.start == anchor, s, open);
    if fail {
      StretchedMore(h, src, ss, open, true);
      RefusedIs(sc, e, h, src, dst.Length, End(m), ss);
    }
  }

  /** The last run, all of it searched. */
  method EncodeLast(ghost sc: Scope, ghost e: Effort, ghost h: bytes, src: bytes, dst: array<byte>, op0: nat,
      anchor: nat,
                    limit: bool, ghost ss: seq<Seqn>)
    returns (result: nat)
    requires Emitted(h, src, dst[..], anchor, op0, ss) && LastSilent(sc, e, |src|, anchor)
    requires Thorough(sc, e, |src|, ss) && Stretched(h, src, ss, false)
    requires RoomOk(|src|, limit, dst.Length) && |src| <= MAX_INPUT_SIZE
    modifies dst
    ensures result > 0 ==> result <= dst.Length && IsBlockOf(h, src, dst[..result])
    ensures result > 0 ==> ThoroughBlock(sc, e, h, src, dst[..result])
    ensures result > 0 ==> result <= |src| + |src| / 255 + 2
    ensures result == 0 ==> limit && !WorstCase(|src|, dst.Length) && Refused(sc, e, h, src, dst.Length)
  {
    hide Emitted, Thorough, Stretched, LastSilent, Parsed, EncodeSeqns, IsParse, IsBlockOf, ThoroughBlock, Refused,
      Conforming;
    EmittedIs(h, src, dst[..], anchor, op0, ss);
    result := EncodeLastLiterals(h, src, dst, op0, anchor, limit, ss);
    if result == 0 {
      RefusedIs(sc, e, h, src, dst.Length, anchor, ss);
    } else {
      ThoroughIs(sc, e, h, src, dst[..result], ss, src[anchor..]);
    }
  }

  /** The last run of the optimal parser. */
  method EncodeEnd(ghost h: bytes, src: bytes, dst: array<byte>, op0: nat, anchor: nat, limit: bool,
      ghost ss: seq<Seqn>)
    returns (result: nat)
    requires Emitted(h, src, dst[..], anchor, op0, ss)
    requires RoomOk(|src|, limit, dst.Length) && |src| <= MAX_INPUT_SIZE
    modifies dst
    ensures result > 0 ==> result <= dst.Length && IsBlockOf(h, src, dst[..result])
    ensures result > 0 ==> result <= |src| + |src| / 255 + 2
    ensures result == 0 ==> limit && !WorstCase(|src|, dst.Length) && Unfit(h, src, dst.Length)
  {
    hide Emitted, Parsed, EncodeSeqns, IsParse, IsBlockOf, Unfit, Conforming;
    EmittedIs(h, src, dst[..], anchor, op0, ss);
    result := EncodeLastLiterals(h, src, dst, op0, anchor, limit, ss);
    if result == 0 { UnfitIs(h, src, dst.Length, anchor, ss); }
  }

  lemma EmittedIs(h: bytes, src: bytes, dst: bytes, anchor: nat, op: nat, ss: seq<Seqn>)
    requires Emitted(h, src, dst, anchor, op, ss)
    ensures Parsed(h, src, anchor, ss) && anchor <= |src| && |EncodeSeqns(|h|, ss)| == op
  {
    hide Parsed, EncodeSeqns;
    assert |dst[..op]| == op;
    assert anchor <= |src| by { ParsedFits(h, src, anchor, ss); }
  }

  lemma ParsedFits(h: bytes, src: bytes, anchor: nat, ss: seq<Seqn>)
    requires Parsed(h, src, anchor, ss)
    ensures anchor <= |src|
  {
  }
}
