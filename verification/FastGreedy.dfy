/**
  The run of the greedy compressor without its output: which matches it takes, how many bytes the block
  has that it writes when nothing limits it, and what the table is then.
*/
module FastGreedy {
  import opened Bytes
  import opened BlockFormat
  import opened BlockWriter
  import opened CommonBytes
  import opened FastMatcher
  import opened FastEncoder

  /** What a run comes to: the bytes it writes, and the table it leaves. */
  datatype Run = Run(size: nat, table: seq<nat>)

  // ----- What is still to come, from the places where the main loop goes on -----

  /** From the search at `ip`. */
  function SearchRun(j: Job, t: seq<nat>, acceleration: nat, ip: nat, anchor: nat): (r: Run)
    requires Sized(j, t) && 1 <= acceleration && MIN_LENGTH <= |j.src| && anchor <= ip
    requires ip + MFLIMIT <= |j.src| + 1
    ensures Sized(j, r.table) && (anchor + LASTLITERALS <= |j.src| ==> LastSize(LASTLITERALS) <= r.size)
    decreases |j.src| - anchor, 2
  {
    match FindFrom(j, t, ip, 1, acceleration * SKIP_TRIGGER)
    case Missed(t') => Run(LastSize(|j.src| - anchor), t')
    case Found(pos, ref, t') =>
      var start := Back(j, anchor, LowLimit(j, ref), pos, ref);
      MatchRun(j, t', acceleration, start, ref - (pos - start), anchor)
  }

  /** From _next_match, with the token and the literals before the match. */
  function MatchRun(j: Job, t: seq<nat>, acceleration: nat, ip: nat, ref: int, anchor: nat): (r: Run)
    requires Sized(j, t) && 1 <= acceleration && MIN_LENGTH <= |j.src| && anchor <= ip
    requires -|j.h| <= ref < ip && ip + MFLIMIT <= |j.src|
    ensures Sized(j, r.table)
    ensures SeqnSize(ip - anchor, MINMATCH + MatchCode(j, ip, ref)) + LastSize(LASTLITERALS) <= r.size
    decreases |j.src| - anchor, 1
  {
    var ml := MINMATCH + MatchCode(j, ip, ref);
    var rest := AfterRun(j, t, acceleration, ip + ml);
    rest.(size := SeqnSize(ip - anchor, ml) + rest.size)
  }

  /** From behind a match. */
  function AfterRun(j: Job, t: seq<nat>, acceleration: nat, anchor: nat): (r: Run)
    requires Sized(j, t) && 1 <= acceleration && MIN_LENGTH <= |j.src|
    requires MINMATCH <= anchor && anchor + LASTLITERALS <= |j.src|
    ensures Sized(j, r.table) && LastSize(LASTLITERALS) <= r.size
    decreases |j.src| - anchor, 3
  {
    if anchor >= |j.src| - MFLIMIT + 1 then Run(LastSize(|j.src| - anchor), t)
    else
      var t1 := Put(j, t, anchor - 2);
      var t2 := Put(j, t1, anchor);
      if Hit(j, t1, anchor) then MatchRun(j, t2, acceleration, anchor, RefAt(j, t1, anchor), anchor)
      else SearchRun(j, t2, acceleration, anchor + 1, anchor)
  }

  /** The whole run: the size of the block, and the table behind it. */
  function GreedyRun(j: Job, t: seq<nat>, acceleration: nat): (r: Run)
    requires Sized(j, t) && 1 <= acceleration
    ensures Sized(j, r.table) && 0 < r.size
  {
    if |j.src| < MIN_LENGTH then Run(LastSize(|j.src|), t) else SearchRun(j, Put(j, t, 0), acceleration, 1, 0)
  }

  // ----- It stays within the worst case -----

  lemma LastBound(n: nat, anchor: nat)
    requires anchor <= n
    ensures anchor + anchor / 255 + LastSize(n - anchor) <= n + n / 255 + 2
  {
    SeqnRoom(anchor, n, MINMATCH);
    assert anchor / 255 + (n - anchor) / 255 <= n / 255;
  }

  lemma {:induction false} SearchBound(j: Job, t: seq<nat>, acceleration: nat, ip: nat, anchor: nat)
    requires Sized(j, t) && 1 <= acceleration && MIN_LENGTH <= |j.src| && anchor <= ip
    requires ip + MFLIMIT <= |j.src| + 1
    ensures anchor + anchor / 255 + SearchRun(j, t, acceleration, ip, anchor).size <= |j.src| + |j.src| / 255 + 2
    decreases |j.src| - anchor, 2
  {
    hide FindFrom, Back, Put, Hit, LastSize;
    match FindFrom(j, t, ip, 1, acceleration * SKIP_TRIGGER)
    case Missed(_) => LastBound(|j.src|, anchor);
    case Found(pos, ref, t') =>
      var start := Back(j, anchor, LowLimit(j, ref), pos, ref);
      MatchBound(j, t', acceleration, start, ref - (pos - start), anchor);
  }

  lemma {:induction false} MatchBound(j: Job, t: seq<nat>, acceleration: nat, ip: nat, ref: int, anchor: nat)
    requires Sized(j, t) && 1 <= acceleration && MIN_LENGTH <= |j.src| && anchor <= ip
    requires -|j.h| <= ref < ip && ip + MFLIMIT <= |j.src|
    ensures anchor + anchor / 255 + MatchRun(j, t, acceleration, ip, ref, anchor).size <= |j.src| + |j.src| / 255 + 2
    decreases |j.src| - anchor, 1
  {
    hide MatchCode, Put, Hit;
    var ml := MINMATCH + MatchCode(j, ip, ref);
    SeqnRoom(anchor, ip, ml);
    AfterBound(j, t, acceleration, ip + ml);
  }

  lemma {:induction false} AfterBound(j: Job, t: seq<nat>, acceleration: nat, anchor: nat)
    requires Sized(j, t) && 1 <= acceleration && MIN_LENGTH <= |j.src|
    requires MINMATCH <= anchor && anchor + LASTLITERALS <= |j.src|
    ensures anchor + anchor / 255 + AfterRun(j, t, acceleration, anchor).size <= |j.src| + |j.src| / 255 + 2
    decreases |j.src| - anchor, 3
  {
    hide Put, Hit, RefAt;
    if anchor >= |j.src| - MFLIMIT + 1 {
      LastBound(|j.src|, anchor);
    } else {
      var t1 := Put(j, t, anchor - 2);
      var t2 := Put(j, t1, anchor);
      if Hit(j, t1, anchor) {
        assert -|j.h| <= RefAt(j, t1, anchor) < anchor by { HitRange(j, t1, anchor); }
        MatchBound(j, t2, acceleration, anchor, RefAt(j, t1, anchor), anchor);
      } else {
        SearchBound(j, t2, acceleration, anchor + 1, anchor);
      }
    }
  }

  lemma HitRange(j: Job, t: seq<nat>, pos: nat)
    requires Sized(j, t) && pos + HASH_UNIT <= |j.src| && Hit(j, t, pos)
    ensures -|j.h| <= RefAt(j, t, pos) < pos
  {
  }

  /** Whatever the table and the hash, the block is no longer than the source plus one byte in 255, plus two. */
  lemma {:induction false} GreedyBound(j: Job, t: seq<nat>, acceleration: nat)
    requires Sized(j, t) && 1 <= acceleration
    ensures GreedyRun(j, t, acceleration).size <= |j.src| + |j.src| / 255 + 2
  {
    hide SearchRun, Put;
    if |j.src| >= MIN_LENGTH { SearchBound(j, Put(j, t, 0), acceleration, 1, 0); }
  }

  // ----- A run of one byte -----

  /** A source that repeats one byte is one literal, one match up to the last five bytes, and those: the
      positions 0 and 1 have the same hash, so that the first search finds it. */
  lemma {:induction false} OneByteRun(j: Job, t: seq<nat>, acceleration: nat, b: byte)
    requires Sized(j, t) && 1 <= acceleration && MIN_LENGTH <= |j.src| && j.src == Repeat(b, |j.src|)
    requires j.h == [] && j.mode == NoDict && Stored(j, j.startIndex) == j.startIndex && Slot(j, 0) == Slot(j, 1)
    ensures GreedyRun(j, t, acceleration).size == 4 + ExtensionSize(|j.src| - 10) + 6
  {
    hide Slot, CommonPrefix;
    var t1 := Put(j, t, 0);
    var t2 := Put(j, t1, 1);
    assert RefAt(j, t1, 1) == 0;
    assert Hit(j, t1, 1) by { assert j.h + j.src == j.src; }
    assert FindFrom(j, t1, 1, 1, acceleration * SKIP_TRIGGER) == Found(1, 0, t2);
    assert Back(j, 0, LowLimit(j, 0), 1, 0) == 1;
    var n := |j.src|;
    assert MatchCode(j, 1, 0) == n - 10 by {
      assert j.h + j.src == j.src;
      CommonPrefixUnique(j.src, 5, j.src, 4, n - 10, n - 10);
    }
    assert AfterRun(j, t2, acceleration, n - 5) == Run(LastSize(5), t2);
    assert MatchRun(j, t2, acceleration, 1, 0, 0) == Run(SeqnSize(1, n - 6) + LastSize(5), t2);
    assert SearchRun(j, t1, acceleration, 1, 0) == MatchRun(j, t2, acceleration, 1, 0, 0);
  }
}
