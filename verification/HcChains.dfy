/**
  The hash table and the hash chains of lz4hc.c as values: what they know about the positions
  inserted, and why a search that follows a chain, changes to another one or jumps over a run of one
  byte passes over no candidate that would be worth more than what has been found.
*/
module HcChains {
  import opened Bytes
  import opened BlockFormat
  import opened CommonBytes
  import opened HcPattern

  const HASH_SIZE := 32768
  const CHAIN_SIZE := 65536

  /** LZ4HC_hashPtr of the four bytes at `i`. */
  function HashPtr(s: bytes, i: nat): (h: nat)
    requires i + 4 <= |s|
    ensures h < HASH_SIZE
  {
    var b0: int, b1: int, b2: int, b3: int := s[i], s[i + 1], s[i + 2], s[i + 3];
    ((b0 + 0x100 * b1 + 0x1_0000 * b2 + 0x100_0000 * b3) * 2654435761) % 0x1_0000_0000 / 0x2_0000
  }

  /** Equal bytes have equal hashes. */
  lemma {:induction false} SameHash(s: bytes, i: nat, t: bytes, j: nat)
    requires i + 4 <= |s| && j + 4 <= |t|
    requires s[i] == t[j] && s[i + 1] == t[j + 1] && s[i + 2] == t[j + 2] && s[i + 3] == t[j + 3]
    ensures HashPtr(s, i) == HashPtr(t, j)
  {
  }

  /** External dictionary of `d` bytes and prefix as one string, whose first byte has index `low`. */
  datatype Text = Text(all: bytes, low: nat, d: nat) {
    /** Four bytes may be read at index `p`: they do not lie across the end of the dictionary. */
    predicate Has(p: int) {
      low <= p && p - low + 4 <= |all| && (p - low + 4 <= d || d <= p - low)
    }

    function Hash(p: nat): nat
      requires Has(p)
    {
      HashPtr(all, p - low)
    }
  }

  // ----- What the tables know -----

  /** A position in the tables: inserted from index `lo` on, before `next`. */
  ghost predicate Spot(x: Text, lo: nat, next: nat, p: int) {
    lo <= p < next && x.Has(p)
  }

  /** The slot of every spot holds it or a later one, and what a slot holds of them has its hash. */
  ghost predicate Tabled(x: Text, t: seq<nat>, lo: nat, next: nat) {
    && |t| == HASH_SIZE
    && (forall p: nat :: Spot(x, lo, next, p) ==> p <= t[x.Hash(p)])
    && (forall k :: 0 <= k < HASH_SIZE && lo <= t[k] ==> Spot(x, lo, next, t[k]) && x.Hash(t[k]) == k)
  }

  /** The step `delta` from spot `i` passes over no spot with its hash and, unless cut to the largest
      distance, leads to one or out of the part of the tables that is known. */
  ghost predicate Link(x: Text, lo: nat, i: nat, delta: nat)
    requires x.Has(i)
  {
    && 1 <= delta <= DISTANCE_MAX
    && (forall p: nat :: Spot(x, lo, i, p) && i - delta < p ==> x.Hash(p) != x.Hash(i))
    && (lo <= i - delta && delta < DISTANCE_MAX ==> x.Has(i - delta) && x.Hash(i - delta) == x.Hash(i))
  }

  /** The chain table holds the links of the last 64 K positions. */
  ghost predicate Linked(x: Text, c: seq<nat>, lo: nat, next: nat) {
    && |c| == CHAIN_SIZE
    && forall i: nat :: Spot(x, lo, next, i) && next <= i + CHAIN_SIZE ==> Link(x, lo, i, c[i % CHAIN_SIZE])
  }

  /** Tables without an entry from `lo` on know all of nothing. */
  lemma {:induction false} NothingKnown(x: Text, t: seq<nat>, c: seq<nat>, lo: nat, next: nat)
    requires |t| == HASH_SIZE && |c| == CHAIN_SIZE && next <= lo
    requires forall k :: 0 <= k < HASH_SIZE ==> t[k] < lo
    ensures Tabled(x, t, lo, next) && Linked(x, c, lo, next)
  {
    hide HashPtr;
  }

  /** Inserting one more position keeps the tables. */
  lemma {:induction false} InsertTabled(x: Text, t: seq<nat>, lo: nat, idx: nat)
    requires Tabled(x, t, lo, idx) && x.Has(idx)
    ensures Tabled(x, t[x.Hash(idx) := idx], lo, idx + 1)
  {
    hide HashPtr;
    var t' := t[x.Hash(idx) := idx];
    forall p: nat | Spot(x, lo, idx + 1, p) ensures p <= t'[x.Hash(p)] {
      if p < idx { assert Spot(x, lo, idx, p); }
    }
    forall k | 0 <= k < HASH_SIZE && lo <= t'[k] ensures Spot(x, lo, idx + 1, t'[k]) && x.Hash(t'[k]) == k {
      if k != x.Hash(idx) { assert Spot(x, lo, idx, t[k]); }
    }
  }

  lemma {:induction false} NewLink(x: Text, t: seq<nat>, lo: nat, idx: nat)
    requires Tabled(x, t, lo, idx) && x.Has(idx) && t[x.Hash(idx)] < idx
    ensures Link(x, lo, idx, Min(idx - t[x.Hash(idx)], DISTANCE_MAX))
  {
    hide HashPtr;
    var h := x.Hash(idx);
    var delta := Min(idx - t[h], DISTANCE_MAX);
    forall p: nat | Spot(x, lo, idx, p) && idx - delta < p ensures x.Hash(p) != h {
      assert p <= t[x.Hash(p)];
    }
    if lo <= idx - delta && delta < DISTANCE_MAX { assert Spot(x, lo, idx, t[h]); }
  }

  lemma {:induction false} InsertLinked(x: Text, c: seq<nat>, lo: nat, idx: nat, delta: nat)
    requires Linked(x, c, lo, idx) && x.Has(idx) && Link(x, lo, idx, delta)
    ensures Linked(x, c[idx % CHAIN_SIZE := delta], lo, idx + 1)
  {
    hide Link;
    var c' := c[idx % CHAIN_SIZE := delta];
    forall i: nat | Spot(x, lo, idx + 1, i) && idx + 1 <= i + CHAIN_SIZE ensures Link(x, lo, i, c'[i % CHAIN_SIZE]) {
      if i < idx {
        OtherSlot(i, idx);
        assert Spot(x, lo, idx, i);
      }
    }
  }

  lemma {:induction false} OtherSlot(i: nat, idx: nat)
    requires i < idx < i + CHAIN_SIZE
    ensures i % CHAIN_SIZE != idx % CHAIN_SIZE
  {
    assert idx - i == CHAIN_SIZE * (idx / CHAIN_SIZE - i / CHAIN_SIZE) + (idx % CHAIN_SIZE - i % CHAIN_SIZE);
  }

  /** What is known from an index on is known from every later one on. */
  lemma {:induction false} KnownFrom(x: Text, t: seq<nat>, c: seq<nat>, lo: nat, next: nat, lo': nat)
    requires Tabled(x, t, lo, next) && Linked(x, c, lo, next) && lo <= lo'
    ensures Tabled(x, t, lo', next) && Linked(x, c, lo', next)
  {
    hide HashPtr;
    forall p: nat | Spot(x, lo', next, p) ensures p <= t[x.Hash(p)] {
      assert Spot(x, lo, next, p);
    }
    forall k | 0 <= k < HASH_SIZE && lo' <= t[k] ensures Spot(x, lo', next, t[k]) && x.Hash(t[k]) == k {
      assert Spot(x, lo, next, t[k]);
    }
    forall i: nat | Spot(x, lo', next, i) && next <= i + CHAIN_SIZE ensures Link(x, lo', i, c[i % CHAIN_SIZE]) {
      assert Spot(x, lo, next, i);
      LinkFrom(x, lo, i, c[i % CHAIN_SIZE], lo');
    }
  }

  lemma {:induction false} LinkFrom(x: Text, lo: nat, i: nat, delta: nat, lo': nat)
    requires x.Has(i) && Link(x, lo, i, delta) && lo <= lo'
    ensures Link(x, lo', i, delta)
  {
    hide HashPtr;
    forall p: nat | Spot(x, lo', i, p) && i - delta < p ensures x.Hash(p) != x.Hash(i) {
      assert Spot(x, lo, i, p);
    }
  }

  // ----- What a candidate is worth -----

  /** One search: from index `ip`, comparing up to `high`, looking at candidates from `lowest` on. Nothing
      is claimed about candidates before `from`. */
  datatype Goal = Goal(ip: nat, high: nat, lowest: nat, from: nat, fav: bool, swap: bool)

  ghost predicate GoalOk(x: Text, g: Goal) {
    && x.d <= |x.all| && x.low + x.d <= g.ip && g.ip + MINMATCH <= g.high <= x.low + |x.all|
    && x.low <= g.lowest <= g.from && g.ip <= g.lowest + DISTANCE_MAX
    && (g.swap ==> x.low + x.d <= g.from)
  }

  /** The length of the match with the candidate at index `p`: 0 if less than four bytes agree, or if
      these lie across the end of the dictionary. */
  function Worth(x: Text, g: Goal, p: nat): (n: nat)
    requires x.low <= p < g.ip <= g.high <= x.low + |x.all|
    ensures n <= g.high - g.ip
  {
    var n := Agreeing(x.all, g.ip - x.low, x.all, p - x.low, g.high - g.ip);
    if x.Has(p) && MINMATCH <= n then n else 0
  }

  /** The candidate at index `p` promises no more than `longest`, or is too close to be decoded fast. */
  ghost predicate Weighed(x: Text, g: Goal, p: nat, longest: nat)
    requires x.low <= p < g.ip <= g.high <= x.low + |x.all|
  {
    (g.fav && g.ip - p < 8) || Worth(x, g, p) <= longest
  }

  /** Where the hashes `k` bytes on differ the match is no longer than `k` + 3, and nothing if `k` is 0. */
  lemma {:induction false} OtherHash(x: Text, g: Goal, p: nat, k: nat)
    requires GoalOk(x, g) && x.low <= p < g.ip && g.ip + k + MINMATCH <= g.high
    requires HashPtr(x.all, p - x.low + k) != HashPtr(x.all, g.ip - x.low + k)
    ensures Worth(x, g, p) < k + MINMATCH && (k == 0 ==> Worth(x, g, p) == 0)
  {
    hide HashPtr, CommonPrefix, Agreeing;
    if k + MINMATCH <= Agreeing(x.all, g.ip - x.low, x.all, p - x.low, g.high - g.ip) {
      AgreeingHash(x.all, g.ip - x.low, p - x.low, g.high - g.ip, k);
    }
  }

  lemma {:induction false} AgreeingHash(s: bytes, i: nat, j: nat, len: nat, k: nat)
    requires i + len <= |s| && j < i && k + MINMATCH <= Agreeing(s, i, s, j, len)
    ensures HashPtr(s, j + k) == HashPtr(s, i + k)
  {
    hide HashPtr, CommonPrefix;
    var n := Agreeing(s, i, s, j, len);
    RunAt(s, i, j, n, k);
    RunAt(s, i, j, n, k + 1);
    RunAt(s, i, j, n, k + 2);
    RunAt(s, i, j, n, k + 3);
    SameHash(s, j + k, s, i + k);
  }

  // ----- How far a search has come -----

  ghost predicate Alike(x: Text, ip: nat, p: nat)
    requires x.Has(ip)
  {
    x.Has(p) && x.Hash(p) == x.Hash(ip)
  }

  /** The number of positions from `p` on that have the hash of position `ip`. */
  ghost function Likes(x: Text, ip: nat, p: nat): nat
    requires x.Has(ip)
    decreases ip - p
  {
    if ip <= p then 0 else (if Alike(x, ip, p) then 1 else 0) + Likes(x, ip, p + 1)
  }

  lemma {:induction false} LikesGrow(x: Text, ip: nat, p: nat, q: nat)
    requires x.Has(ip) && p <= q <= ip
    ensures Likes(x, ip, q) <= Likes(x, ip, p)
    ensures Alike(x, ip, p) && p < q ==> Likes(x, ip, q) < Likes(x, ip, p)
    decreases q - p
  {
    if p < q { LikesGrow(x, ip, p + 1, q); }
  }

  /** How many attempts it takes at most to come to position `p`. */
  ghost function Rank(x: Text, g: Goal, p: nat): nat
    requires x.Has(g.ip) && p <= g.ip
  {
    if g.swap then g.ip - p else Likes(x, g.ip, p)
  }

  lemma {:induction false} RankGrows(x: Text, g: Goal, p: nat, q: nat)
    requires x.Has(g.ip) && p <= q <= g.ip
    ensures Rank(x, g, q) <= Rank(x, g, p)
    ensures p < q && (g.swap || Alike(x, g.ip, p)) ==> Rank(x, g, q) < Rank(x, g, p)
  {
    LikesGrow(x, g.ip, p, q);
  }

  /** Candidate `p` is done with when the search is at `i`: weighed, or worth no more than the candidate
      at `i`, which is still to be looked at. */
  ghost predicate Passed(x: Text, g: Goal, p: nat, i: int, visited: nat, longest: nat)
    requires GoalOk(x, g) && x.low <= p < g.ip && i < p
  {
    || Weighed(x, g, p, longest)
    || (g.lowest <= i && Worth(x, g, p) <= Worth(x, g, i) && visited < Rank(x, g, p))
  }

  /** Everything after `i` is done with. */
  ghost predicate Course(x: Text, g: Goal, i: int, visited: nat, longest: nat)
    requires GoalOk(x, g)
  {
    forall p: nat :: g.from <= p < g.ip && i < p ==> Passed(x, g, p, i, visited, longest)
  }

  /** The candidate at `i` lies on the chain of the bytes `pos` after the position, within what has been
      found to agree there. */
  ghost predicate OnChain(x: Text, g: Goal, i: int, pos: nat, visited: nat, longest: nat)
    requires GoalOk(x, g)
  {
    && (pos > 0 ==> g.swap && pos + MINMATCH <= longest)
    && g.ip + pos + MINMATCH <= g.high
    && (g.from <= i < g.ip ==>
          && i + pos < g.ip && x.Has(i + pos) && x.Hash(i + pos) == x.Hash(g.ip + pos)
          && visited < Rank(x, g, i))
  }

  /** Everything from `i` on is weighed. */
  ghost predicate WeighedFrom(x: Text, g: Goal, i: int, longest: nat)
    requires GoalOk(x, g)
  {
    forall p: nat :: g.from <= p < g.ip && i <= p ==> Weighed(x, g, p, longest)
  }

  lemma {:induction false} Settle(x: Text, g: Goal, i: nat, visited: nat, longest: nat, longest': nat)
    requires GoalOk(x, g) && g.lowest <= i < g.ip && Course(x, g, i, visited, longest)
    requires longest <= longest' && Weighed(x, g, i, longest')
    ensures WeighedFrom(x, g, i, longest')
  {
    hide Worth;
    forall p: nat | g.from <= p < g.ip && i <= p ensures Weighed(x, g, p, longest') {
      if i < p { assert Passed(x, g, p, i, visited, longest); }
    }
  }

  lemma {:induction false} CourseWeighed(x: Text, g: Goal, i: int, visited: nat, longest: nat)
    requires GoalOk(x, g) && WeighedFrom(x, g, i + 1, longest)
    ensures Course(x, g, i, visited, longest)
  {
    hide Worth, Rank, Weighed;
    forall p: nat | g.from <= p < g.ip && i < p ensures Passed(x, g, p, i, visited, longest) {
      assert Weighed(x, g, p, longest);
    }
  }

  /** A longer match found since weighs no less. */
  lemma {:induction false} WeighedMore(x: Text, g: Goal, i: int, i': int, longest: nat, longest': nat)
    requires GoalOk(x, g) && WeighedFrom(x, g, i, longest) && longest <= longest' && (i <= i' || i <= g.from)
    ensures WeighedFrom(x, g, i', longest')
  {
    hide Worth;
    forall p: nat | g.from <= p < g.ip && i' <= p ensures Weighed(x, g, p, longest') {
      assert Weighed(x, g, p, longest);
    }
  }

  lemma {:induction false} StillOnChain(x: Text, g: Goal, i: int, pos: nat, visited: nat, longest: nat, longest': nat)
    requires GoalOk(x, g) && OnChain(x, g, i, pos, visited, longest) && longest <= longest'
    ensures OnChain(x, g, i, pos, visited, longest')
  {
    hide HashPtr, Rank;
  }

  /** The chain of a position followed from `i`: what it passes over is worth no more than `longest`. */
  lemma {:induction false} Follow(x: Text, g: Goal, c: seq<nat>, i: nat, pos: nat, visited: nat, longest: nat)
    requires GoalOk(x, g) && Linked(x, c, g.from, g.ip) && g.from <= i < g.ip
    requires OnChain(x, g, i, pos, visited, longest) && WeighedFrom(x, g, i, longest)
    ensures var delta := c[(i + pos) % CHAIN_SIZE];
      && 1 <= delta
      && WeighedFrom(x, g, i - delta + 1, longest)
      && Course(x, g, i - delta, visited + 1, longest)
      && OnChain(x, g, i - delta, pos, visited + 1, longest)
  {
    hide HashPtr, Worth, Link, Rank;
    assert Spot(x, g.from, g.ip, i + pos);
    var delta := c[(i + pos) % CHAIN_SIZE];
    assert Link(x, g.from, i + pos, delta);
    LinkMeans(x, g.from, i + pos, delta);
    forall p: nat | g.from <= p < g.ip && i - delta + 1 <= p ensures Weighed(x, g, p, longest) {
      if p < i && x.Has(p) {
        assert x.Has(p + pos);
        assert Spot(x, g.from, i + pos, p + pos);
        OtherHash(x, g, p, pos);
      } else if p < i {
        WorthNothing(x, g, p);
      }
    }
    var i' := i - delta;
    CourseWeighed(x, g, i', visited + 1, longest);
    if g.from <= i' {
      assert x.Has(i' + pos);
      RankGrows(x, g, i', i);
    }
  }

  lemma {:induction false} LinkMeans(x: Text, lo: nat, i: nat, delta: nat)
    requires x.Has(i) && Link(x, lo, i, delta)
    ensures 1 <= delta <= DISTANCE_MAX
    ensures forall p: nat :: Spot(x, lo, i, p) && i - delta < p ==> x.Hash(p) != x.Hash(i)
    ensures lo <= i - delta && delta < DISTANCE_MAX ==> x.Has(i - delta) && x.Hash(i - delta) == x.Hash(i)
  {
    hide HashPtr;
  }

  /** The match found at `i` agrees `pos` bytes on, so that its chain may be changed to. */
  lemma {:induction false} SwapOnChain(x: Text, g: Goal, i: nat, pos: nat, visited: nat, longest: nat)
    requires GoalOk(x, g) && g.swap && x.low <= i < g.ip && i + longest <= g.ip && pos + MINMATCH <= longest
    requires Worth(x, g, i) == longest && (g.from <= i ==> visited < Rank(x, g, i))
    ensures OnChain(x, g, i, pos, visited, longest)
  {
    hide HashPtr, CommonPrefix, Rank;
    if HashPtr(x.all, i - x.low + pos) != HashPtr(x.all, g.ip - x.low + pos) { OtherHash(x, g, i, pos); }
  }

  // ----- Runs of one byte -----

  /** From index `p` on, before `high`, exactly `n` bytes are `b`. */
  ghost predicate Run(x: Text, b: byte, p: nat, n: nat, high: nat)
    requires x.low <= p && p + n <= high <= x.low + |x.all|
  {
    && AllBytes(x.all, p - x.low, p - x.low + n, b)
    && (p + n < high ==> x.all[p + n - x.low] != b)
  }

  /** The match between two runs of the same byte ends with the shorter of them. */
  lemma {:induction false} WorthOfRun(x: Text, g: Goal, b: byte, size: nat, p: nat, n: nat)
    requires GoalOk(x, g) && x.low <= p < g.ip && g.ip + size <= g.high && p + n <= g.high
    requires Run(x, b, g.ip, size, g.high) && Run(x, b, p, n, g.high)
    ensures n < size ==> Worth(x, g, p) <= n
    ensures n > size ==> Worth(x, g, p) <= size
    ensures x.Has(p) && MINMATCH <= n && MINMATCH <= size ==> Min(n, size) <= Worth(x, g, p)
  {
    hide CommonPrefix;
    RunsAgree(x.all, b, g.ip - x.low, size, p - x.low, n, g.high - g.ip);
  }

  lemma {:induction false} RunsAgree(s: bytes, b: byte, i: nat, m: nat, j: nat, n: nat, len: nat)
    requires i + len <= |s| && j < i && m <= len && j + n <= i + len
    requires AllBytes(s, i, i + m, b) && AllBytes(s, j, j + n, b)
    requires (m < len ==> s[i + m] != b) && (j + n < i + len ==> s[j + n] != b)
    ensures Min(m, n) <= CommonPrefix(s, i, s, j, len)
    ensures m != n ==> CommonPrefix(s, i, s, j, len) == Min(m, n)
  {
    hide CommonPrefix;
    var k := CommonPrefix(s, i, s, j, len);
    if k < m && k < n {
      assert false;
    }
    if n < k { RunAt(s, i, j, k, n); }
    if m < k { RunAt(s, i, j, k, m); }
  }

  lemma {:induction false} RunAt(s: bytes, i: nat, j: nat, k: nat, t: nat)
    requires i + k <= |s| && j <= i && t < k
    requires forall t :: i <= t < i + k ==> s[t] == s[t - i + j]
    ensures s[i + t] == s[j + t]
  {
    assert s[i + t] == s[i + t - i + j];
  }

  /** Of two candidates in a run the earlier one is worth no less, unless it overshoots what the source
      repeats and the later one does not. */
  lemma {:induction false} EarlierInRun(x: Text, g: Goal, b: byte, size: nat, j: nat, q: nat, end: nat)
    requires GoalOk(x, g) && x.low <= j <= q < g.ip && q <= end <= g.high && j + MINMATCH <= end
    requires MINMATCH <= size && g.ip + size <= g.high && Run(x, b, g.ip, size, g.high)
    requires Run(x, b, j, end - j, g.high) && x.Has(j)
    requires end - j <= size || size < end - q
    ensures Worth(x, g, q) <= Worth(x, g, j)
  {
    hide Worth;
    assert Run(x, b, q, end - q, g.high);
    WorthOfRun(x, g, b, size, j, end - j);
    WorthOfRun(x, g, b, size, q, end - q);
  }

  /** In a segment that falls short of the run of the source, or exceeds it from every candidate
      on, no candidate is worth more than the shorter of the two. */
  lemma {:induction false} ClaimInRun(x: Text, g: Goal, b: byte, size: nat, s: nat, q: nat, c: nat, end: nat)
    requires GoalOk(x, g) && x.low <= s <= q <= c < g.ip && c <= end <= g.high
    requires g.ip + size <= g.high && Run(x, b, g.ip, size, g.high) && Run(x, b, s, end - s, g.high)
    requires end - s < size || size < end - c
    ensures Worth(x, g, q) <= Min(end - s, size)
  {
    hide Worth;
    assert Run(x, b, q, end - q, g.high);
    WorthOfRun(x, g, b, size, q, end - q);
  }

  /** A candidate in the run of the byte that the source repeats has its hash. */
  lemma {:induction false} RunAlike(x: Text, g: Goal, b: byte, p: nat)
    requires GoalOk(x, g) && x.Has(p)
    requires AllBytes(x.all, g.ip - x.low, g.ip - x.low + 4, b) && AllBytes(x.all, p - x.low, p - x.low + 4, b)
    ensures Alike(x, g.ip, p)
  {
    hide HashPtr;
    SameHash(x.all, p - x.low, x.all, g.ip - x.low);
  }

  /** A jump from `i` to `j` over candidates worth no more than the one at `j`. */
  lemma {:induction false} JumpCourse(x: Text, g: Goal, i: nat, j: nat, visited: nat, longest: nat)
    requires GoalOk(x, g) && g.lowest <= j < i < g.ip && WeighedFrom(x, g, i, longest)
    requires OnChain(x, g, i, 0, visited, longest)
    requires forall q: nat :: j < q < i && g.from <= q ==> Worth(x, g, q) <= Worth(x, g, j)
    requires Alike(x, g.ip, j)
    ensures Course(x, g, j, visited + 1, longest) && OnChain(x, g, j, 0, visited + 1, longest)
  {
    hide HashPtr, Worth, Rank;
    var n := visited + 1;
    forall p: nat | g.from <= p < g.ip && j < p ensures Passed(x, g, p, j, n, longest) {
      if i <= p {
        assert Weighed(x, g, p, longest);
      } else if Worth(x, g, p) > 0 {
        assert x.Has(p) by { if !x.Has(p) { WorthNothing(x, g, p); } }
        assert Alike(x, g.ip, p) by { if x.Hash(p) != x.Hash(g.ip) { OtherHash(x, g, p, 0); } }
        RankGrows(x, g, p, i);
      }
    }
    RankGrows(x, g, j, i);
  }

  /** In a segment of the run: the jump to the candidate at `j`. */
  lemma {:induction false} JumpInSegment(x: Text, g: Goal, b: byte, size: nat, s: nat, c: nat, end: nat, j: nat,
                                         visited: nat, longest: nat)
    requires GoalOk(x, g) && x.low <= s <= j <= c && c + 1 < g.ip && c + MINMATCH <= end <= g.high
    requires g.lowest <= j && x.Has(j) && MINMATCH <= size && g.ip + size <= g.high
    requires Run(x, b, g.ip, size, g.high) && Run(x, b, s, end - s, g.high)
    requires end - j <= size || size < end - c
    requires WeighedFrom(x, g, c + 1, longest) && OnChain(x, g, c + 1, 0, visited, longest)
    ensures Course(x, g, j, visited + 1, longest) && OnChain(x, g, j, 0, visited + 1, longest)
  {
    hide Worth, OnChain, WeighedFrom, Course, Alike;
    assert Run(x, b, j, end - j, g.high);
    forall q: nat | j < q < c + 1 && g.from <= q ensures Worth(x, g, q) <= Worth(x, g, j) {
      EarlierInRun(x, g, b, size, j, q, end);
    }
    RunAlike(x, g, b, j);
    JumpCourse(x, g, c + 1, j, visited, longest);
  }

  /** The length that a segment guarantees without a comparison weighs all of it. */
  lemma {:induction false} ClaimSegment(x: Text, g: Goal, b: byte, size: nat, s: nat, c: nat, end: nat, visited: nat,
                                        longest: nat, longest': nat)
    requires GoalOk(x, g) && g.lowest <= s <= c && c + 1 < g.ip && c + MINMATCH <= end <= g.high
    requires x.Has(s) && MINMATCH <= size && g.ip + size <= g.high
    requires Run(x, b, g.ip, size, g.high) && Run(x, b, s, end - s, g.high)
    requires end - s < size || size < end - c
    requires longest <= longest' && Min(end - s, size) <= longest'
    requires WeighedFrom(x, g, c + 1, longest) && OnChain(x, g, c + 1, 0, visited, longest)
    ensures WeighedFrom(x, g, s, longest') && OnChain(x, g, s, 0, visited, longest')
  {
    hide Worth, HashPtr, Rank;
    forall q: nat | g.from <= q < g.ip && s <= q ensures Weighed(x, g, q, longest') {
      if q <= c {
        ClaimInRun(x, g, b, size, s, q, c, end);
      } else {
        assert Weighed(x, g, q, longest);
      }
    }
    RunAlike(x, g, b, s);
    RankGrows(x, g, s, c + 1);
  }

  /** The chain followed from `i`, known or not. */
  lemma {:induction false} FollowAny(x: Text, g: Goal, c: seq<nat>, i: nat, pos: nat, visited: nat, longest: nat)
    requires GoalOk(x, g) && Linked(x, c, g.from, g.ip) && i < g.ip
    requires OnChain(x, g, i, pos, visited, longest) && WeighedFrom(x, g, i, longest)
    ensures var delta := c[(i + pos) % CHAIN_SIZE];
      && Course(x, g, i - delta, visited + 1, longest)
      && OnChain(x, g, i - delta, pos, visited + 1, longest)
      && (i < delta ==> WeighedFrom(x, g, 0, longest))
  {
    hide Course, WeighedFrom, Linked;
    var delta := c[(i + pos) % CHAIN_SIZE] by { LinkedSize(x, c, g.from, g.ip); }
    if g.from <= i {
      Follow(x, g, c, i, pos, visited, longest);
      if i < delta { WeighedMore(x, g, i - delta + 1, 0, longest, longest); }
    } else {
      WeighedMore(x, g, i, 0, longest, longest);
      WeighedMore(x, g, i, i - delta + 1, longest, longest);
      CourseWeighed(x, g, i - delta, visited + 1, longest);
    }
  }

  lemma LinkedSize(x: Text, c: seq<nat>, lo: nat, next: nat)
    requires Linked(x, c, lo, next)
    ensures |c| == CHAIN_SIZE
  {
  }

  /** The first candidate: all later positions have another hash. */
  lemma {:induction false} StartCourse(x: Text, g: Goal, t: seq<nat>, longest: nat)
    requires GoalOk(x, g) && Tabled(x, t, g.from, g.ip) && t[x.Hash(g.ip)] < g.ip
    ensures var i := t[x.Hash(g.ip)];
      Course(x, g, i, 0, longest) && OnChain(x, g, i, 0, 0, longest)
  {
    hide HashPtr, Worth, Rank;
    var i: nat := t[x.Hash(g.ip)];
    forall p: nat | g.from <= p < g.ip && i + 1 <= p ensures Weighed(x, g, p, longest) {
      if x.Has(p) {
        assert Spot(x, g.from, g.ip, p);
        OtherHash(x, g, p, 0);
      } else {
        WorthNothing(x, g, p);
      }
    }
    CourseWeighed(x, g, i, 0, longest);
    if g.from <= i {
      assert Spot(x, g.from, g.ip, i);
      RankGrows(x, g, i, g.ip);
    }
  }

  /** What a search with `attempts` attempts looks at: all positions with the hash, nearest first; when it
      changes chains, at least as many positions as it has attempts. */
  ghost predicate Looked(x: Text, g: Goal, attempts: nat, longest: nat)
    requires GoalOk(x, g)
  {
    forall p: nat :: g.from <= p < g.ip && Rank(x, g, p) <= attempts ==> Weighed(x, g, p, longest)
  }

  lemma {:induction false} EndOfCourse(x: Text, g: Goal, i: int, pos: nat, visited: nat, attempts: nat, longest: nat)
    requires GoalOk(x, g) && i < g.ip && (i < g.lowest || visited == attempts)
    requires Course(x, g, i, visited, longest) && OnChain(x, g, i, pos, visited, longest)
    ensures Looked(x, g, attempts, longest)
  {
    hide HashPtr, Worth, Rank;
    forall p: nat | g.from <= p < g.ip && Rank(x, g, p) <= attempts ensures Weighed(x, g, p, longest) {
      if i < p {
        assert Passed(x, g, p, i, visited, longest);
      } else {
        RankGrows(x, g, p, i);
        assert false;
      }
    }
  }

  lemma {:induction false} AllLooked(x: Text, g: Goal, attempts: nat, longest: nat)
    requires GoalOk(x, g) && WeighedFrom(x, g, 0, longest)
    ensures Looked(x, g, attempts, longest)
  {
    hide Worth, Rank;
    forall p: nat | g.from <= p < g.ip && Rank(x, g, p) <= attempts ensures Weighed(x, g, p, longest) {
      assert Weighed(x, g, p, longest);
    }
  }

  // ----- Another view of the same positions -----

  /** The two texts have the same known positions, with the same hashes. */
  ghost predicate SameSpots(x: Text, x': Text, lo: nat, next: nat, next': nat) {
    && next <= next'
    && (forall p: nat :: Spot(x', lo, next', p) ==> Spot(x, lo, next, p))
    && (forall p: nat :: Spot(x, lo, next, p) ==> x'.Has(p) && x'.Hash(p) == x.Hash(p))
  }

  lemma {:induction false} SameTables(x: Text, x': Text, t: seq<nat>, c: seq<nat>, lo: nat, next: nat, next': nat)
    requires Tabled(x, t, lo, next) && Linked(x, c, lo, next) && SameSpots(x, x', lo, next, next')
    ensures Tabled(x', t, lo, next') && Linked(x', c, lo, next')
  {
    hide HashPtr;
    forall p: nat | Spot(x', lo, next', p) ensures p <= t[x'.Hash(p)] {
      assert Spot(x, lo, next, p);
    }
    forall k | 0 <= k < HASH_SIZE && lo <= t[k] ensures Spot(x', lo, next', t[k]) && x'.Hash(t[k]) == k {
      assert Spot(x, lo, next, t[k]);
    }
    forall i: nat | Spot(x', lo, next', i) && next' <= i + CHAIN_SIZE ensures Link(x', lo, i, c[i % CHAIN_SIZE]) {
      assert Spot(x, lo, next, i);
      SameLink(x, x', lo, next, next', i, c[i % CHAIN_SIZE]);
    }
  }

  lemma {:induction false} SameLink(x: Text, x': Text, lo: nat, next: nat, next': nat, i: nat, delta: nat)
    requires SameSpots(x, x', lo, next, next') && Spot(x, lo, next, i) && Link(x, lo, i, delta)
    requires Spot(x', lo, next', i)
    ensures Link(x', lo, i, delta)
  {
    hide HashPtr;
    forall p: nat | Spot(x', lo, i, p) && i - delta < p ensures x'.Hash(p) != x'.Hash(i) {
      assert Spot(x', lo, next', p);
      assert Spot(x, lo, i, p);
    }
    if lo <= i - delta && delta < DISTANCE_MAX {
      var p: nat := i - delta;
      assert Spot(x, lo, next, p);
    }
  }

  lemma {:induction false} WorthNothing(x: Text, g: Goal, p: nat)
    requires x.low <= p < g.ip <= g.high <= x.low + |x.all| && !x.Has(p)
    ensures Worth(x, g, p) == 0
  {
  }
}
