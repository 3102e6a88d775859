/**
  The hash-chain match finder of lz4hc.c: insertion, chain search with look-back, chain swapping
  and pattern analysis, over an external dictionary and a prefix. Whatever the tables hold, a
  match it reports is a true match.
*/
module HcMatchFinder {
  import opened Bytes
  import opened BlockFormat
  import opened CommonBytes
  import opened HcChains
  import opened HcPattern

  const U32_SIZE := 0x1_0000_0000

  /** A match found so far: `refp` and `start` are positions relative to the start of the prefix,
      the former negative when the match starts in the external dictionary. */
  datatype Best = Best(longest: nat, refp: int, start: nat)

  /** In `all`, external dictionary of `d` bytes followed by the prefix, the `len` bytes at prefix
      position `start` repeat those at `refp`. */
  ghost predicate GoodMatch(all: bytes, d: nat, start: nat, refp: int, len: nat) {
    && 1 <= start - refp <= DISTANCE_MAX
    && 0 <= d + refp
    && d + start + len <= |all|
    && forall t :: d + start <= t < d + start + len ==> all[t] == all[t - (start - refp)]
  }

  /** What one call may search: around `ip`, not before `iLow`, not past `iHigh`. */
  datatype Range = Range(ip: nat, iLow: nat, iHigh: nat)

  ghost predicate BestOk(all: bytes, d: nat, r: Range, longest0: nat, b: Best) {
    && longest0 <= b.longest
    && (longest0 < b.longest ==>
          && MINMATCH <= b.longest
          && r.iLow <= b.start <= r.ip
          && b.start + b.longest <= r.iHigh
          && GoodMatch(all, d, b.start, b.refp, b.longest)
          && Ends(all, d + b.start + b.longest, d + r.iHigh, b.start - b.refp))
  }

  /** The match at that distance cannot go on at `at`. */
  ghost predicate Ends(all: bytes, at: int, high: int, distance: int) {
    at == high || (0 <= at - distance && 0 <= at < |all| && 0 <= distance && all[at] != all[at - distance])
  }

  lemma {:induction false} AgreeingEnds(all: bytes, i: nat, j: nat, len: nat)
    requires i + len <= |all| && j <= i
    ensures Ends(all, i + Agreeing(all, i, all, j, len), i + len, i - j)
  {
    hide CommonPrefix;
  }

  lemma {:induction false} PrefixEnds(dict: bytes, prefix: bytes, i: nat, j: nat, len: nat)
    requires i + len <= |prefix| && j <= i
    ensures Ends(dict + prefix, |dict| + i + Agreeing(prefix, i, prefix, j, len), |dict| + i + len, i - j)
  {
    hide CommonPrefix, Agreeing, Ends;
    CommonPrefixShift(dict, prefix, i, j, len);
    AgreeingEnds(dict + prefix, |dict| + i, |dict| + j, len);
  }

  /** LZ4HC_protectDictEnd, in 32-bit arithmetic: four bytes may be read at index `i`. */
  predicate ProtectDictEnd(dictLimit: nat, i: nat) {
    (dictLimit - 1 - i) % U32_SIZE >= 3
  }

  lemma ProtectMeaning(dictLimit: nat, i: nat)
    requires 65536 <= dictLimit < U32_SIZE && i < U32_SIZE
    ensures ProtectDictEnd(dictLimit, i) <==> (dictLimit <= i || i + 4 <= dictLimit)
  {
    if dictLimit <= i {
      assert (dictLimit - 1 - i) % U32_SIZE == dictLimit - 1 - i + U32_SIZE;
    }
  }

  /** Where the search goes on: nowhere, at another index, or along the current chain. */
  datatype Move = Stop | Next(index: nat) | Chain

  datatype RepeatState = Untested | NotRepeated | Repeated(srcPatternLength: nat)

  // ----- What a candidate is worth -----

  /** The comparisons with a candidate in the prefix: four bytes, then as far as they agree. */
  lemma {:induction false} WorthInPrefix(dict: bytes, prefix: bytes, g: Goal, low: nat, ip: nat, iHigh: nat, m: nat)
    requires ip + MINMATCH <= iHigh <= |prefix| && m < ip
    requires g.ip == low + |dict| + ip && g.high == low + |dict| + iHigh
    ensures Worth(Text(dict + prefix, low, |dict|), g, low + |dict| + m)
      == if SameWord(prefix, ip, prefix, m, 4)
         then MINMATCH + Agreeing(prefix, ip + MINMATCH, prefix, m + MINMATCH, iHigh - ip - MINMATCH) else 0
  {
    hide CommonPrefix, Agreeing, SameWord, Worth;
    WorthIs(Text(dict + prefix, low, |dict|), g, |dict| + ip, |dict| + m, iHigh - ip);
    CommonPrefixShift(dict, prefix, ip, m, iHigh - ip);
    FourAndMore(prefix, ip, prefix, m, iHigh - ip);
  }

  lemma {:induction false} WorthIs(x: Text, g: Goal, a: nat, c: nat, len: nat)
    requires g.ip == x.low + a && g.high == x.low + a + len && c < a && a + len <= |x.all|
    ensures Worth(x, g, x.low + c) == var n := Agreeing(x.all, a, x.all, c, len);
      if x.Has(x.low + c) && MINMATCH <= n then n else 0
  {
    hide CommonPrefix, Agreeing;
  }

  lemma {:induction false} CommonPrefixShift(dict: bytes, prefix: bytes, i: nat, j: nat, len: nat)
    requires i + len <= |prefix| && j <= i
    ensures Agreeing(dict + prefix, |dict| + i, dict + prefix, |dict| + j, len) == Agreeing(prefix, i, prefix, j, len)
  {
    hide CommonPrefix;
    var n := CommonPrefix(prefix, i, prefix, j, len);
    forall t | i <= t < i + n ensures prefix[t] == prefix[t - (i - j)] {
      assert prefix[t] == prefix[t - i + j];
    }
    InPrefix(dict, prefix, i, i + n, i - j);
    CommonPrefixUnique(dict + prefix, |dict| + i, dict + prefix, |dict| + j, len, n);
  }

  /** The common prefix is at least four bytes exactly when the first word agrees. */
  lemma {:induction false} FourAndMore(a: bytes, i: nat, b: bytes, j: nat, len: nat)
    requires MINMATCH <= len && i + len <= |a| && j + len <= |b|
    ensures Agreeing(a, i, b, j, len) < MINMATCH <==> !SameWord(a, i, b, j, 4)
    ensures SameWord(a, i, b, j, 4) ==>
      Agreeing(a, i, b, j, len) == MINMATCH + Agreeing(a, i + MINMATCH, b, j + MINMATCH, len - MINMATCH)
  {
    hide CommonPrefix, SameWord;
    CompareWord(a, i, b, j, len, 4);
  }

  /** The comparison of two bytes that comes first only drops candidates that are no longer. */
  lemma {:induction false} TailDiffers(prefix: bytes, r: Range, m: nat, longest: nat)
    requires r.iLow <= r.ip && r.ip + MINMATCH <= r.iHigh && r.iHigh < |prefix| && m < r.ip
    requires r.ip - r.iLow < longest && r.iLow + longest <= r.iHigh
    requires !SameWord(prefix, r.iLow + (longest - 1), prefix, m - (r.ip - r.iLow) + (longest - 1), 2)
    requires SameWord(prefix, r.ip, prefix, m, 4)
    ensures MINMATCH + Agreeing(prefix, r.ip + MINMATCH, prefix, m + MINMATCH, r.iHigh - r.ip - MINMATCH) <= longest
  {
    hide CommonPrefix, Agreeing, SameWord;
    FourAndMore(prefix, r.ip, prefix, m, r.iHigh - r.ip);
    var n := Agreeing(prefix, r.ip, prefix, m, r.iHigh - r.ip);
    var t: nat := longest - 1 - (r.ip - r.iLow);
    assert r.iLow + (longest - 1) == r.ip + t && m - (r.ip - r.iLow) + (longest - 1) == m + t;
    if n > longest { TailAgrees(prefix, r.ip, m, n, t, r.iHigh - r.ip); }
  }

  lemma {:induction false} TailAgrees(s: bytes, i: nat, j: nat, n: nat, t: nat, len: nat)
    requires i + len <= |s| && j < i && n == Agreeing(s, i, s, j, len) && t + 2 <= n
    ensures SameWord(s, i + t, s, j + t, 2)
  {
    hide CommonPrefix;
    RunAt(s, i, j, n, t);
    RunAt(s, i, j, n, t + 1);
    assert s[i + t..i + t + 2] == s[j + t..j + t + 2];
  }

  class HcContext {
    const hashTable: array<nat>  // U32
    const chainTable: array<nat> // U16
    var dict: bytes              // dictStart, up to dictEnd
    var prefix: bytes            // prefixStart, up to end
    var lowLimit: nat            // index of dictStart
    var dictLimit: nat           // index of prefixStart
    var nextToUpdate: nat
    ghost var since: nat         // from here on the tables speak of what dictionary and prefix hold

    ghost predicate Valid()
      reads this, hashTable, chainTable
    {
      && hashTable.Length == HASH_SIZE && chainTable.Length == CHAIN_SIZE && hashTable != chainTable
      && 65536 <= lowLimit && lowLimit + |dict| == dictLimit <= nextToUpdate <= dictLimit + |prefix| < U32_SIZE
      && (forall i :: 0 <= i < HASH_SIZE ==> hashTable[i] < nextToUpdate)
      && (forall i :: 0 <= i < CHAIN_SIZE ==> chainTable[i] < 65536)
      && Chained()
    }

    /** Dictionary and prefix with their indices. */
    ghost function View(): Text
      reads this
    {
      Text(dict + prefix, lowLimit, |dict|)
    }

    /** From `since` on the tables hold all positions of dictionary and prefix that have been passed. */
    ghost predicate Chained()
      reads this, hashTable, chainTable
    {
      && (nextToUpdate == dictLimit || nextToUpdate + 3 <= dictLimit + |prefix|)
      && Tabled(View(), hashTable[..], since, nextToUpdate)
      && Linked(View(), chainTable[..], since, nextToUpdate)
    }

    /** External dictionary and prefix as one string; index `i` of the tables is `All()[i - lowLimit]`. */
    ghost function All(): bytes
      reads this
    {
      dict + prefix
    }

    /** LZ4HC_init_internal for a context never used before, all zero. */
    constructor (prefix: bytes)
      requires 65536 + |prefix| < U32_SIZE
      ensures Valid() && fresh(hashTable) && fresh(chainTable)
      ensures this.prefix == prefix && dict == [] && nextToUpdate == dictLimit
      ensures forall i :: 0 <= i < HASH_SIZE ==> hashTable[i] == 0
    {
      hashTable := new nat[HASH_SIZE](_ => 0);
      chainTable := new nat[CHAIN_SIZE](_ => 0);
      dict := [];
      this.prefix := prefix;
      lowLimit, dictLimit, nextToUpdate, since := 65536, 65536, 65536, 65536;
      new;
      NothingKnown(View(), hashTable[..], chainTable[..], lowLimit, lowLimit);
    }

    /** The prefix grows by the next block to compress. */
    method Extend(src: bytes)
      requires Valid() && dictLimit + |prefix| + |src| < U32_SIZE
      modifies this`prefix
      ensures Valid() && prefix == old(prefix) + src
    {
      hide Tabled, Linked, SameSpots;
      ExtendSpots(dict, prefix, src, lowLimit, since, nextToUpdate);
      SameTables(View(), Text(dict + (prefix + src), lowLimit, |dict|), hashTable[..], chainTable[..], since,
                 nextToUpdate, nextToUpdate);
      prefix := prefix + src;
    }

    /** LZ4HC_setExternalDict: the prefix becomes the external dictionary of a new, empty prefix. */
    method SetExternalDict()
      requires Valid()
      modifies this, hashTable, chainTable
      ensures Valid()
      ensures dict == old(prefix) && prefix == [] && nextToUpdate == dictLimit
      ensures dictLimit == old(dictLimit + |prefix|) && since == Max(old(since), lowLimit)
    {
      hide Tabled, Linked, SameSpots;
      InsertRest();
      ghost var lo := Max(since, dictLimit);
      DictSpots(dict, prefix, lowLimit, lo, nextToUpdate);
      KnownFrom(View(), hashTable[..], chainTable[..], since, nextToUpdate, lo);
      SameTables(View(), Text(prefix, dictLimit, |prefix|), hashTable[..], chainTable[..], lo,
                 nextToUpdate, dictLimit + |prefix|);
      since := lo;
      lowLimit, dict, dictLimit, prefix, nextToUpdate
        := dictLimit, prefix, dictLimit + |prefix|, [], dictLimit + |prefix|;
      assert View() == Text(dict, lowLimit, |dict|) by { assert dict + prefix == dict; }
    }

    /** Dictionary and prefix have other contents now. */
    method Replace(d: bytes, p: bytes)
      requires Valid() && |d| == |dict| && |p| == |prefix|
      modifies this`dict, this`prefix, this`since
      ensures Valid() && dict == d && prefix == p
      ensures d == old(dict) && p == old(prefix) ==> since == old(since)
    {
      hide Tabled, Linked, SameSpots, HashPtr;
      ghost var k := KeptFrom(All(), d + p);
      ghost var lo := Max(since, lowLimit + k);
      KeptSpots(All(), d + p, lowLimit, |dict|, k, lo, nextToUpdate);
      KnownFrom(View(), hashTable[..], chainTable[..], since, nextToUpdate, lo);
      SameTables(View(), Text(d + p, lowLimit, |dict|), hashTable[..], chainTable[..], lo, nextToUpdate, nextToUpdate);
      since := if d == dict && p == prefix then since else lo;
      dict, prefix := d, p;
    }

    /** The external dictionary without its first `cut` bytes. */
    method DropFront(cut: nat)
      requires Valid() && cut <= |dict|
      modifies this`dict, this`lowLimit, this`since
      ensures Valid() && dict == old(dict[cut..]) && since == Max(old(since), lowLimit)
      ensures lowLimit == old(lowLimit) + cut
    {
      hide Tabled, Linked, SameSpots, HashPtr;
      Forget(cut, nextToUpdate);
      assert All()[cut..] == dict[cut..] + prefix;
      lowLimit, since, dict := lowLimit + cut, Max(since, lowLimit + cut), dict[cut..];
    }

    /** Only the last `n` bytes of the prefix, which ends before index `end`. */
    method KeepEnd(end: nat, n: nat)
      requires Valid() && n <= |prefix| && end == dictLimit + |prefix|
      modifies this`dict, this`prefix, this`lowLimit, this`dictLimit, this`nextToUpdate, this`since
      ensures Valid() && dict == [] && prefix == old(prefix[|prefix| - n..])
      ensures dictLimit == lowLimit == end - n && since == Max(old(since), lowLimit)
    {
      hide Tabled, Linked, HashPtr;
      EndKnown(n);
      var next := if nextToUpdate < end - n then end - n else nextToUpdate;
      prefix, dict, dictLimit, lowLimit, nextToUpdate, since
        := prefix[|prefix| - n..], [], end - n, end - n, next, Max(since, end - n);
    }

    /** The tables do as well for the end of the prefix alone. */
    lemma EndKnown(n: nat)
      requires Valid() && n <= |prefix|
      ensures var at := dictLimit + |prefix| - n;
        var x, lo, next := Text([] + prefix[|prefix| - n..], at, 0), Max(since, at), Max(nextToUpdate, at);
        Tabled(x, hashTable[..], lo, next) && Linked(x, chainTable[..], lo, next)
    {
      hide Tabled, Linked, SameSpots, HashPtr;
      var cut, at := |dict| + |prefix| - n, dictLimit + |prefix| - n;
      Forget(cut, nextToUpdate);
      assert All()[cut..] == [] + prefix[|prefix| - n..];
      if nextToUpdate < at {
        NothingKnown(Text([] + prefix[|prefix| - n..], at, 0), hashTable[..], chainTable[..], Max(since, at), at);
      }
    }

    /** The tables do as well for what is left without the first `cut` bytes. */
    lemma Forget(cut: nat, next: nat)
      requires Valid() && cut <= |dict| + |prefix| && next == nextToUpdate
      ensures var x, lo := Text(All()[cut..], lowLimit + cut, Max(|dict| - cut, 0)), Max(since, lowLimit + cut);
        Tabled(x, hashTable[..], lo, next) && Linked(x, chainTable[..], lo, next)
    {
      hide Tabled, Linked, SameSpots;
      var x, lo := Text(All()[cut..], lowLimit + cut, Max(|dict| - cut, 0)), Max(since, lowLimit + cut);
      CutSpots(All(), lowLimit, |dict|, cut, lo, next);
      KnownFrom(View(), hashTable[..], chainTable[..], since, next, lo);
      SameTables(View(), x, hashTable[..], chainTable[..], lo, next, next);
    }

    /** Referencing remaining dictionary content. */
    method InsertRest()
      requires Valid()
      modifies this`nextToUpdate, hashTable, chainTable
      ensures Valid() && (|prefix| < 4 || dictLimit + |prefix| <= nextToUpdate + 3)
    {
      hide Tabled, Linked;
      if |prefix| >= 4 && nextToUpdate <= dictLimit + |prefix| - 3 {
        Insert(|prefix| - 3);
      }
    }

    /** LZ4HC_Insert: updates the chains up to `ip`, excluded. */
    method Insert(ip: nat)
      requires Valid() && ip + 3 <= |prefix| && nextToUpdate <= dictLimit + ip
      modifies this`nextToUpdate, hashTable, chainTable
      ensures Valid() && nextToUpdate == dictLimit + ip
    {
      hide HashPtr, Tabled, Linked;
      var target := dictLimit + ip;
      var idx := nextToUpdate;
      while idx < target
        invariant nextToUpdate <= idx <= target
        invariant forall i :: 0 <= i < HASH_SIZE ==> hashTable[i] < idx || hashTable[i] < nextToUpdate
        invariant forall i :: 0 <= i < CHAIN_SIZE ==> chainTable[i] < 65536
        invariant Tabled(View(), hashTable[..], since, idx) && Linked(View(), chainTable[..], since, idx)
      {
        var h := HashPtr(prefix, idx - dictLimit);
        var delta := idx - hashTable[h];
        if delta > DISTANCE_MAX { delta := DISTANCE_MAX; }
        InsertOne(View(), hashTable[..], chainTable[..], prefix, since, idx);
        ghost var t, c := hashTable[..], chainTable[..];
        chainTable[idx % CHAIN_SIZE] := delta;
        hashTable[h] := idx;
        assert hashTable[..] == t[h := idx as nat] && chainTable[..] == c[idx % CHAIN_SIZE := delta as nat];
        idx := idx + 1;
      }
      nextToUpdate := target;
    }

    /** The distance to the previous position in the chain of index `i`. */
    function Delta(i: nat): (d: nat)
      requires chainTable.Length == CHAIN_SIZE
      reads this, chainTable
    {
      chainTable[i % CHAIN_SIZE]
    }

    // ----- Candidates -----

    /** The bounds within which a call to the search works. */
    ghost predicate RangeOk(r: Range)
      reads this
    {
      && r.iLow <= r.ip && r.ip + MINMATCH <= r.iHigh && r.iHigh + 1 <= |prefix|
    }

    /** Index `i` is one the search may look at from `r.ip`. */
    ghost predicate Candidate(r: Range, i: int)
      reads this
    {
      lowLimit <= i < dictLimit + r.ip && dictLimit + r.ip - i <= DISTANCE_MAX
    }

    /** What is looked for: all that is known within reach; where chains are changed, in the prefix only. */
    ghost function Sought(r: Range, fav: bool, swap: bool): Goal
      reads this
    {
      var lowest := Max(lowLimit, dictLimit + r.ip - DISTANCE_MAX);
      Goal(dictLimit + r.ip, dictLimit + r.iHigh, lowest, Max(lowest, if swap then Max(since, dictLimit) else since),
        fav,
           swap)
    }

    /** The search for `g` goes on, its tables complete. */
    ghost predicate Searching(r: Range, g: Goal)
      reads this, chainTable
    {
      && RangeOk(r) && GoalOk(View(), g) && g.ip == dictLimit + r.ip && g.high == dictLimit + r.iHigh
      && Linked(View(), chainTable[..], g.from, g.ip)
    }

    /** After a move from a candidate that was the attempt number `visited` everything passed over is done with. */
    ghost predicate Moved(g: Goal, move: Move, chainPos: nat, visited: nat, longest: nat)
      requires GoalOk(View(), g)
      reads this
    {
      match move
      case Stop => WeighedFrom(View(), g, 0, longest)
      case Next(j) => Course(View(), g, j, visited + 1, longest)
        && OnChain(View(), g, j, chainPos, visited + 1, longest)
      case Chain => true
    }

    /** A candidate within the current prefix. */
    method TryPrefix(r: Range, i: nat, best: Best, ghost longest0: nat, ghost g: Goal)
      returns (matchLength: nat, b: Best)
      requires Valid() && RangeOk(r) && Candidate(r, i) && dictLimit <= i
      requires g.ip == dictLimit + r.ip && g.high == dictLimit + r.iHigh
      requires r.ip - r.iLow < best.longest && r.iLow + best.longest <= r.iHigh
      requires BestOk(All(), |dict|, r, longest0, best)
      ensures BestOk(All(), |dict|, r, longest0, b) && best.longest <= b.longest && r.iLow + b.longest <= r.iHigh
      ensures matchLength <= b.longest && Worth(View(), g, i) <= b.longest
      ensures r.iLow == r.ip && matchLength > 0 ==> matchLength == Worth(View(), g, i)
    {
      hide CommonPrefix, Agreeing, SameWord, GoodMatch, Ends, Valid, Worth;
      Placed();
      matchLength, b := 0, best;
      var m := i - dictLimit;
      var tail := best.longest - 1;
      WorthInPrefix(dict, prefix, g, lowLimit, r.ip, r.iHigh, m);
      if SameWord(prefix, r.iLow + tail, prefix, m - (r.ip - r.iLow) + tail, 2)
        && SameWord(prefix, r.ip, prefix, m, 4) {
        matchLength, b := MeasurePrefix(r, m, best, longest0);
      } else if SameWord(prefix, r.ip, prefix, m, 4) {
        TailDiffers(prefix, r, m, best.longest);
      }
    }

    lemma Placed()
      requires Valid()
      ensures lowLimit + |dict| == dictLimit
    {
    }

    /** Length and start of a match in the prefix, backwards and forwards. */
    method MeasurePrefix(r: Range, m: nat, best: Best, ghost longest0: nat) returns (matchLength: nat, b: Best)
      requires RangeOk(r) && m < r.ip && r.ip - m <= DISTANCE_MAX
      requires SameWord(prefix, r.ip, prefix, m, 4)
      requires r.iLow + best.longest <= r.iHigh
      requires BestOk(All(), |dict|, r, longest0, best)
      ensures BestOk(All(), |dict|, r, longest0, b) && best.longest <= b.longest && r.iLow + b.longest <= r.iHigh
      ensures matchLength <= b.longest
      ensures var n := MINMATCH + Agreeing(prefix, r.ip + MINMATCH, prefix, m + MINMATCH, r.iHigh - r.ip - MINMATCH);
        n <= b.longest && (r.iLow == r.ip ==> matchLength == n)
    {
      hide CommonPrefix, Agreeing, SameWord, GoodMatch, Ends, BestOk;
      b := best;
      var back: nat := 0;
      if r.ip > r.iLow {
        back := CountBack(prefix, r.ip, prefix, m, r.iLow, 0);
      }
      var n := CountSame(prefix, r.ip + MINMATCH, prefix, m + MINMATCH, r.iHigh);
      matchLength := MINMATCH + n + back;
      if matchLength > best.longest {
        b := Best(matchLength, m - back, r.ip - back);
        PrefixBest(r, m, n, back, best, longest0);
      }
    }

    lemma PrefixBest(r: Range, m: nat, n: nat, back: nat, best: Best, longest0: nat)
      requires RangeOk(r) && m < r.ip && r.ip - m <= DISTANCE_MAX && back <= m && back <= r.ip - r.iLow
      requires SameWord(prefix, r.ip, prefix, m, 4) && BestOk(All(), |dict|, r, longest0, best)
      requires n == Agreeing(prefix, r.ip + MINMATCH, prefix, m + MINMATCH, r.iHigh - r.ip - MINMATCH)
      requires r.ip + MINMATCH + n <= r.iHigh && best.longest < MINMATCH + n + back
      requires forall t :: r.ip + MINMATCH <= t < r.ip + MINMATCH + n ==>
        prefix[t] == prefix[t - (r.ip + MINMATCH) + (m + MINMATCH)]
      requires forall t :: r.ip - back <= t < r.ip ==> prefix[t] == prefix[t - r.ip + m]
      ensures BestOk(All(), |dict|, r, longest0, Best(MINMATCH + n + back, m - back, r.ip - back))
    {
      hide CommonPrefix, Agreeing, SameWord, GoodMatch, Ends;
      PrefixMatch(dict, prefix, r.ip, m, n, back);
      PrefixEnds(dict, prefix, r.ip + MINMATCH, m + MINMATCH, r.iHigh - r.ip - MINMATCH);
    }

    /** A candidate within the external dictionary; the match may run on into the prefix. */
    method TryDict(r: Range, i: nat, best: Best, ghost longest0: nat, ghost g: Goal)
      returns (matchLength: nat, b: Best)
      requires Valid() && RangeOk(r) && Candidate(r, i) && i < dictLimit
      requires g.ip == dictLimit + r.ip && g.high == dictLimit + r.iHigh
      requires r.iLow + best.longest <= r.iHigh
      requires BestOk(All(), |dict|, r, longest0, best)
      ensures BestOk(All(), |dict|, r, longest0, b) && best.longest <= b.longest && r.iLow + b.longest <= r.iHigh
      ensures matchLength <= b.longest && Worth(View(), g, i) <= b.longest
      ensures r.iLow == r.ip && matchLength > 0 ==> matchLength == Worth(View(), g, i)
    {
      hide CommonPrefix, Agreeing, SameWord, GoodMatch, Ends, Worth;
      matchLength, b := 0, best;
      var m := i - lowLimit;
      WorthInDict(dict, prefix, g, lowLimit, r.ip, r.iHigh, m);
      if i <= dictLimit - 4 && SameWord(prefix, r.ip, dict, m, 4) {
        var n, more := CountFromDict(r, m);
        var back: nat := 0;
        if r.ip > r.iLow {
          back := CountBack(prefix, r.ip, dict, m, r.iLow, 0);
        }
        matchLength := MINMATCH + n + more + back;
        if matchLength > best.longest {
          b := Best(matchLength, m - |dict| - back, r.ip - back);
          DictMatch(dict, prefix, r.ip, m, n, more, back);
          AgreeingEnds(All(), |dict| + r.ip + MINMATCH, m + MINMATCH, r.iHigh - r.ip - MINMATCH);
        }
      }
    }

    lemma RangeMeans(r: Range)
      requires RangeOk(r)
      ensures r.ip + MINMATCH <= r.iHigh <= |prefix|
    {
    }

    /** Forward lengths of a match in the dictionary: within it, then in the prefix. */
    method CountFromDict(r: Range, m: nat) returns (n: nat, more: nat)
      requires RangeOk(r) && m + MINMATCH <= |dict|
      ensures m + MINMATCH + n <= |dict| && r.ip + MINMATCH + n + more <= r.iHigh
      ensures more > 0 ==> m + MINMATCH + n == |dict|
      ensures forall t :: r.ip + MINMATCH <= t < r.ip + MINMATCH + n ==>
        prefix[t] == dict[t - (r.ip + MINMATCH) + (m + MINMATCH)]
      ensures forall t :: r.ip + MINMATCH + n <= t < r.ip + MINMATCH + n + more ==>
        prefix[t] == prefix[t - (r.ip + MINMATCH + n) + 0]
      ensures n + more
        == Agreeing(All(), |dict| + r.ip + MINMATCH, All(), m + MINMATCH, r.iHigh - r.ip - MINMATCH)
    {
      hide CommonPrefix, Agreeing, RangeOk;
      RangeMeans(r);
      var vLimit := r.ip + (|dict| - m);
      if vLimit > r.iHigh { vLimit := r.iHigh; }
      more := 0;
      n := CountSame(prefix, r.ip + MINMATCH, dict, m + MINMATCH, vLimit);
      if r.ip + MINMATCH + n == vLimit && vLimit < r.iHigh {
        more := CountSame(prefix, vLimit, prefix, 0, r.iHigh);
      }
      AcrossCount(dict, prefix, r.ip, r.iHigh, m, n, more);
    }

    // ----- Chain swapping -----

    /** After a match of the best length: the position within it whose chain reaches back furthest. A longer
        match has to lie on that chain too. */
    method ChainSwap(r: Range, i: nat, longest: nat, chainPos0: nat, ghost g: Goal, ghost visited: nat)
      returns (move: Move, matchChainPos: nat)
      requires Valid() && Candidate(r, i) && Searching(r, g) && g.swap && longest <= r.iHigh - r.ip
      requires Worth(View(), g, i) == longest && WeighedFrom(View(), g, i, longest)
      requires OnChain(View(), g, i, chainPos0, visited, longest)
      ensures move.Stop? || move.Chain? || (move.Next? && move.index < i)
      ensures Moved(g, move, matchChainPos, visited, longest) && (move.Chain? ==> matchChainPos == chainPos0)
    {
      hide Worth, WeighedFrom, OnChain, Course, GoalOk, Linked;
      move, matchChainPos := Chain, chainPos0;
      if i + longest <= dictLimit + r.ip {
        var kTrigger := 16;
        var distanceToNextMatch, end, step, accel, pos := 1, longest - MINMATCH + 1, 1, kTrigger, 0;
        while pos < end
          invariant distanceToNextMatch >= 1 && step >= 1 && accel >= kTrigger && pos >= 0
          invariant if distanceToNextMatch == 1 then matchChainPos == chainPos0
                    else matchChainPos < end && distanceToNextMatch == Delta(i + matchChainPos)
        {
          var candidateDist := Delta(i + pos);
          step := accel / 16;
          accel := accel + 1;
          if candidateDist > distanceToNextMatch {
            distanceToNextMatch := candidateDist;
            matchChainPos := pos;
            accel := kTrigger;
          }
          pos := pos + step;
        }
        if distanceToNextMatch > 1 {
          SwapTo(r, g, i, matchChainPos, chainPos0, visited, longest);
          move := if distanceToNextMatch > i then Stop else Next(i - distanceToNextMatch);
        }
      }
    }

    lemma SwapTo(r: Range, g: Goal, i: nat, pos: nat, pos0: nat, visited: nat, longest: nat)
      requires Valid() && Candidate(r, i) && Searching(r, g) && g.swap && i + longest <= g.ip
      requires pos + MINMATCH <= longest
      requires Worth(View(), g, i) == longest && WeighedFrom(View(), g, i, longest)
      requires OnChain(View(), g, i, pos0, visited, longest)
      ensures var delta := Delta(i + pos);
        && Course(View(), g, i - delta, visited + 1, longest)
        && OnChain(View(), g, i - delta, pos, visited + 1, longest)
        && (i < delta ==> WeighedFrom(View(), g, 0, longest))
    {
      hide Worth, WeighedFrom, Course, Linked;
      SwapOnChain(View(), g, i, pos, visited, longest);
      FollowAny(View(), g, chainTable[..], i, pos, visited, longest);
    }

    // ----- Pattern analysis -----

    /** The source repeats one byte for the length recorded in the state. */
    ghost predicate RepeatOk(r: Range, st: RepeatState)
      requires RangeOk(r)
      reads this
    {
      st.Repeated? ==>
        && Confirmed(prefix[r.ip..r.ip + 4])
        && 4 <= st.srcPatternLength <= r.iHigh - r.ip
        && AllBytes(prefix, r.ip, r.ip + st.srcPatternLength, prefix[r.ip])
        && (r.ip + st.srcPatternLength < r.iHigh ==> prefix[r.ip + st.srcPatternLength] != prefix[r.ip])
    }

    method TestRepeat(r: Range) returns (st: RepeatState)
      requires RangeOk(r)
      ensures RepeatOk(r, st) && !st.Untested?
    {
      var pattern := prefix[r.ip..r.ip + 4];
      if Confirmed(pattern) {
        var n := CountPattern(prefix, r.ip + 4, r.iHigh, pattern);
        st := Repeated(n + 4);
        assert forall k :: 0 <= k < 4 ==> prefix[r.ip + k] == pattern[k] == pattern[0];
      } else {
        st := NotRepeated;
      }
    }

    /** The run of the pattern from candidate `c` on, across the end of the dictionary. */
    method SegmentForward(r: Range, c: nat, pattern: bytes) returns (n: nat)
      requires Valid() && RangeOk(r) && |pattern| == 4 && Confirmed(pattern)
      requires lowLimit <= c && c + 1 < dictLimit + r.ip && (dictLimit <= c || c + 4 <= dictLimit)
      requires AllBytes(All(), c - lowLimit, c - lowLimit + 4, pattern[0])
      ensures 4 <= n && c + n <= dictLimit + r.iHigh
      ensures AllBytes(All(), c - lowLimit, c - lowLimit + n, pattern[0])
      ensures c + n < dictLimit + r.iHigh ==> All()[c - lowLimit + n] != pattern[0]
    {
      var d := |dict|;
      assert forall t :: 0 <= t < d ==> All()[t] == dict[t];
      assert forall t :: d <= t < d + |prefix| ==> All()[t] == prefix[t - d];
      if c < dictLimit {
        n := CountPattern(dict, c - lowLimit + 4, d, pattern);
        n := n + 4;
        if c - lowLimit + n == d {
          var rotated := RotatePattern(n, pattern);
          RotateConfirmed(n, pattern);
          var more := CountPattern(prefix, 0, r.iHigh, rotated);
          assert AllBytes(All(), d, d + more, pattern[0]);
          n := n + more;
        }
      } else {
        n := CountPattern(prefix, c - dictLimit + 4, r.iHigh, pattern);
        n := n + 4;
      }
    }

    /** The run of the pattern before candidate `c`, across the start of the prefix. */
    method SegmentBack(c: nat, pattern: bytes) returns (n: nat)
      requires Valid() && |pattern| == 4 && Confirmed(pattern)
      requires lowLimit <= c <= dictLimit + |prefix|
      ensures n <= c - lowLimit
      ensures AllBytes(All(), c - lowLimit - n, c - lowLimit, pattern[0])
    {
      var d := |dict|;
      assert forall t :: 0 <= t < d ==> All()[t] == dict[t];
      assert forall t :: d <= t < d + |prefix| ==> All()[t] == prefix[t - d];
      if c < dictLimit {
        n := ReverseCountPattern(dict, c - lowLimit, 0, pattern);
      } else {
        n := ReverseCountPattern(prefix, c - dictLimit, 0, pattern);
        if c - dictLimit == n && lowLimit < dictLimit {
          var rotated := RotatePattern(-(n as int), pattern);
          RotateConfirmed(-(n as int), pattern);
          var more := ReverseCountPattern(dict, d, 0, rotated);
          assert AllBytes(All(), d - more, d, pattern[0]);
          n := n + more;
        }
      }
    }

    /** A segment of a repeated pattern around a candidate: jump to its best position, and where no
        look-back is possible claim the length it guarantees without comparing. */
    method PatternJump(r: Range, lowest: nat, c: nat, srcPatternLength: nat, best: Best, ghost longest0: nat,
                       ghost g: Goal, ghost visited: nat)
      returns (move: Move, b: Best)
      requires Valid() && Searching(r, g) && g.lowest == lowest && RepeatOk(r, Repeated(srcPatternLength))
      requires lowLimit <= lowest <= c && c + 1 < dictLimit + r.ip && dictLimit + r.ip - lowest <= DISTANCE_MAX
      requires dictLimit <= c || c + 4 <= dictLimit
      requires AllBytes(All(), c - lowLimit, c - lowLimit + 4, prefix[r.ip])
      requires r.iLow + best.longest <= r.iHigh && BestOk(All(), |dict|, r, longest0, best)
      requires WeighedFrom(View(), g, c + 1, best.longest) && OnChain(View(), g, c + 1, 0, visited, best.longest)
      ensures BestOk(All(), |dict|, r, longest0, b) && best.longest <= b.longest && r.iLow + b.longest <= r.iHigh
      ensures move.Stop? || (move.Next? && move.index < dictLimit + r.ip)
      ensures Moved(g, move, 0, visited, b.longest)
    {
      hide GoodMatch, Ends, Run, WeighedFrom, OnChain, Course, Linked;
      var pattern := prefix[r.ip..r.ip + 4];
      var forwardPatternLength := SegmentForward(r, c, pattern);
      var backLength := SegmentBack(c, pattern);
      backLength := c - Max(c - backLength, lowest);
      SourceRun(r, g, srcPatternLength);
      SegmentRun(g, c, c - backLength, c + forwardPatternLength, prefix[r.ip]);
      if backLength + forwardPatternLength >= srcPatternLength && forwardPatternLength <= srcPatternLength {
        b := best;
        move := JumpToFit(r, c, c - backLength, forwardPatternLength, srcPatternLength, best.longest, g, visited);
      } else {
        move, b := JumpToStart(r, c, c - backLength, forwardPatternLength, srcPatternLength, best, longest0, g,
          visited);
      }
    }

    /** The segment from `s` on reaches `forward` bytes past `c`, the source repeats its byte `size` times. */
    ghost predicate InSegment(r: Range, c: nat, s: nat, forward: nat, size: nat, g: Goal)
      reads this, chainTable
    {
      && Searching(r, g) && lowLimit <= g.lowest <= s <= c && c + 1 < g.ip && g.ip - g.lowest <= DISTANCE_MAX
      && (dictLimit <= c || c + 4 <= dictLimit) && MINMATCH <= forward && c + forward <= g.high
      && MINMATCH <= size && g.ip + size <= g.high
      && Run(View(), prefix[r.ip], g.ip, size, g.high) && Run(View(), prefix[r.ip], s, c + forward - s, g.high)
    }

    /** The best position, full pattern, might be followed by more match. */
    method JumpToFit(r: Range, c: nat, ghost s: nat, forward: nat, size: nat, ghost longest: nat, ghost g: Goal,
                     ghost visited: nat)
      returns (move: Move)
      requires Valid() && InSegment(r, c, s, forward, size, g) && size <= c - s + forward && forward <= size
      requires WeighedFrom(View(), g, c + 1, longest) && OnChain(View(), g, c + 1, 0, visited, longest)
      ensures move.Next? && move.index < dictLimit + r.ip && Moved(g, move, 0, visited, longest)
    {
      hide Run, WeighedFrom, OnChain, Course, Linked;
      var newMatchIndex := c + forward - size;
      ProtectMeaning(dictLimit, newMatchIndex);
      var j := if ProtectDictEnd(dictLimit, newMatchIndex) then newMatchIndex else dictLimit;
      JumpInSegment(View(), g, prefix[r.ip], size, s, c, c + forward, j, visited, longest);
      move := Next(j);
    }

    /** The farthest position in the segment. */
    method JumpToStart(r: Range, c: nat, s: nat, forward: nat, size: nat, best: Best, ghost longest0: nat,
                       ghost g: Goal, ghost visited: nat)
      returns (move: Move, b: Best)
      requires Valid() && InSegment(r, c, s, forward, size, g) && (c - s + forward < size || size < forward)
      requires r.iLow + best.longest <= r.iHigh && BestOk(All(), |dict|, r, longest0, best)
      requires WeighedFrom(View(), g, c + 1, best.longest) && OnChain(View(), g, c + 1, 0, visited, best.longest)
      ensures BestOk(All(), |dict|, r, longest0, b) && best.longest <= b.longest && r.iLow + b.longest <= r.iHigh
      ensures move.Stop? || (move.Next? && move.index < dictLimit + r.ip)
      ensures Moved(g, move, 0, visited, b.longest)
    {
      hide GoodMatch, Ends, Run, WeighedFrom, OnChain, Course, Linked;
      b := best;
      var newMatchIndex := s;
      ProtectMeaning(dictLimit, newMatchIndex);
      if !ProtectDictEnd(dictLimit, newMatchIndex) {
        move := Next(dictLimit);
        JumpInSegment(View(), g, prefix[r.ip], size, s, c, c + forward, dictLimit, visited, best.longest);
      } else if r.iLow == r.ip {
        var maxML := Min(c - s + forward, size);
        if best.longest < maxML {
          if r.ip + dictLimit - newMatchIndex > DISTANCE_MAX { return Stop, b; }
          b := Best(maxML, newMatchIndex - dictLimit, r.ip);
          ClaimedMatch(r, c, s, forward, size, g, maxML);
        }
        ClaimSegment(View(), g, prefix[r.ip], size, s, c, c + forward, visited, best.longest, b.longest);
        FollowAny(View(), g, chainTable[..], s, 0, visited, b.longest);
        var distToNextPattern := Delta(newMatchIndex);
        move := if distToNextPattern > newMatchIndex then Stop else Next(newMatchIndex - distToNextPattern);
      } else {
        move := Next(newMatchIndex);
        JumpInSegment(View(), g, prefix[r.ip], size, s, c, c + forward, s, visited, best.longest);
      }
    }

    lemma ClaimedMatch(r: Range, c: nat, s: nat, forward: nat, size: nat, g: Goal, len: nat)
      requires Valid() && InSegment(r, c, s, forward, size, g) && len == Min(c - s + forward, size)
      requires c - s + forward < size || size < forward
      ensures GoodMatch(All(), |dict|, r.ip, s - dictLimit, len)
      ensures Ends(All(), |dict| + r.ip + len, |dict| + r.iHigh, dictLimit + r.ip - s)
    {
      hide GoodMatch, Ends, Linked;
      assert AllBytes(prefix, r.ip, r.ip + len, prefix[r.ip]) by {
        forall t | r.ip <= t < r.ip + len ensures prefix[t] == prefix[r.ip] {
          assert All()[t + |dict|] == prefix[t];
        }
      }
      PatternMatch(dict, prefix, r.ip, s - lowLimit, len, prefix[r.ip]);
      ClaimEnds(View(), g, prefix[r.ip], size, s, c + forward - s);
    }

    lemma SourceRun(r: Range, g: Goal, size: nat)
      requires RangeOk(r) && GoalOk(View(), g) && g.ip == dictLimit + r.ip && g.high == dictLimit + r.iHigh
      requires lowLimit + |dict| == dictLimit && RepeatOk(r, Repeated(size))
      ensures Run(View(), prefix[r.ip], g.ip, size, g.high)
    {
      var b := prefix[r.ip];
      forall t | |dict| + r.ip <= t < |dict| + r.ip + size ensures All()[t] == b {
        assert prefix[t - |dict|] == b;
      }
    }

    lemma SegmentRun(g: Goal, c: nat, s: nat, end: nat, b: byte)
      requires GoalOk(View(), g) && lowLimit <= s <= c <= end <= g.high
      requires AllBytes(All(), s - lowLimit, c - lowLimit, b) && AllBytes(All(), c - lowLimit, end - lowLimit, b)
      requires end < g.high ==> All()[end - lowLimit] != b
      ensures Run(View(), b, s, end - s, g.high)
    {
    }

    /** The pattern analysis of one turn of the search; `Chain` when it does not apply. */
    method PatternAnalysis(r: Range, lowest: nat, i: nat, st0: RepeatState, best: Best, ghost longest0: nat,
                           ghost g: Goal, ghost visited: nat)
      returns (move: Move, st: RepeatState, b: Best)
      requires Valid() && Searching(r, g) && g.lowest == lowest && RepeatOk(r, st0)
      requires lowLimit <= lowest <= i && Candidate(r, i) && dictLimit + r.ip - lowest <= DISTANCE_MAX
      requires r.iLow + best.longest <= r.iHigh && BestOk(All(), |dict|, r, longest0, best)
      requires WeighedFrom(View(), g, i, best.longest) && OnChain(View(), g, i, 0, visited, best.longest)
      ensures BestOk(All(), |dict|, r, longest0, b) && best.longest <= b.longest && r.iLow + b.longest <= r.iHigh
      ensures RepeatOk(r, st) && (move.Chain? ==> b == best)
      ensures move.Stop? || move.Chain? || (move.Next? && move.index < dictLimit + r.ip)
      ensures Moved(g, move, 0, visited, b.longest)
    {
      hide GoodMatch, Ends, WeighedFrom, OnChain, Course, Linked;
      move, st, b := Chain, st0, best;
      var matchCandidateIdx: nat := i - 1;
      if st.Untested? {
        st := TestRepeat(r);
      }
      ProtectMeaning(dictLimit, matchCandidateIdx);
      if st.Repeated? && matchCandidateIdx >= lowest && ProtectDictEnd(dictLimit, matchCandidateIdx) {
        var extDict := matchCandidateIdx < dictLimit;
        var isPattern := if extDict then SameWord(dict, matchCandidateIdx - lowLimit, prefix, r.ip, 4)
                         else SameWord(prefix, matchCandidateIdx - dictLimit, prefix, r.ip, 4);
        if isPattern {
          WordIsPattern(dict, prefix, matchCandidateIdx - lowLimit, r.ip);
          move, b := PatternJump(r, lowest, matchCandidateIdx, st.srcPatternLength, best, longest0, g, visited);
        }
      }
    }

    // ----- The search -----

    /** One candidate, wherever it lies. */
    method TryCandidate(r: Range, i: nat, best: Best, favorDecSpeed: bool, ghost longest0: nat, ghost g: Goal)
      returns (matchLength: nat, b: Best)
      requires Valid() && RangeOk(r) && Candidate(r, i)
      requires g.ip == dictLimit + r.ip && g.high == dictLimit + r.iHigh && g.fav == favorDecSpeed
      requires r.ip - r.iLow < best.longest && r.iLow + best.longest <= r.iHigh
      requires BestOk(All(), |dict|, r, longest0, best)
      ensures BestOk(All(), |dict|, r, longest0, b) && best.longest <= b.longest && r.iLow + b.longest <= r.iHigh
      ensures matchLength <= b.longest && Weighed(View(), g, i, b.longest)
      ensures r.iLow == r.ip && matchLength > 0 ==> matchLength == Worth(View(), g, i)
    {
      hide GoodMatch, Ends, Worth;
      if favorDecSpeed && dictLimit + r.ip - i < 8 {
        matchLength, b := 0, best;
      } else if i >= dictLimit {
        matchLength, b := TryPrefix(r, i, best, longest0, g);
      } else {
        matchLength, b := TryDict(r, i, best, longest0, g);
      }
    }

    /** What one turn of the search may do after a candidate: swap chains, jump over a pattern, or
        follow the current chain. */
    method NextCandidate(r: Range, lowest: nat, i: nat, matchLength: nat, best: Best, st0: RepeatState, chainPos0: nat,
                         patternAnalysis: bool, chainSwap: bool, ghost longest0: nat, ghost g: Goal, ghost visited: nat)
      returns (move: Move, b: Best, st: RepeatState, chainPos: nat)
      requires Valid() && Searching(r, g) && g.lowest == lowest && g.swap == chainSwap
      requires RepeatOk(r, st0) && Candidate(r, i)
      requires lowLimit <= lowest <= i && dictLimit + r.ip - lowest <= DISTANCE_MAX
      requires chainSwap ==> r.iLow == r.ip
      requires r.iLow + best.longest <= r.iHigh && BestOk(All(), |dict|, r, longest0, best)
      requires WeighedFrom(View(), g, i, best.longest) && OnChain(View(), g, i, chainPos0, visited, best.longest)
      requires chainSwap && matchLength == best.longest ==> matchLength == Worth(View(), g, i)
      ensures BestOk(All(), |dict|, r, longest0, b) && best.longest <= b.longest && r.iLow + b.longest <= r.iHigh
      ensures RepeatOk(r, st)
      ensures move.Stop? || (move.Next? && move.index < dictLimit + r.ip)
      ensures Moved(g, move, chainPos, visited, b.longest)
    {
      hide GoodMatch, Ends, BestOk, RepeatOk, Worth, WeighedFrom, OnChain, Course, Linked;
      move, b, st, chainPos := Chain, best, st0, chainPos0;
      if chainSwap && matchLength == best.longest {
        move, chainPos := ChainSwap(r, i, best.longest, chainPos, g, visited);
        if !move.Chain? { return; }
      }
      if patternAnalysis && Delta(i) == 1 && chainPos == 0 {
        move, st, b := PatternAnalysis(r, lowest, i, st, best, longest0, g, visited);
        if !move.Chain? { return; }
      }
      FollowAny(View(), g, chainTable[..], i, chainPos, visited, b.longest);
      move := Next(i - Delta(i + chainPos));   /* follow current chain */
    }

    /** LZ4HC_InsertAndGetWiderMatch, without an attached dictionary context. When the length
        returned exceeds `longest0`, the whole length is a true match within the range, at a
        distance of 1 to 65535; and nothing that the attempts allow for promises more. */
    method InsertAndGetWiderMatch(r: Range, longest0: nat, maxNbAttempts: nat,
                                  patternAnalysis: bool, chainSwap: bool, favorDecSpeed: bool)
      returns (best: Best)
      requires Valid() && RangeOk(r) && nextToUpdate <= dictLimit + r.ip
      requires r.ip - r.iLow < longest0 && r.iLow + longest0 <= r.iHigh
      requires chainSwap ==> r.iLow == r.ip
      modifies this`nextToUpdate, hashTable, chainTable
      ensures Valid() && nextToUpdate == dictLimit + r.ip
      ensures longest0 <= best.longest && r.iLow + best.longest <= r.iHigh
      ensures BestOk(All(), |dict|, r, longest0, best)
      ensures var g := Sought(r, favorDecSpeed, chainSwap);
        GoalOk(View(), g) && Looked(View(), g, maxNbAttempts, best.longest)
    {
      hide GoodMatch, Ends, Looked, Tabled, Linked, Course, OnChain;
      best := Best(longest0, 0, 0);
      var ipIndex := dictLimit + r.ip;
      var lowest := if lowLimit + (DISTANCE_MAX + 1) > ipIndex then lowLimit else ipIndex - DISTANCE_MAX;
      Insert(r.ip);
      ghost var g := Sought(r, favorDecSpeed, chainSwap);
      var i: int := hashTable[HashPtr(prefix, r.ip)];
      KnownFrom(View(), hashTable[..], chainTable[..], since, nextToUpdate, g.from);
      First(r, g, longest0);
      best := Search(r, lowest, i, longest0, maxNbAttempts, patternAnalysis, chainSwap, favorDecSpeed, g);
    }

    lemma First(r: Range, g: Goal, longest: nat)
      requires Valid() && RangeOk(r) && GoalOk(View(), g) && g.ip == dictLimit + r.ip && nextToUpdate == g.ip
      requires Tabled(View(), hashTable[..], g.from, g.ip)
      ensures var i := hashTable[HashPtr(prefix, r.ip)];
        Course(View(), g, i, 0, longest) && OnChain(View(), g, i, 0, 0, longest)
    {
      hide HashPtr, Tabled, Course, OnChain;
      PrefixHash(dict, prefix, lowLimit, r.ip);
      StartCourse(View(), g, hashTable[..], longest);
    }

    /** The loop over the chain, from the first candidate `i0` on. */
    method Search(r: Range, lowest: nat, i0: int, longest0: nat, maxNbAttempts: nat,
                  patternAnalysis: bool, chainSwap: bool, favorDecSpeed: bool, ghost g: Goal)
      returns (best: Best)
      requires Valid() && Searching(r, g) && g.lowest == lowest && g.swap == chainSwap && g.fav == favorDecSpeed
      requires i0 < dictLimit + r.ip
      requires lowLimit <= lowest && dictLimit + r.ip - lowest <= DISTANCE_MAX
      requires r.ip - r.iLow < longest0 && r.iLow + longest0 <= r.iHigh
      requires chainSwap ==> r.iLow == r.ip
      requires Course(View(), g, i0, 0, longest0) && OnChain(View(), g, i0, 0, 0, longest0)
      ensures longest0 <= best.longest && r.iLow + best.longest <= r.iHigh
      ensures BestOk(All(), |dict|, r, longest0, best)
      ensures Looked(View(), g, maxNbAttempts, best.longest)
    {
      hide GoodMatch, Ends, Worth, WeighedFrom, OnChain, Course, Looked, Linked;
      best := Best(longest0, 0, 0);
      var i, nbAttempts, chainPos := i0, maxNbAttempts, 0;
      var st := Untested;
      while i >= lowest && nbAttempts > 0
        invariant i < dictLimit + r.ip && chainPos >= 0 && 0 <= nbAttempts <= maxNbAttempts
        invariant longest0 <= best.longest && r.iLow + best.longest <= r.iHigh
        invariant BestOk(All(), |dict|, r, longest0, best) && RepeatOk(r, st)
        invariant Course(View(), g, i, maxNbAttempts - nbAttempts, best.longest)
        invariant OnChain(View(), g, i, chainPos, maxNbAttempts - nbAttempts, best.longest)
        decreases nbAttempts
      {
        ghost var visited, before := maxNbAttempts - nbAttempts, best.longest;
        nbAttempts := nbAttempts - 1;
        var matchLength;
        matchLength, best := TryCandidate(r, i, best, favorDecSpeed, longest0, g);
        Settle(View(), g, i, visited, before, best.longest);
        StillOnChain(View(), g, i, chainPos, visited, before, best.longest);
        var move;
        move, best, st, chainPos := NextCandidate(r, lowest, i, matchLength, best, st, chainPos,
                                                  patternAnalysis, chainSwap, longest0, g, visited);
        if move.Stop? {
          AllLooked(View(), g, maxNbAttempts, best.longest);
          return;
        }
        i := move.index;
      }
      EndOfCourse(View(), g, i, chainPos, maxNbAttempts - nbAttempts, maxNbAttempts, best.longest);
    }
  }

  lemma {:induction false} DictWord(dict: bytes, prefix: bytes, ip: nat, m: nat)
    requires m < |dict| && ip + 4 <= |prefix|
    ensures m + 4 <= |dict| ==>
      (SameWord(prefix, ip, dict, m, 4) <==> SameWord(dict + prefix, |dict| + ip, dict + prefix, m, 4))
  {
    var all, d := dict + prefix, |dict|;
    assert all[d + ip..d + ip + 4] == prefix[ip..ip + 4];
    if m + 4 <= d { assert all[m..m + 4] == dict[m..m + 4]; }
  }

  /** The comparisons with a candidate in the dictionary, across its end or not. */
  lemma {:induction false} WorthInDict(dict: bytes, prefix: bytes, g: Goal, low: nat, ip: nat, iHigh: nat, m: nat)
    requires ip + MINMATCH <= iHigh <= |prefix| && m < |dict|
    requires g.ip == low + |dict| + ip && g.high == low + |dict| + iHigh
    ensures Worth(Text(dict + prefix, low, |dict|), g, low + m)
      == if m + 4 <= |dict| && SameWord(prefix, ip, dict, m, 4)
         then MINMATCH + Agreeing(dict + prefix, |dict| + ip + MINMATCH, dict + prefix, m + MINMATCH,
                                  iHigh - ip - MINMATCH)
         else 0
  {
    hide CommonPrefix, Agreeing, SameWord, Worth;
    WorthIs(Text(dict + prefix, low, |dict|), g, |dict| + ip, m, iHigh - ip);
    DictWord(dict, prefix, ip, m);
    FourAndMore(dict + prefix, |dict| + ip, dict + prefix, m, iHigh - ip);
  }

  /** The four bytes of the prefix that are inserted next. */
  lemma {:induction false} PrefixHash(dict: bytes, prefix: bytes, low: nat, p: nat)
    requires p + 4 <= |prefix|
    ensures var x := Text(dict + prefix, low, |dict|);
      x.Has(low + |dict| + p) && x.Hash(low + |dict| + p) == HashPtr(prefix, p)
  {
    hide HashPtr;
    SameHash(dict + prefix, |dict| + p, prefix, p);
  }

  /** One more position enters both tables. */
  lemma {:induction false} InsertOne(x: Text, t: seq<nat>, c: seq<nat>, prefix: bytes, lo: nat, idx: nat)
    requires x.d <= |x.all| && x.all[x.d..] == prefix && x.low + x.d <= idx && idx - x.low - x.d + 4 <= |prefix|
    requires Tabled(x, t, lo, idx) && Linked(x, c, lo, idx)
    requires |t| == HASH_SIZE && t[HashPtr(prefix, idx - x.low - x.d)] < idx
    ensures var h := HashPtr(prefix, idx - x.low - x.d);
      && Tabled(x, t[h := idx], lo, idx + 1)
      && |c| == CHAIN_SIZE && Linked(x, c[idx % CHAIN_SIZE := Min(idx - t[h], DISTANCE_MAX)], lo, idx + 1)
  {
    hide HashPtr, Tabled, Linked, Link;
    LinkedSize(x, c, lo, idx);
    assert x.all == x.all[..x.d] + prefix;
    PrefixHash(x.all[..x.d], prefix, x.low, idx - x.low - x.d);
    InsertTabled(x, t, lo, idx);
    NewLink(x, t, lo, idx);
    InsertLinked(x, c, lo, idx, Min(idx - t[x.Hash(idx)], DISTANCE_MAX));
  }

  /** A prefix that grows, after all its positions have been inserted that have four bytes, or none. */
  lemma {:induction false} ExtendSpots(dict: bytes, prefix: bytes, src: bytes, low: nat, lo: nat, next: nat)
    requires next == low + |dict| || next + 3 <= low + |dict| + |prefix|
    ensures SameSpots(Text(dict + prefix, low, |dict|), Text(dict + (prefix + src), low, |dict|), lo, next, next)
  {
    hide HashPtr;
    var x, x' := Text(dict + prefix, low, |dict|), Text(dict + (prefix + src), low, |dict|);
    assert x'.all == x.all + src;
    forall p: nat | Spot(x, lo, next, p) ensures x'.Has(p) && x'.Hash(p) == x.Hash(p) {
      SameHash(x'.all, p - low, x.all, p - low);
    }
  }

  /** Positions behind what is cut off keep their indices. */
  lemma {:induction false} CutSpots(all: bytes, low: nat, d: nat, cut: nat, lo: nat, next: nat)
    requires cut <= |all| && low + cut <= lo
    ensures SameSpots(Text(all, low, d), Text(all[cut..], low + cut, Max(d - cut, 0)), lo, next, next)
  {
    hide HashPtr;
    var x, x' := Text(all, low, d), Text(all[cut..], low + cut, Max(d - cut, 0));
    forall p: nat | Spot(x, lo, next, p) ensures x'.Has(p) && x'.Hash(p) == x.Hash(p) {
      SameHash(all[cut..], p - low - cut, all, p - low);
    }
  }

  /** From where on two strings of the same length agree. */
  ghost function KeptFrom(a: bytes, b: bytes): (k: nat)
    requires |a| == |b|
    ensures k <= |a| && a[k..] == b[k..]
    ensures a == b ==> k == 0
  {
    var n := |a|;
    if n == 0 then 0
    else if a[n - 1] != b[n - 1] then n
    else
      var k := KeptFrom(a[..n - 1], b[..n - 1]);
      assert a[k..] == a[..n - 1][k..] + [a[n - 1]] && b[k..] == b[..n - 1][k..] + [b[n - 1]];
      k
  }

  /** Positions behind what has changed keep their bytes. */
  lemma {:induction false} KeptSpots(all: bytes, all': bytes, low: nat, d: nat, k: nat, lo: nat, next: nat)
    requires |all| == |all'| && k <= |all| && all[k..] == all'[k..] && low + k <= lo
    ensures SameSpots(Text(all, low, d), Text(all', low, d), lo, next, next)
  {
    hide HashPtr;
    var x, x' := Text(all, low, d), Text(all', low, d);
    assert forall i :: k <= i < |all| ==> all[i] == all[k..][i - k] && all'[i] == all'[k..][i - k];
    forall p: nat | Spot(x, lo, next, p) ensures x'.Has(p) && x'.Hash(p) == x.Hash(p) {
      SameHash(all', p - low, all, p - low);
    }
  }

  /** A prefix that becomes the external dictionary, with all positions inserted that have four bytes. */
  lemma {:induction false} DictSpots(dict: bytes, prefix: bytes, low: nat, lo: nat, next: nat)
    requires low + |dict| <= lo && next <= low + |dict| + |prefix|
    requires |prefix| < 4 || low + |dict| + |prefix| <= next + 3
    ensures SameSpots(Text(dict + prefix, low, |dict|), Text(prefix, low + |dict|, |prefix|), lo, next,
                      low + |dict| + |prefix|)
  {
    hide HashPtr;
    var x, x' := Text(dict + prefix, low, |dict|), Text(prefix, low + |dict|, |prefix|);
    forall p: nat | Spot(x, lo, next, p) ensures x'.Has(p) && x'.Hash(p) == x.Hash(p) {
      PrefixHash(dict, prefix, low, p - low - |dict|);
    }
  }

  /** The two counts together are the common prefix in the whole string. */
  lemma {:induction false} AcrossCount(dict: bytes, prefix: bytes, ip: nat, iHigh: nat, m: nat, n: nat, more: nat)
    requires m + MINMATCH <= |dict| && ip + MINMATCH <= iHigh <= |prefix|
    requires var vLimit := Min(ip + (|dict| - m), iHigh);
      && ip + MINMATCH <= vLimit
      && n == Agreeing(prefix, ip + MINMATCH, dict, m + MINMATCH, vLimit - ip - MINMATCH)
      && more == if ip + MINMATCH + n == vLimit && vLimit < iHigh
                 then Agreeing(prefix, vLimit, prefix, 0, iHigh - vLimit) else 0
    ensures n + more == Agreeing(dict + prefix, |dict| + ip + MINMATCH, dict + prefix, m + MINMATCH,
                                 iHigh - ip - MINMATCH)
  {
    hide CommonPrefix;
    var all, d := dict + prefix, |dict|;
    var a, b, vLimit := d + ip + MINMATCH, m + MINMATCH, Min(ip + (|dict| - m), iHigh);
    forall t | a <= t < a + (n + more) ensures all[t] == all[t - a + b] {
      var p := t - d;
      assert all[t] == prefix[p];
      if p < ip + MINMATCH + n {
        assert prefix[p] == dict[p - (ip + MINMATCH) + (m + MINMATCH)];
      } else {
        assert prefix[p] == prefix[p - vLimit + 0];
      }
    }
    CommonPrefixUnique(all, a, all, b, iHigh - ip - MINMATCH, n + more);
  }

  /** The three comparisons of a candidate in the prefix make a match. */
  lemma PrefixMatch(dict: bytes, prefix: bytes, ip: nat, m: nat, n: nat, back: nat)
    requires m < ip && ip - m <= DISTANCE_MAX && back <= m
    requires ip + MINMATCH + n <= |prefix|
    requires SameWord(prefix, ip, prefix, m, 4)
    requires forall t :: ip + MINMATCH <= t < ip + MINMATCH + n ==>
      prefix[t] == prefix[t - (ip + MINMATCH) + (m + MINMATCH)]
    requires forall t :: ip - back <= t < ip ==> prefix[t] == prefix[t - ip + m]
    ensures GoodMatch(dict + prefix, |dict|, ip - back, m - back, MINMATCH + n + back)
  {
    hide SameWord;
    SameWordBytes(prefix, ip, prefix, m, 4);
    InPrefix(dict, prefix, ip - back, ip + MINMATCH + n, ip - m);
  }

  lemma InPrefix(dict: bytes, prefix: bytes, from: nat, to: nat, delta: nat)
    requires delta <= from <= to <= |prefix|
    requires forall t :: from <= t < to ==> prefix[t] == prefix[t - delta]
    ensures forall t :: |dict| + from <= t < |dict| + to ==> (dict + prefix)[t] == (dict + prefix)[t - delta]
  {
    forall t | |dict| + from <= t < |dict| + to ensures (dict + prefix)[t] == (dict + prefix)[t - delta] {
      assert (dict + prefix)[t] == prefix[t - |dict|];
      assert (dict + prefix)[t - delta] == prefix[t - delta - |dict|];
    }
  }

  /** The comparisons of a candidate in the dictionary make a match, across its end or not. */
  lemma DictMatch(dict: bytes, prefix: bytes, ip: nat, m: nat, n: nat, more: nat, back: nat)
    requires m + MINMATCH + n <= |dict| && ip + MINMATCH + n + more <= |prefix|
    requires back <= ip && back <= m && |dict| + ip - m <= DISTANCE_MAX
    requires SameWord(prefix, ip, dict, m, 4)
    requires more > 0 ==> m + MINMATCH + n == |dict|
    requires forall t :: ip + MINMATCH <= t < ip + MINMATCH + n ==>
      prefix[t] == dict[t - (ip + MINMATCH) + (m + MINMATCH)]
    requires forall t :: ip + MINMATCH + n <= t < ip + MINMATCH + n + more ==>
      prefix[t] == prefix[t - (ip + MINMATCH + n) + 0]
    requires forall t :: ip - back <= t < ip ==> prefix[t] == dict[t - ip + m]
    ensures GoodMatch(dict + prefix, |dict|, ip - back, m - |dict| - back, MINMATCH + n + more + back)
  {
    hide SameWord;
    SameWordBytes(prefix, ip, dict, m, 4);
    var all, d := dict + prefix, |dict|;
    forall t | d + ip - back <= t < d + ip + MINMATCH + n + more ensures all[t] == all[t - (d + ip - m)] {
      var p := t - d;
      assert all[t] == prefix[p];
      if p < ip + MINMATCH + n {
        assert all[p - ip + m] == dict[p - ip + m];
      } else {
        assert all[p - ip + m] == prefix[p - ip + m - d];
      }
    }
  }

  /** Two runs of the same byte make a match, without a comparison. */
  lemma PatternMatch(dict: bytes, prefix: bytes, ip: nat, m: nat, len: nat, b: byte)
    requires m < |dict| + ip && |dict| + ip - m <= DISTANCE_MAX
    requires ip + len <= |prefix| && m + len <= |dict| + |prefix|
    requires AllBytes(prefix, ip, ip + len, b) && AllBytes(dict + prefix, m, m + len, b)
    ensures GoodMatch(dict + prefix, |dict|, ip, m - |dict|, len)
  {
    var all, d := dict + prefix, |dict|;
    forall t | d + ip <= t < d + ip + len ensures all[t] == all[t - (d + ip - m)] {
      assert all[t] == prefix[t - d];
    }
  }

  /** Of two runs of different length the shorter one ends the match. */
  lemma {:induction false} ClaimEnds(x: Text, g: Goal, b: byte, size: nat, s: nat, n: nat)
    requires GoalOk(x, g) && x.low <= s < g.ip && g.ip + size <= g.high && s + n <= g.high && n != size
    requires Run(x, b, g.ip, size, g.high) && Run(x, b, s, n, g.high)
    ensures Ends(x.all, g.ip - x.low + Min(n, size), g.high - x.low, g.ip - s)
  {
    var len := Min(n, size);
    assert g.ip - x.low + len - (g.ip - s) == s - x.low + len;
    if len < size { assert x.all[g.ip - x.low + len] == b; }
    if len < n { assert x.all[s - x.low + len] == b; }
  }

  /** A word equal to the confirmed pattern at `ip` is four times its byte. */
  lemma WordIsPattern(dict: bytes, prefix: bytes, m: nat, ip: nat)
    requires ip + 4 <= |prefix| && m + 4 <= |dict| + |prefix| && (|dict| <= m || m + 4 <= |dict|)
    requires Confirmed(prefix[ip..ip + 4])
    requires if m < |dict| then SameWord(dict, m, prefix, ip, 4) else SameWord(prefix, m - |dict|, prefix, ip, 4)
    ensures AllBytes(dict + prefix, m, m + 4, prefix[ip])
  {
    hide SameWord;
    var pattern := prefix[ip..ip + 4];
    assert forall k :: 0 <= k < 4 ==> prefix[ip + k] == pattern[k] == pattern[0];
    if m < |dict| {
      SameWordBytes(dict, m, prefix, ip, 4);
      assert forall t :: m <= t < m + 4 ==> (dict + prefix)[t] == dict[t] == prefix[ip + (t - m)];
    } else {
      SameWordBytes(prefix, m - |dict|, prefix, ip, 4);
      assert forall t :: m <= t < m + 4 ==> (dict + prefix)[t] == prefix[t - |dict|] == prefix[ip + (t - m)];
    }
  }
}
