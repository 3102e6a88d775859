/**
  The hash table matcher of the greedy compressor in lz4.c. Positions are indices: the source
  starts at `startIndex`, the history before it ends there. The hash is an arbitrary function.
*/
module FastMatcher {
  import opened Bytes
  import opened BlockFormat
  import opened BlockWriter
  import opened CommonBytes

  const SKIP_TRIGGER := 64         // 1 << LZ4_skipTrigger
  const LIMIT_64K := 65547         // LZ4_64Klimit
  const MIN_LENGTH := 13           // LZ4_minLength
  const HASH_UNIT := 8

  /** Index widths; tables of pointers are not modelled. */
  datatype Kind = ByU32 | ByU16

  datatype Mode = NoDict | WithPrefix64k | UsingExtDict

  /** The fixed inputs of one compression: `small` is dictSmall, `gap` says that all older table
      entries are out of reach. */
  datatype Job = Job(h: bytes, src: bytes, startIndex: nat, mode: Mode, small: bool, kind: Kind, gap: bool,
                     slots: nat, hash: (bytes, nat) -> nat)

  // ----- The table -----

  /** LZ4_hashPosition; it reads eight bytes. */
  function Slot(j: Job, pos: nat): (k: nat)
    requires 0 < j.slots && pos + HASH_UNIT <= |j.src|
    ensures k < j.slots
  {
    j.hash(j.src, pos) % j.slots
  }

  /** LZ4_putIndexOnHash: what a table of this kind keeps of an index. */
  function Stored(j: Job, index: nat): (e: nat)
    ensures e <= index
  {
    if j.kind == ByU16 then index % 65536 else index
  }

  /** A table with an entry for every hash. */
  predicate Sized(j: Job, t: seq<nat>) {
    0 < j.slots <= |t|
  }

  /** LZ4_putPosition on the table as a value. */
  function Put(j: Job, t: seq<nat>, pos: nat): (t': seq<nat>)
    requires Sized(j, t) && pos + HASH_UNIT <= |j.src|
    ensures |t'| == |t|
  {
    t[Slot(j, pos) := Stored(j, j.startIndex + pos)]
  }

  /** 16-bit entries that all lie before the source: a stream may have counted 64 KB for a dictionary too
      short to be used. */
  predicate Truncated(j: Job) {
    j.kind == ByU16 && 65536 <= j.startIndex
  }

  /** An entry is empty, or from before this call and at least eight bytes before its end, or a
      position of this source below `hi`, in the slot of its hash, or truncated. */
  ghost predicate EntryOk(j: Job, e: nat, hi: nat, k: nat)
    requires 0 < j.slots
  {
    || (e < j.startIndex && if j.gap then e + KB64 <= j.startIndex else e == 0 || e + HASH_UNIT <= j.startIndex)
    || (e == 0 && j.startIndex == 0)
    || (j.startIndex <= e < j.startIndex + hi && e - j.startIndex + MFLIMIT <= |j.src|
      && Slot(j, e - j.startIndex) == k)
    || (Truncated(j) && e < 65536 && MFLIMIT <= |j.src|)
  }

  ghost predicate TableOk(j: Job, t: seq<nat>, hi: nat) {
    0 < j.slots <= |t| && forall k :: 0 <= k < |t| ==> EntryOk(j, t[k], hi, k)
  }

  /** What makes the tests on a candidate enough. */
  ghost predicate JobOk(j: Job) {
    && 0 < j.slots && |j.h| <= j.startIndex
    && |j.src| <= MAX_INPUT_SIZE
    && (j.mode == NoDict ==> j.h == [])
    && (j.mode == UsingExtDict ==> |j.h| == 0 || MINMATCH <= |j.h|)
    && (j.kind == ByU16 ==>
      j.h == [] && |j.src| < LIMIT_64K && (j.startIndex + |j.src| < LIMIT_64K || (Truncated(j) && j.small)))
    && (j.gap ==> KB64 <= j.startIndex)
    && (j.small || |j.h| == j.startIndex
        || (j.kind == ByU32 && KB64 <= |j.h|) || (j.kind == ByU32 && j.gap))
  }

  /** A larger bound admits the same entries. */
  lemma {:induction false} TableLater(j: Job, t: seq<nat>, hi: nat, hi': nat)
    requires TableOk(j, t, hi) && hi <= hi'
    ensures TableOk(j, t, hi')
  {
    hide Slot;
  }

  /** LZ4_putPosition */
  lemma {:induction false} TablePut(j: Job, t: seq<nat>, hi: nat, pos: nat)
    requires JobOk(j) && TableOk(j, t, hi) && pos + MFLIMIT <= |j.src|
    ensures TableOk(j, Put(j, t, pos), if hi <= pos then pos + 1 else hi)
  {
    hide Slot;
    var k := Slot(j, pos);
    var t', hi' := t[k := Stored(j, j.startIndex + pos)], if hi <= pos then pos + 1 else hi;
    forall i | 0 <= i < |t'| ensures EntryOk(j, t'[i], hi', i) {
      if i != k { assert EntryOk(j, t[i], hi, i); }
    }
  }

  method PutPosition(j: Job, table: array<nat>, ghost hi: nat, pos: nat)
    requires JobOk(j) && Sized(j, table[..]) && TableOk(j, table[..], hi) && pos + MFLIMIT <= |j.src|
    modifies table
    ensures TableOk(j, table[..], if hi <= pos then pos + 1 else hi)
    ensures table[..] == old(Put(j, table[..], pos))
  {
    hide TableOk, Slot, JobOk, Stored;
    TablePut(j, table[..], hi, pos);
    var k := Slot(j, pos);
    ghost var was := table[..];
    var index := Stored(j, j.startIndex + pos);
    table[k] := index;
    assert table[..] == was[k := index];
  }

  lemma TableSize(j: Job, t: seq<nat>, hi: nat)
    requires TableOk(j, t, hi)
    ensures Sized(j, t)
  {
  }

  // ----- Candidates -----

  /** The match position of an index, relative to the source. */
  function Ref(j: Job, index: nat): int {
    index - j.startIndex
  }

  /** A candidate for position `pos` that passed the tests: four equal bytes within reach. */
  ghost predicate Candidate(j: Job, pos: nat, ref: int) {
    && -|j.h| <= ref < pos && pos - ref <= DISTANCE_MAX && pos + MFLIMIT <= |j.src|
    && (j.mode == UsingExtDict && ref < 0 ==> ref + MINMATCH <= 0)
    && TrueMatch(j.h, j.src, pos, pos - ref, MINMATCH)
  }

  /** The tests of the search loop on the index found. */
  predicate InReach(j: Job, index: nat, current: nat) {
    && (j.small ==> index >= j.startIndex - |j.h|)
    && (j.kind == ByU16 || index + DISTANCE_MAX >= current)
  }

  /** An entry of a valid table that passes the tests names available history before the current
      position and at most 65535 back. */
  lemma {:induction false} EntryUsable(j: Job, e: nat, hi: nat, k: nat, pos: nat)
    requires JobOk(j) && EntryOk(j, e, hi, k) && hi <= pos && 0 < pos && pos + MFLIMIT <= |j.src|
    requires InReach(j, e, j.startIndex + pos)
    ensures -|j.h| <= Ref(j, e) < pos && pos - Ref(j, e) <= DISTANCE_MAX
    ensures j.mode == UsingExtDict && Ref(j, e) < 0 ==> Ref(j, e) + MINMATCH <= 0
  {
    hide Slot;
  }

  /** LZ4_read32(match) == LZ4_read32(ip) */
  predicate SameFour(j: Job, pos: nat, ref: int)
    requires -|j.h| <= ref < pos && pos + MINMATCH <= |j.src|
  {
    (j.h + j.src)[|j.h| + ref..|j.h| + ref + MINMATCH] == j.src[pos..pos + MINMATCH]
  }

  lemma {:induction false} FourIsMatch(j: Job, pos: nat, ref: int)
    requires -|j.h| <= ref < pos && pos + MINMATCH <= |j.src| && pos - ref <= DISTANCE_MAX
    requires SameFour(j, pos, ref)
    ensures TrueMatch(j.h, j.src, pos, pos - ref, MINMATCH)
  {
    var all := j.h + j.src;
    var a, b := all[|j.h| + ref..|j.h| + ref + MINMATCH], j.src[pos..pos + MINMATCH];
    forall k | |j.h| + pos <= k < |j.h| + pos + MINMATCH ensures all[k] == all[k - (pos - ref)] {
      assert b[k - |j.h| - pos] == a[k - |j.h| - pos];
    }
  }

  /** The match position that a table has for `pos`. */
  function RefAt(j: Job, t: seq<nat>, pos: nat): int
    requires Sized(j, t) && pos + HASH_UNIT <= |j.src|
  {
    Ref(j, t[Slot(j, pos)])
  }

  /** Whether the table leads to a match at `pos`. */
  predicate Hit(j: Job, t: seq<nat>, pos: nat)
    requires Sized(j, t) && pos + HASH_UNIT <= |j.src|
  {
    var ref := RefAt(j, t, pos);
    InReach(j, t[Slot(j, pos)], j.startIndex + pos) && -|j.h| <= ref < pos && SameFour(j, pos, ref)
  }

  /** Looks up one position and registers it. */
  method TryPosition(j: Job, table: array<nat>, pos: nat) returns (found: bool, ref: int)
    requires JobOk(j) && Sized(j, table[..]) && TableOk(j, table[..], pos) && 0 < pos && pos + MFLIMIT <= |j.src|
    modifies table
    ensures TableOk(j, table[..], pos + 1)
    ensures found ==> Candidate(j, pos, ref)
    ensures found == old(Hit(j, table[..], pos)) && ref == old(RefAt(j, table[..], pos))
    ensures table[..] == old(Put(j, table[..], pos))
  {
    hide TableOk, EntryOk, JobOk, Slot, SameFour, TrueMatch, Put;
    var h := Slot(j, pos);
    var current := j.startIndex + pos;
    var matchIndex := table[h];
    EntryAt(j, table[..], pos, h);
    PutPosition(j, table, pos, pos);
    ref := Ref(j, matchIndex);
    found := false;
    if InReach(j, matchIndex, current) {
      EntryUsable(j, matchIndex, pos, h, pos);
      if SameFour(j, pos, ref) {
        FourIsMatch(j, pos, ref);
        found := true;
      }
    }
  }

  lemma EntryAt(j: Job, t: seq<nat>, hi: nat, k: nat)
    requires TableOk(j, t, hi) && k < |t|
    ensures EntryOk(j, t[k], hi, k)
  {
  }

  /** What a search ends with. */
  datatype Seek = Missed(table: seq<nat>) | Found(pos: nat, ref: int, table: seq<nat>)

  /** The first position that the table leads to a match for, among those that growing steps visit. */
  function FindFrom(j: Job, t: seq<nat>, pos: nat, step: nat, searchMatchNb: nat): (r: Seek)
    requires Sized(j, t) && MFLIMIT <= |j.src| && 1 <= step && SKIP_TRIGGER <= searchMatchNb
    ensures Sized(j, r.table)
    ensures r.Found? ==> pos <= r.pos && r.pos + MFLIMIT <= |j.src| && -|j.h| <= r.ref < r.pos
    decreases |j.src| - pos
  {
    if pos + step > |j.src| - MFLIMIT + 1 then Missed(t)
    else if Hit(j, t, pos) then Found(pos, RefAt(j, t, pos), Put(j, t, pos))
    else FindFrom(j, Put(j, t, pos), pos + step, searchMatchNb / SKIP_TRIGGER, searchMatchNb + 1)
  }

  /** The search loop, with its growing steps. Without a match the last literals are next. */
  method FindMatch(j: Job, table: array<nat>, ip0: nat, acceleration: nat) returns (found: bool, ip: nat, ref: int)
    requires JobOk(j) && Sized(j, table[..]) && TableOk(j, table[..], ip0) && 0 < ip0
    requires MIN_LENGTH <= |j.src| && 1 <= acceleration
    requires ip0 + MFLIMIT <= |j.src| + 1
    modifies table
    ensures found ==> ip0 <= ip && Candidate(j, ip, ref) && TableOk(j, table[..], ip + 1)
    ensures !found ==> TableOk(j, table[..], |j.src|)
    ensures var r := old(FindFrom(j, table[..], ip0, 1, acceleration * SKIP_TRIGGER));
      r == if found then Found(ip, ref, table[..]) else Missed(table[..])
  {
    hide TableOk, JobOk, Candidate, Hit, RefAt, Put;
    ghost var r := FindFrom(j, table[..], ip0, 1, acceleration * SKIP_TRIGGER);
    var mflimitPlusOne := |j.src| - MFLIMIT + 1;
    var forwardIp := ip0;
    var step := 1;
    var searchMatchNb := acceleration * SKIP_TRIGGER;
    ip, ref, found := ip0, 0, false;
    while !found
      invariant ip0 <= ip && ip0 <= forwardIp <= mflimitPlusOne && 1 <= step && SKIP_TRIGGER <= searchMatchNb
      invariant found ==> Candidate(j, ip, ref) && TableOk(j, table[..], ip + 1)
      invariant !found ==> TableOk(j, table[..], forwardIp)
      invariant Sized(j, table[..])
      invariant found ==> r == Found(ip, ref, table[..])
      invariant !found ==> r == FindFrom(j, table[..], forwardIp, step, searchMatchNb)
      decreases !found, mflimitPlusOne - forwardIp
    {
      ip := forwardIp;
      forwardIp := forwardIp + step;
      step := searchMatchNb / SKIP_TRIGGER;
      searchMatchNb := searchMatchNb + 1;
      if forwardIp > mflimitPlusOne {
        TableLater(j, table[..], ip, |j.src|);
        return false, ip, 0;
      }
      found, ref := TryPosition(j, table, ip);
      if !found { TableLater(j, table[..], ip + 1, forwardIp); }
    }
  }

  // ----- Clearing -----

  /** LZ4_clearHash for the positions of `[from, filledIp]`, which a shortened match gave back. */
  method ClearFrom(j: Job, table: array<nat>, from: nat, filledIp: nat)
    requires JobOk(j) && TableOk(j, table[..], filledIp + 1) && from <= filledIp && filledIp + MFLIMIT <= |j.src|
    modifies table
    ensures TableOk(j, table[..], from)
  {
    hide JobOk, Slot;
    ghost var t0 := table[..];
    ClearedBetween(j, t0, from, from, filledIp);
    var ptr := from;
    while ptr <= filledIp
      invariant from <= ptr <= filledIp + 1 && 0 < j.slots <= table.Length
      invariant TableBetween(j, table[..], from, ptr, filledIp)
    {
      var h := Slot(j, ptr);
      ghost var was := table[..];
      table[h] := 0;
      assert table[..] == was[h := 0];
      ClearOne(j, was, from, ptr, filledIp);
      ptr := ptr + 1;
    }
  }

  /** The entries for positions of `[from, ptr)` are gone. */
  ghost predicate TableBetween(j: Job, t: seq<nat>, from: nat, ptr: nat, filledIp: nat) {
    0 < j.slots <= |t| &&
    forall k :: 0 <= k < |t| ==>
      EntryOk(j, t[k], filledIp + 1, k) && (t[k] == 0 || t[k] < j.startIndex + from || j.startIndex + ptr <= t[k])
  }

  lemma ClearedBetween(j: Job, t: seq<nat>, from: nat, ptr: nat, filledIp: nat)
    requires TableOk(j, t, filledIp + 1) && ptr == from
    ensures TableBetween(j, t, from, ptr, filledIp)
  {
    hide Slot;
  }

  lemma {:induction false} ClearOne(j: Job, t: seq<nat>, from: nat, ptr: nat, filledIp: nat)
    requires JobOk(j) && TableBetween(j, t, from, ptr, filledIp) && from <= ptr <= filledIp
      && filledIp + MFLIMIT <= |j.src|
    ensures TableBetween(j, t[Slot(j, ptr) := 0], from, ptr + 1, filledIp)
  {
    hide Slot;
    var h := Slot(j, ptr);
    var t' := t[h := 0];
    forall k | 0 <= k < |t'|
      ensures EntryOk(j, t'[k], filledIp + 1, k)
      ensures t'[k] == 0 || t'[k] < j.startIndex + from || j.startIndex + ptr + 1 <= t'[k]
    {
      if k != h && t[k] == j.startIndex + ptr {
        assert EntryOk(j, t[k], filledIp + 1, k);
      }
    }
  }

  // ----- Match lengths -----

  /** lowLimit: a match at `ref` is not extended further back. */
  function LowLimit(j: Job, ref: int): (low: int)
    ensures -|j.h| <= low <= 0
  {
    match j.mode
    case NoDict => 0
    case WithPrefix64k => -|j.h|
    case UsingExtDict => if ref < 0 then -|j.h| else 0
  }

  /** Where a match begins once it is extended backwards as far as bytes agree. */
  function Back(j: Job, anchor: nat, low: int, ip: nat, ref: int): (r: nat)
    requires anchor <= ip <= |j.src| && -|j.h| <= low && ref < ip
    ensures anchor <= r <= ip && (r == ip || low <= ref - (ip - r))
    decreases ip
  {
    if ip > anchor && ref > low && j.src[ip - 1] == (j.h + j.src)[|j.h| + ref - 1]
    then Back(j, anchor, low, ip - 1, ref - 1)
    else ip
  }

  /** "Catch up": the match extended backwards into the literals. */
  method CatchUp(j: Job, anchor: nat, ip0: nat, ref0: int) returns (ip: nat, ref: int)
    requires anchor <= ip0 && Candidate(j, ip0, ref0)
    ensures anchor <= ip <= ip0 && ip - ref == ip0 - ref0
    ensures Candidate(j, ip, ref) && TrueMatch(j.h, j.src, ip, ip - ref, MINMATCH + (ip0 - ip))
    ensures ip == Back(j, anchor, LowLimit(j, ref0), ip0, ref0)
  {
    hide TrueMatch;
    var low := LowLimit(j, ref0);
    ip, ref := ip0, ref0;
    while ip > anchor && ref > low && j.src[ip - 1] == (j.h + j.src)[|j.h| + ref - 1]
      invariant anchor <= ip <= ip0 && ip - ref == ip0 - ref0 && -|j.h| <= ref < ip
      invariant Back(j, anchor, low, ip, ref) == Back(j, anchor, low, ip0, ref0)
      invariant Candidate(j, ip, ref)
      invariant TrueMatch(j.h, j.src, ip, ip - ref, MINMATCH + (ip0 - ip))
    {
      OneBack(j.h, j.src, ip, ip - ref, MINMATCH + (ip0 - ip));
      ip, ref := ip - 1, ref - 1;
      SubMatch(j.h, j.src, ip, ip - ref, MINMATCH + (ip0 - ip), ip, MINMATCH);
    }
  }

  lemma OneBack(h: bytes, src: bytes, ip: nat, offset: nat, len: nat)
    requires TrueMatch(h, src, ip, offset, len) && 0 < ip && offset <= |h| + ip - 1
    requires src[ip - 1] == (h + src)[|h| + (ip - offset) - 1]
    ensures TrueMatch(h, src, ip - 1, offset, len + 1)
  {
  }

  /** The match stops at its limit or at a byte that differs. */
  ghost predicate Longest(j: Job, ip: nat, ref: int, len: nat)
    requires -|j.h| <= ref < ip
  {
    ip + len + LASTLITERALS < |j.src| ==> (j.h + j.src)[|j.h| + ip + len] != (j.h + j.src)[|j.h| + ref + len]
  }

  /** A match counted to the end is at least as long as what was known of it. */
  lemma LongestReaches(j: Job, ip: nat, ref: int, known: nat, len: nat)
    requires -|j.h| <= ref < ip && TrueMatch(j.h, j.src, ip, ip - ref, known)
    requires ip + known + LASTLITERALS <= |j.src| && Longest(j, ip, ref, len)
    ensures known <= len
  {
  }

  /** The length of a match behind its first four bytes, up to five bytes before the end of the source. */
  function MatchCode(j: Job, ip: nat, ref: int): (n: nat)
    requires -|j.h| <= ref < ip && ip + MFLIMIT <= |j.src|
    ensures ip + MINMATCH + n + LASTLITERALS <= |j.src|
  {
    var all, from := j.h + j.src, |j.h| + MINMATCH;
    CommonPrefix(all, from + ip, all, from + ref, |j.src| - LASTLITERALS - MINMATCH - ip)
  }

  lemma {:induction false} LongestIs(j: Job, ip: nat, ref: int, n: nat)
    requires -|j.h| <= ref < ip && ip + MFLIMIT <= |j.src| && ip + MINMATCH + n + LASTLITERALS <= |j.src|
    requires TrueMatch(j.h, j.src, ip, ip - ref, MINMATCH + n) && Longest(j, ip, ref, MINMATCH + n)
    ensures n == MatchCode(j, ip, ref)
  {
    hide CommonPrefix;
    var all, from := j.h + j.src, |j.h| + MINMATCH;
    forall k | from + ip <= k < from + ip + n ensures all[k] == all[k - (from + ip) + (from + ref)] {
      assert all[k] == all[k - (ip - ref)];
    }
    CommonPrefixUnique(all, from + ip, all, from + ref, |j.src| - LASTLITERALS - MINMATCH - ip, n);
  }

  /** LZ4_count behind the first four bytes, up to five bytes before the end; a match in an
      external dictionary may go on at the start of the source. */
  method CountMatch(j: Job, ip: nat, ref: int) returns (matchCode: nat)
    requires Candidate(j, ip, ref)
    ensures ip + MINMATCH + matchCode + LASTLITERALS <= |j.src|
    ensures TrueMatch(j.h, j.src, ip, ip - ref, MINMATCH + matchCode)
    ensures Longest(j, ip, ref, MINMATCH + matchCode) && matchCode == MatchCode(j, ip, ref)
  {
    hide CommonPrefix, TrueMatch, Longest;
    if j.mode == UsingExtDict && ref < 0 {
      matchCode := CountFromDict(j, ip, ref);
    } else {
      var matchlimit := |j.src| - LASTLITERALS;
      var all := j.h + j.src;
      matchCode := Count(all, |j.h| + ip + MINMATCH, all, |j.h| + ref + MINMATCH, |j.h| + matchlimit);
      WholeMatch(j.h, j.src, ip, ref, matchCode);
      WholeLongest(j, ip, ref, matchCode);
    }
    LongestIs(j, ip, ref, matchCode);
  }

  lemma WholeLongest(j: Job, ip: nat, ref: int, n: nat)
    requires -|j.h| <= ref < ip && ip + MINMATCH + n + LASTLITERALS <= |j.src|
    requires var all := j.h + j.src;
      ip + MINMATCH + n + LASTLITERALS < |j.src| ==>
        all[|j.h| + ip + MINMATCH + n] != all[|j.h| + ref + MINMATCH + n]
    ensures Longest(j, ip, ref, MINMATCH + n)
  {
  }

  method CountFromDict(j: Job, ip: nat, ref: int) returns (matchCode: nat)
    requires Candidate(j, ip, ref) && j.mode == UsingExtDict && ref < 0
    ensures ip + MINMATCH + matchCode + LASTLITERALS <= |j.src|
    ensures TrueMatch(j.h, j.src, ip, ip - ref, MINMATCH + matchCode)
    ensures Longest(j, ip, ref, MINMATCH + matchCode)
  {
    hide CommonPrefix, TrueMatch, Longest;
    var matchlimit := |j.src| - LASTLITERALS;
    var limit := ip - ref;
    if limit > matchlimit { limit := matchlimit; }
    matchCode := Count(j.src, ip + MINMATCH, j.h, |j.h| + ref + MINMATCH, limit);
    SegmentMatch(j.h, j.src, ip, ref, matchCode);
    if ip + MINMATCH + matchCode == limit {
      var more := Count(j.src, limit, j.src, 0, matchlimit);
      ghost var n := matchCode;
      matchCode := matchCode + more;
      if limit < matchlimit {
        AcrossMatch(j.h, j.src, ip, ref, n, more);
        AcrossLongest(j, ip, ref, n, more);
      } else {
        WholeLongest(j, ip, ref, matchCode);
      }
    } else {
      SegmentLongest(j, ip, ref, matchCode);
    }
  }

  lemma SegmentLongest(j: Job, ip: nat, ref: int, n: nat)
    requires -|j.h| <= ref && ref + MINMATCH + n < 0 && ip + MINMATCH + n + LASTLITERALS < |j.src|
    requires j.src[ip + MINMATCH + n] != j.h[|j.h| + ref + MINMATCH + n]
    ensures Longest(j, ip, ref, MINMATCH + n)
  {
  }

  lemma AcrossLongest(j: Job, ip: nat, ref: int, n: nat, more: nat)
    requires -|j.h| <= ref < 0 && ref + MINMATCH + n == 0 && ip + MINMATCH + n + more + LASTLITERALS <= |j.src|
    requires ip + MINMATCH + n + more + LASTLITERALS < |j.src| ==> j.src[ip + MINMATCH + n + more] != j.src[more]
    ensures Longest(j, ip, ref, MINMATCH + (n + more))
  {
  }

  lemma WholeMatch(h: bytes, src: bytes, ip: nat, ref: int, n: nat)
    requires ref < ip && TrueMatch(h, src, ip, ip - ref, MINMATCH) && ip + MINMATCH + n <= |src|
    requires var all := h + src;
      forall t :: |h| + ip + MINMATCH <= t < |h| + ip + MINMATCH + n ==>
        all[t] == all[t - (|h| + ip + MINMATCH) + (|h| + ref + MINMATCH)]
    ensures TrueMatch(h, src, ip, ip - ref, MINMATCH + n)
  {
    var all := h + src;
    forall k | |h| + ip <= k < |h| + ip + MINMATCH + n ensures all[k] == all[k - (ip - ref)] {
    }
  }

  /** Within the dictionary segment. */
  lemma SegmentMatch(h: bytes, src: bytes, ip: nat, ref: int, n: nat)
    requires -|h| <= ref && ref + MINMATCH + n <= 0 && TrueMatch(h, src, ip, ip - ref, MINMATCH)
      && ip + MINMATCH + n <= |src|
    requires forall t :: ip + MINMATCH <= t < ip + MINMATCH + n ==>
      src[t] == h[t - (ip + MINMATCH) + (|h| + ref + MINMATCH)]
    ensures TrueMatch(h, src, ip, ip - ref, MINMATCH + n)
  {
    var all := h + src;
    forall k | |h| + ip <= k < |h| + ip + MINMATCH + n ensures all[k] == all[k - (ip - ref)] {
      if k >= |h| + ip + MINMATCH {
        var t := k - |h|;
        assert src[t] == h[t - (ip + MINMATCH) + (|h| + ref + MINMATCH)];
      }
    }
  }

  /** From the end of the dictionary on into the source. */
  lemma AcrossMatch(h: bytes, src: bytes, ip: nat, ref: int, n: nat, more: nat)
    requires ref < 0 && ref + MINMATCH + n == 0 && TrueMatch(h, src, ip, ip - ref, MINMATCH + n)
    requires ip + MINMATCH + n + more <= |src|
    requires forall t :: ip + MINMATCH + n <= t < ip + MINMATCH + n + more ==>
      src[t] == src[t - (ip + MINMATCH + n) + 0]
    ensures TrueMatch(h, src, ip, ip - ref, MINMATCH + (n + more))
  {
    var all := h + src;
    forall k | |h| + ip <= k < |h| + ip + MINMATCH + (n + more) ensures all[k] == all[k - (ip - ref)] {
      if k >= |h| + ip + MINMATCH + n {
        var t := k - |h|;
        assert src[t] == src[t - (ip + MINMATCH + n) + 0];
      }
    }
  }
}
