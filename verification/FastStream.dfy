/**
  LZ4_stream_t: the state that the greedy compressor keeps between calls, with resets, table
  re-use, dictionaries and linked blocks. Addresses are positions in one memory; 0 is NULL.
*/
module FastStream {
  import opened Bytes
  import opened BlockFormat
  import opened BlockRoundTrip
  import opened W = BlockWriter
  import opened WildCopy
  import opened HcEncoder
  import opened FastMatcher
  import opened FastEncoder
  import opened FastCompressor
  import opened FastGreedy
  import opened FrameHistory

  const HASH_SIZE_U32 := 4096
  const HASH_SIZE_U16 := 8192
  const ACCELERATION_MAX := 65537
  const KB4 := 4096
  const MAX_OFFSET := 0x8000_0000
  const U32 := 0x1_0000_0000  // currentOffset and the sums with it are U32

  datatype TableType = Cleared | Used(kind: Kind)

  function Slots(kind: Kind): nat {
    if kind == ByU32 then HASH_SIZE_U32 else HASH_SIZE_U16
  }

  function Acceleration(a: int): (r: nat)
    ensures 1 <= r <= ACCELERATION_MAX
  {
    if a < 1 then 1 else if a > ACCELERATION_MAX then ACCELERATION_MAX else a
  }

  /** Every entry is empty or lies at least eight bytes before the end of what was indexed. */
  ghost predicate EntriesOk(t: seq<nat>, currentOffset: nat) {
    forall k :: 0 <= k < |t| ==> t[k] == 0 || t[k] + HASH_UNIT <= currentOffset
  }

  ghost predicate AllZero(t: seq<nat>) {
    forall k :: 0 <= k < |t| ==> t[k] == 0
  }

  /** The table as a compression finds it. */
  lemma {:induction false} TableStart(j: Job, t: seq<nat>)
    requires 0 < j.slots <= |t| && EntriesOk(t, j.startIndex) && !j.gap
    ensures TableOk(j, t, 0)
  {
    forall k | 0 <= k < |t| ensures EntryOk(j, t[k], 0, k) {
    }
  }

  /** With a gap of 64 KB all older entries are out of reach. */
  lemma {:induction false} TableGap(j: Job, t: seq<nat>, before: nat)
    requires 0 < j.slots <= |t| && EntriesOk(t, before) && j.startIndex == before + KB64 && j.gap
    ensures TableOk(j, t, 0)
  {
    forall k | 0 <= k < |t| ensures EntryOk(j, t[k], 0, k) {
    }
  }

  /** And as it leaves it, also when it fails. */
  lemma {:induction false} TableEnd(j: Job, t: seq<nat>)
    requires TableOk(j, t, |j.src|)
    ensures EntriesOk(t, j.startIndex + |j.src|)
  {
    hide Slot;
    forall k | 0 <= k < |t| ensures t[k] == 0 || t[k] + HASH_UNIT <= j.startIndex + |j.src| {
      assert EntryOk(j, t[k], |j.src|, k);
    }
  }

  lemma {:induction false} NoSource(h: bytes, src: bytes, block: bytes)
    requires src == [] && block == [0]
    ensures IsBlockOf(h, src, block)
  {
    hide IsParse;
    var ss: seq<Seqn> := [];
    NoSourceParse(h, src, block, ss);
  }

  lemma {:induction false} NoSourceParse(h: bytes, src: bytes, block: bytes, ss: seq<Seqn>)
    requires src == [] && block == [0] && ss == []
    ensures IsParse(h, src, block, ss, src)
  {
    hide EncodeBlock, Content;
    EmptyEncoding(h, ss, src);
    assert h + src == h;
  }

  /** `d` is the end of `all`. */
  ghost predicate EndOf(d: bytes, all: bytes) {
    |d| <= |all| && all[|all| - |d|..] == d
  }

  lemma EndOfEnd(d: bytes, all: bytes, n: nat)
    requires EndOf(d, all) && n <= |d|
    ensures EndOf(d[|d| - n..], all)
  {
    assert all[|all| - n..] == all[|all| - |d|..][|d| - n..];
  }

  lemma EndOfMore(d: bytes, all: bytes, x: bytes)
    requires EndOf(d, all)
    ensures EndOf(d + x, all + x) && EndOf(x, all + x)
  {
  }

  /** A block after the end of a history is a block after the whole of it. */
  lemma {:induction false} BlockAfterAll(d: bytes, all: bytes, c: bytes, b: bytes)
    requires EndOf(d, all) && IsBlockOf(d, c, b)
    ensures IsBlockOf(all, c, b)
  {
    hide IsBlockOf;
    BlockShiftUp(all[..|all| - |d|], d, c, b);
    assert all[..|all| - |d|] + d == all;
  }

  // ----- The size of a block -----

  /** A compression under a limit: the size of the block, or 0 exactly when that is more than the limit. */
  function Within(total: nat, capacity: nat): nat {
    if total <= capacity then total else 0
  }

  function Zeros(): (t: seq<nat>)
    ensures |t| == HASH_SIZE_U16 && AllZero(t)
  {
    seq(HASH_SIZE_U16, _ => 0)
  }

  lemma ZerosOnly(t: seq<nat>)
    requires AllZero(t) && |t| == HASH_SIZE_U16
    ensures t == Zeros()
  {
  }

  function KindFor(n: nat): Kind {
    if n < LIMIT_64K then ByU16 else ByU32
  }

  /** The block of a source by itself, on the table `t` of earlier calls, which ended before `startIndex`. */
  function OnceRun(hash: (bytes, nat) -> nat, src: bytes, startIndex: nat, t: seq<nat>, acceleration: int): (r: Run)
    requires |t| == HASH_SIZE_U16
    ensures 0 < r.size
  {
    var kind := KindFor(|src|);
    var later := startIndex != 0;
    GreedyRun(Job(OnceHistory(), src, startIndex, NoDict, kind == ByU16 && later, kind, kind == ByU32 && later,
                   Slots(kind), hash), t, Acceleration(acceleration))
  }

  function OnceHistory(): bytes {
    []
  }

  lemma {:induction false} OnceBound(hash: (bytes, nat) -> nat, src: bytes, startIndex: nat, t: seq<nat>,
      acceleration: int)
    requires |t| == HASH_SIZE_U16
    ensures OnceRun(hash, src, startIndex, t, acceleration).size <= |src| + |src| / 255 + 2
  {
    hide GreedyRun;
    var kind := KindFor(|src|);
    var later := startIndex != 0;
    GreedyBound(Job(OnceHistory(), src, startIndex, NoDict, kind == ByU16 && later, kind, kind == ByU32 && later,
                    Slots(kind), hash), t, Acceleration(acceleration));
  }

  /** On a new state a run of one byte takes the bytes of one literal and one match, and five last literals: of
      1000 equal bytes a block of 14 bytes is made. The hash of a position is that of the bytes found there. */
  lemma {:induction false} OneByteBlock(hash: (bytes, nat) -> nat, src: bytes, b: byte, acceleration: int)
    requires MIN_LENGTH <= |src| && src == Repeat(b, |src|)
    requires hash(src, 0) == hash(src, 1)
    ensures OnceRun(hash, src, 0, Zeros(), acceleration).size == 10 + ExtensionSize(|src| - 10)
    ensures |src| == 1000 ==> OnceRun(hash, src, 0, Zeros(), acceleration).size == 14
  {
    hide GreedyRun;
    var kind := KindFor(|src|);
    OneByteRun(Job(OnceHistory(), src, 0, NoDict, false, kind, false, Slots(kind), hash), Zeros(),
               Acceleration(acceleration), b);
  }

  lemma ExactWithin(total: nat, limit: Limit, n: nat, capacity: nat, result: nat, consumed: nat)
    requires Exact(total, limit, n, capacity, result, consumed) && !limit.FillOutput?
    requires limit.NotLimited? ==> total <= capacity
    ensures result == Within(total, capacity)
  {
  }

  /** The dictionary as one linked call finds it: where it lies, how long it is, and what it ended at. */
  datatype Dict = Dict(start: nat, size: nat, end: nat)

  /** Whether LZ4_renormDictT scales the indices back. */
  predicate Rescales(x: nat, nextSize: nat) {
    (x + nextSize) % U32 > MAX_OFFSET
  }

  function RescaledTable(t: seq<nat>, x: nat, nextSize: nat): (t': seq<nat>)
    ensures |t'| == |t|
  {
    if Rescales(x, nextSize) && KB64 <= x then
      seq(|t|, k requires 0 <= k < |t| => if t[k] < x - KB64 then 0 else t[k] - (x - KB64))
    else t
  }

  /** After rescaling: at most 64 KB of the dictionary. */
  function RescaledDict(d: Dict, x: nat, nextSize: nat): (r: Dict)
    ensures r.start + r.size == d.start + d.size && r.end == d.end
  {
    if Rescales(x, nextSize) && KB64 < d.size then Dict(d.start + d.size - KB64, KB64, d.end) else d
  }

  /** A dictionary too short to be used is dropped; of one that the source overwrites, the part behind the
      source is kept. */
  function TrimmedDict(d: Dict, source: nat, n: nat): (r: Dict)
    ensures r.start + r.size <= Max(Max(d.start + d.size, d.end), source)
  {
    var e := if d.size < 4 && d.end != source && n > 0 then Dict(source, 0, source) else d;
    if e.start < source + n < e.end then
      var k := Min(e.end - (source + n), KB64);
      var kept := if k < 4 then 0 else k;
      Dict(e.end - kept, kept, e.end)
    else e
  }

  /** A dictionary that ends where the source begins is its prefix. */
  function ModeFor(d: Dict, source: nat): Mode {
    if d.end == source then WithPrefix64k else UsingExtDict
  }

  /** The linked block of `src` after a dictionary with the bytes `h`. */
  function LinkedRun(hash: (bytes, nat) -> nat, h: bytes, mode: Mode, src: bytes, startIndex: nat, t: seq<nat>,
                      acceleration: int): (r: Run)
    requires |t| == HASH_SIZE_U16
    ensures 0 < r.size
  {
    GreedyRun(Job(h, src, startIndex, mode, |h| < KB64 && |h| < startIndex, ByU32, false, Slots(ByU32), hash), t,
               Acceleration(acceleration))
  }

  // ----- The table of a dictionary -----

  /** Every third position from `p` on entered into a table, as an index before 64 KB. */
  function Indexed(t: seq<nat>, hash: (bytes, nat) -> nat, mem: bytes, p: nat, dictEnd: nat): (t': seq<nat>)
    requires |t| == HASH_SIZE_U16 && dictEnd <= p + KB64
    ensures |t'| == |t|
    decreases dictEnd - p
  {
    if p + HASH_UNIT > dictEnd then t
    else Indexed(t[hash(mem, p) % HASH_SIZE_U32 := KB64 - (dictEnd - p)], hash, mem, p + 3, dictEnd)
  }

  lemma {:induction false} IndexedGrows(t: seq<nat>, hash: (bytes, nat) -> nat, mem: bytes, p: nat, dictEnd: nat,
      k: nat)
    requires |t| == HASH_SIZE_U16 && dictEnd <= p + KB64 && k < |t|
    requires p <= dictEnd ==> t[k] <= KB64 - (dictEnd - p)
    ensures t[k] <= Indexed(t, hash, mem, p, dictEnd)[k]
    decreases dictEnd - p
  {
    if p + HASH_UNIT <= dictEnd {
      var t1 := t[hash(mem, p) % HASH_SIZE_U32 := KB64 - (dictEnd - p)];
      IndexedGrows(t1, hash, mem, p + 3, dictEnd, k);
    }
  }

  /** The whole dictionary can be found: in the slot of each of these positions stands it or a later one. */
  lemma {:induction false} DictIndexed(t: seq<nat>, hash: (bytes, nat) -> nat, mem: bytes, p: nat, dictEnd: nat, q: nat)
    requires |t| == HASH_SIZE_U16 && dictEnd <= p + KB64 && p <= q && (q - p) % 3 == 0 && q + HASH_UNIT <= dictEnd
    ensures KB64 - (dictEnd - q) <= Indexed(t, hash, mem, p, dictEnd)[hash(mem, q) % HASH_SIZE_U32]
    decreases q - p
  {
    var t1 := t[hash(mem, p) % HASH_SIZE_U32 := KB64 - (dictEnd - p)];
    if p == q {
      IndexedGrows(t1, hash, mem, p + 3, dictEnd, hash(mem, q) % HASH_SIZE_U32);
    } else {
      DictIndexed(t1, hash, mem, p + 3, dictEnd, q);
    }
  }

  class Stream {
    const hashTable: array<nat>
    const hash: (bytes, nat) -> nat
    var currentOffset: nat
    var tableType: TableType
    var dictionary: nat
    var dictSize: nat

    /** What every operation keeps. */
    ghost predicate Valid()
      reads this, hashTable
    {
      && hashTable.Length == HASH_SIZE_U16
      && EntriesOk(hashTable[..], currentOffset)
      && currentOffset < U32
      && (tableType.Cleared? ==> AllZero(hashTable[..]) && currentOffset % KB64 == 0)
    }

    /** Linked compression may go on: the dictionary is what was indexed last. */
    ghost predicate Linked(mem: array<byte>)
      reads this
    {
      && dictSize <= currentOffset && dictionary + dictSize <= mem.Length
      && (tableType.Used? ==> currentOffset <= MAX_OFFSET)
      && (tableType.Used? ==> tableType.kind == ByU32)
    }

    /** The index is not held up by a dictionary too short to be used: every source fits. */
    ghost predicate Early()
      reads this
    {
      && (tableType.Cleared? ==> currentOffset == 0)
      && (tableType == Used(ByU16) ==> currentOffset <= 2 * KB64)
    }

    lemma IndexBound()
      requires Valid()
      ensures currentOffset < U32
    {
    }

    lemma TableLength()
      requires Valid()
      ensures hashTable.Length == HASH_SIZE_U16
    {
    }

    lemma EarlyFits(n: nat)
      requires Early() && n <= MAX_INPUT_SIZE
      ensures IndexFits(n)
    {
    }

    lemma LinkedFits(mem: array<byte>)
      requires Linked(mem)
      ensures dictionary + dictSize <= mem.Length
    {
    }

    /** LZ4_createStream, LZ4_initStream */
    constructor (h: (bytes, nat) -> nat)
      ensures Valid() && fresh(hashTable) && currentOffset == 0 && dictSize == 0 && tableType.Cleared?
    {
      hashTable := new nat[HASH_SIZE_U16](_ => 0);
      hash := h;
      currentOffset, tableType, dictionary, dictSize := 0, Cleared, 0, 0;
    }

    method ZeroTable()
      modifies hashTable
      ensures AllZero(hashTable[..])
    {
      forall k | 0 <= k < hashTable.Length {
        hashTable[k] := 0;
      }
    }

    /** LZ4_resetStream */
    method Reset()
      requires Valid()
      modifies this, hashTable
      ensures Valid() && currentOffset == 0 && dictionary == 0 && dictSize == 0 && tableType.Cleared?
      ensures AllZero(hashTable[..])
    {
      ZeroTable();
      currentOffset, tableType, dictionary, dictSize := 0, Cleared, 0, 0;
    }

    /** Whether LZ4_prepareTable keeps a table that is not clear. */
    predicate Keeps(inputSize: nat, kind: Kind)
      reads this
    {
      && tableType == Used(kind) && inputSize < KB4
      && (kind == ByU16 ==> (currentOffset + inputSize) % U32 < 0xFFFF)
      && (kind == ByU32 ==> currentOffset <= GB1)
    }

    /** The index that the next source starts at. */
    function StartIndex(inputSize: nat, kind: Kind): nat
      reads this
    {
      var x := if tableType.Cleared? || Keeps(inputSize, kind) then currentOffset else 0;
      if kind == ByU32 && x != 0 then (x + KB64) % U32 else x
    }

    /** The table that the next source is compressed on. */
    ghost function TableFor(inputSize: nat, kind: Kind): (t: seq<nat>)
      reads this, hashTable
    {
      if tableType.Cleared? || Keeps(inputSize, kind) then hashTable[..] else Zeros()
    }

    /** LZ4_prepareTable. The table is kept when its entries are harmless. */
    method PrepareTable(inputSize: nat, kind: Kind) returns (ghost before: nat)
      requires Valid() && (tableType == Used(ByU16) && inputSize < KB4 ==> currentOffset + inputSize < U32)
      modifies this, hashTable
      ensures Valid() && dictionary == 0 && dictSize == 0
      ensures currentOffset == old(StartIndex(inputSize, kind))
      ensures tableType == if old(Keeps(inputSize, kind)) then Used(kind) else Cleared
      ensures EntriesOk(hashTable[..], before)
        && (currentOffset != 0 && kind == ByU32 ==> currentOffset == before + KB64)
      ensures hashTable[..] == old(TableFor(inputSize, kind))
    {
      hide AllZero, EntriesOk, Zeros;
      if !tableType.Cleared? {
        if tableType != Used(kind)
           || (kind == ByU16 && (currentOffset + inputSize) % U32 >= 0xFFFF)
           || (kind == ByU32 && currentOffset > GB1)
           || inputSize >= KB4 {
          ZeroTable();
          ZerosOnly(hashTable[..]);
          currentOffset, tableType := 0, Cleared;
          ZeroOk(hashTable[..], 0);
        }
      }
      before := currentOffset;
      if currentOffset != 0 && kind == ByU32 {
        currentOffset := (currentOffset + KB64) % U32;
        if tableType.Cleared? {
          ZeroOk(hashTable[..], currentOffset);
        } else {
          EntriesLater(hashTable[..], before, currentOffset);
        }
      }
      dictionary, dictSize := 0, 0;
    }

    /** LZ4_resetStream_fast */
    method ResetFast()
      requires Valid()
      modifies this, hashTable
      ensures Valid() && dictionary == 0 && dictSize == 0
      ensures tableType.Used? ==> tableType.kind == ByU32 && currentOffset <= GB1 + KB64 && old(tableType.Used?)
      ensures hashTable[..] == old(TableFor(0, ByU32))
      ensures tableType.Cleared? ==>
        currentOffset == if old(tableType.Used? || currentOffset == 0) then 0 else (old(currentOffset) + KB64) % U32
    {
      ghost var before := PrepareTable(0, ByU32);
    }

    /** The size of a block made on the table as it is. */
    ghost function RunNow(h: bytes, src: bytes, mode: Mode, small: bool, kind: Kind, gap: bool, acceleration: nat): Run
      requires hashTable.Length == HASH_SIZE_U16 && 1 <= acceleration
      reads this, hashTable
    {
      GreedyRun(Job(h, src, currentOffset, mode, small, kind, gap, Slots(kind), hash), hashTable[..], acceleration)
    }

    /** LZ4_compress_generic with its update of the state. */
    method Generic(h: bytes, src: bytes, dst: array<byte>, limit: Limit, kind: Kind, mode: Mode, small: bool, gap: bool,
                   acceleration: nat, ghost before: nat)
      returns (result: nat, consumed: nat)
      requires Valid() && 1 <= acceleration && (limit.NotLimited? ==> CompressBound(|src|) <= dst.Length)
      requires |src| > 0 ==> mode == UsingExtDict ==> |h| == 0 || MINMATCH <= |h|
      requires |h| <= currentOffset && (mode == NoDict ==> h == [])
      requires |src| <= MAX_INPUT_SIZE ==> currentOffset + |src| < U32
      requires kind == ByU16 ==>
        h == [] && (currentOffset + |src| < LIMIT_64K || LIMIT_64K <= |src| || (KB64 <= currentOffset && small))
      requires small || |h| == currentOffset || (kind == ByU32 && (KB64 <= |h| || gap))
      requires gap ==> EntriesOk(hashTable[..], before) && currentOffset == before + KB64
      modifies this`currentOffset, this`tableType, this`dictSize, hashTable, dst
      ensures Valid()
      ensures result > 0 ==>
        && result <= dst.Length && consumed <= |src| && IsBlockOf(h, src[..consumed], dst[..result])
        && result <= |src| + |src| / 255 + 2
      ensures !limit.FillOutput? && result > 0 ==> consumed == |src|
      ensures result == 0 ==>
        || (limit.LimitedOutput? && !WorstCase(|src|, dst.Length)) || (limit.FillOutput? && dst.Length == 0)
        || |src| > MAX_INPUT_SIZE || (kind == ByU16 && LIMIT_64K <= |src|)
      ensures if currentOffset == old(currentOffset) then
                dictSize == old(dictSize) && tableType == old(tableType)
              else
                currentOffset == old(currentOffset) + |src| && dictSize == old(dictSize) + |src|
                  && tableType == Used(kind)
      ensures 0 < |src| <= MAX_INPUT_SIZE && (kind == ByU32 || |src| < LIMIT_64K) && !limit.FillOutput? ==>
        currentOffset == old(currentOffset) + |src|
      ensures hashTable.Length == HASH_SIZE_U16
      ensures |src| <= MAX_INPUT_SIZE && (kind == ByU32 || |src| < LIMIT_64K) ==>
        var run := old(RunNow(h, src, mode, small, kind, gap, acceleration));
        && Exact(run.size, limit, |src|, dst.Length, result, consumed)
        && (result > 0 && !Tight(limit, run.size, dst.Length) ==> hashTable[..] == run.table)
    {
      hide AllZero, EntriesOk, TableOk, IsBlockOf, GreedyRun;
      consumed := 0;
      ghost var job := Job(h, src, currentOffset, mode, small, kind, gap, Slots(kind), hash);
      SizeOfNothing(job, hashTable[..], acceleration);
      if |src| > MAX_INPUT_SIZE { return 0, 0; }
      if |src| == 0 {
        if !limit.NotLimited? && dst.Length == 0 { return 0, 0; }
        dst[0] := 0;
        NoSource(h, src[..0], dst[..1]);
        return 1, 0;
      }
      if limit.FillOutput? && dst.Length < 1 { return 0, 0; }
      if kind == ByU16 && |src| >= LIMIT_64K { return 0, 0; }
      var j := Job(h, src, currentOffset, mode, small, kind, gap, Slots(kind), hash);
      if gap { TableGap(j, hashTable[..], before); } else { TableStart(j, hashTable[..]); }
      dictSize, currentOffset, tableType := dictSize + |src|, (currentOffset + |src|) % U32, Used(kind);
      result, consumed := CompressValidated(j, hashTable, dst, limit, acceleration);
      TableEnd(j, hashTable[..]);
    }

    lemma {:induction false} SizeOfNothing(j: Job, t: seq<nat>, acceleration: nat)
      requires Sized(j, t) && 1 <= acceleration
      ensures GreedyRun(j, t, acceleration).size <= |j.src| + |j.src| / 255 + 2
      ensures |j.src| == 0 ==> GreedyRun(j, t, acceleration) == Run(1, t)
    {
      hide SearchRun, Put;
      GreedyBound(j, t, acceleration);
    }

    // ----- One-shot compression -----

    /** The block that a one-shot compression leaves, which fails only for lack of room. */
    ghost predicate OneShot(src: bytes, dst: bytes, result: nat) {
      && (result > 0 ==>
            result <= |dst| && result <= |src| + |src| / 255 + 2 && IsBlockOf([], src, dst[..result]))
      && (result == 0 ==> |src| > MAX_INPUT_SIZE || |dst| < CompressBound(|src|))
    }

    /** LZ4_compress_fast_extState; LZ4_compress_fast and LZ4_compress_default call it on a new state. */
    method CompressFast(src: bytes, dst: array<byte>, acceleration: int) returns (result: nat)
      requires Valid()
      modifies this, hashTable, dst
      ensures Valid() && OneShot(src, dst[..], result)
      ensures |src| <= MAX_INPUT_SIZE ==>
        var run := OnceRun(hash, src, 0, Zeros(), acceleration);
        result == Within(run.size, dst.Length) && (result > 0 ==> hashTable[..] == run.table)
    {
      hide AllZero, EntriesOk, IsBlockOf, GreedyRun, Zeros;
      Reset();
      ZerosOnly(hashTable[..]);
      var limit := if dst.Length >= CompressBound(|src|) then NotLimited else LimitedOutput;
      var kind := KindFor(|src|);
      var consumed;
      result, consumed := Generic(OnceHistory(), src, dst, limit, kind, NoDict, false, false,
        Acceleration(acceleration), 0);
      OnceBound(hash, src, 0, Zeros(), acceleration);
      if |src| <= MAX_INPUT_SIZE {
        ExactWithin(OnceRun(hash, src, 0, Zeros(), acceleration).size, limit, |src|, dst.Length, result, consumed);
      }
      assert src[..|src|] == src;
    }

    /** The indices of a source of `n` bytes do not wrap around. */
    predicate IndexFits(n: nat)
      reads this
    {
      && (tableType == Used(ByU16) && n < KB4 ==> currentOffset + n < U32)
      && (tableType.Cleared? ==> StartIndex(n, if n < LIMIT_64K then ByU16 else ByU32) + n < U32)
    }

    /** The size of the block that a one-shot compression in this state makes of a source. */
    ghost function ResetRun(src: bytes, acceleration: int): (r: Run)
      requires hashTable.Length == HASH_SIZE_U16
      reads this, hashTable
      ensures 0 < r.size
    {
      var kind := KindFor(|src|);
      OnceRun(hash, src, StartIndex(|src|, kind), TableFor(|src|, kind), acceleration)
    }

    /** LZ4_compress_fast_extState_fastReset: the table of earlier calls is used again. */
    method CompressFastReset(src: bytes, dst: array<byte>, acceleration: int) returns (result: nat)
      requires Valid() && (|src| <= MAX_INPUT_SIZE ==> IndexFits(|src|))
      modifies this, hashTable, dst
      ensures Valid() && OneShot(src, dst[..], result)
      ensures 0 < |src| <= MAX_INPUT_SIZE ==> tableType == Used(if |src| < LIMIT_64K then ByU16 else ByU32)
      ensures |src| == 0 ==> tableType == if old(Keeps(0, ByU16)) then Used(ByU16) else Cleared
      ensures |src| < LIMIT_64K ==> currentOffset == old(StartIndex(|src|, ByU16)) + |src|
      ensures |src| <= MAX_INPUT_SIZE ==>
        var run := old(ResetRun(src, acceleration));
        result == Within(run.size, dst.Length) && (result > 0 ==> hashTable[..] == run.table)
    {
      hide AllZero, EntriesOk, IsBlockOf, GreedyRun, Zeros;
      ghost var total := ResetRun(src, acceleration).size;
      OnceBound(hash, src, StartIndex(|src|, KindFor(|src|)), TableFor(|src|, KindFor(|src|)), acceleration);
      var limit := if dst.Length >= CompressBound(|src|) then NotLimited else LimitedOutput;
      var consumed;
      if |src| < LIMIT_64K {
        ghost var before := PrepareTable(|src|, ByU16);
        result, consumed := Generic(OnceHistory(), src, dst, limit, ByU16, NoDict, currentOffset != 0, false,
          Acceleration(acceleration), 0);
      } else {
        ghost var before := PrepareTable(|src|, ByU32);
        result, consumed := Generic(OnceHistory(), src, dst, limit, ByU32, NoDict, false, currentOffset != 0,
          Acceleration(acceleration), before);
      }
      if |src| <= MAX_INPUT_SIZE { ExactWithin(total, limit, |src|, dst.Length, result, consumed); }
      assert src[..|src|] == src;
    }

    /** LZ4_compress_destSize: as much of the source as fits, and how much that is. */
    method CompressDestSize(src: bytes, dst: array<byte>) returns (result: nat, consumed: nat)
      requires Valid()
      modifies this, hashTable, dst
      ensures Valid()
      ensures result > 0 ==>
        result <= dst.Length && consumed <= |src| && IsBlockOf([], src[..consumed], dst[..result])
      ensures result == 0 ==> |src| > MAX_INPUT_SIZE || dst.Length == 0
      ensures |src| <= MAX_INPUT_SIZE ==>
        Exact(OnceRun(hash, src, 0, Zeros(), 1).size, FillOutput, |src|, dst.Length, result, consumed)
    {
      hide AllZero, EntriesOk, IsBlockOf, GreedyRun, Zeros;
      Reset();
      ZerosOnly(hashTable[..]);
      if dst.Length >= CompressBound(|src|) {
        OnceBound(hash, src, 0, Zeros(), 1);
        result := CompressFast(src, dst, 1);
        consumed := |src|;
        assert src[..|src|] == src;
      } else {
        var kind := KindFor(|src|);
        result, consumed := Generic(OnceHistory(), src, dst, FillOutput, kind, NoDict, false, false, 1, 0);
      }
    }

    // ----- Dictionaries -----

    /** LZ4_loadDict */
    method LoadDict(mem: array<byte>, dict: nat, size: nat) returns (kept: nat)
      requires Valid() && 0 < dict && dict + size <= mem.Length
      modifies this, hashTable
      ensures Valid() && Linked(mem)
      ensures kept == if size < HASH_UNIT then 0 else Min(size, KB64)
      ensures dictSize == kept && (kept > 0 ==> dictionary + dictSize == dict + size)
      ensures currentOffset == KB64 && tableType == if size < HASH_UNIT then Cleared else Used(ByU32)
      ensures hashTable[..] ==
        if size < HASH_UNIT then Zeros() else Indexed(Zeros(), hash, mem[..], dict + size - kept, dict + size)
    {
      hide AllZero, EntriesOk, Zeros, Indexed;
      Reset();
      ZerosOnly(hashTable[..]);
      currentOffset := KB64;
      ZeroOk(hashTable[..], currentOffset);
      if size < HASH_UNIT { return 0; }
      var p, dictEnd := dict, dict + size;
      if dictEnd - p > KB64 { p := dictEnd - KB64; }
      dictionary, dictSize, tableType := p, dictEnd - p, Used(ByU32);
      kept := dictSize;
      IndexDict(mem, p, dictEnd);
    }

    /** Every third position of a dictionary of at most 64 KB enters the table. */
    method IndexDict(mem: array<byte>, p0: nat, dictEnd: nat)
      requires EntriesOk(hashTable[..], KB64) && hashTable.Length == HASH_SIZE_U16
      requires p0 <= dictEnd <= p0 + KB64 && dictEnd <= mem.Length
      modifies hashTable
      ensures EntriesOk(hashTable[..], KB64)
      ensures hashTable[..] == old(Indexed(hashTable[..], hash, mem[..], p0, dictEnd))
    {
      hide EntriesOk;
      ghost var goal := Indexed(hashTable[..], hash, mem[..], p0, dictEnd);
      var p := p0;
      while p <= dictEnd - HASH_UNIT
        invariant p0 <= p && EntriesOk(hashTable[..], KB64)
        invariant Indexed(hashTable[..], hash, mem[..], p, dictEnd) == goal
      {
        var k := hash(mem[..], p) % HASH_SIZE_U32;
        var index: nat := KB64 - (dictEnd - p);
        ghost var was := hashTable[..];
        hashTable[k] := index;
        assert hashTable[..] == was[k := index];
        PutEntry(was, k, index, KB64);
        p := p + 3;
      }
    }

    /** LZ4_saveDict: the end of the dictionary moves to a safe place, which may overlap it. */
    method SaveDict(mem: array<byte>, safe: nat, size: nat, ghost all: bytes) returns (kept: nat)
      requires Valid() && Linked(mem) && safe + size <= mem.Length
      requires EndOf(mem[dictionary..dictionary + dictSize], all)
      modifies this`dictionary, this`dictSize, mem
      ensures Valid() && Linked(mem) && dictionary == safe && dictSize == kept
      ensures kept == Min(Min(size, KB64), old(dictSize))
      ensures EndOf(mem[safe..safe + kept], all)
      ensures forall i :: 0 <= i < mem.Length && !(safe <= i < safe + kept) ==> mem[i] == old(mem[i])
    {
      hide AllZero, EntriesOk, EndOf;
      kept := Min(size, KB64);
      if kept > dictSize { kept := dictSize; }
      var previousDictEnd := dictionary + dictSize;
      DictTail(mem[..], dictionary, dictSize, kept, all);
      if kept > 0 {
        Memmove(mem, safe, previousDictEnd - kept, kept);
      }
      dictionary, dictSize := safe, kept;
    }

    // ----- Linked blocks -----

    /** LZ4_renormDictT: indices are scaled back before they overflow. */
    method Renorm(mem: array<byte>, nextSize: nat)
      requires Valid() && Linked(mem) && nextSize <= MAX_INPUT_SIZE && currentOffset + nextSize < U32
      modifies this`currentOffset, this`dictSize, this`dictionary, hashTable
      ensures Valid() && Linked(mem) && currentOffset + nextSize <= MAX_OFFSET
      ensures dictionary + dictSize == old(dictionary + dictSize)
      ensures dictSize == old(dictSize) || dictSize == KB64 < old(dictSize)
      ensures currentOffset == Renormed(old(currentOffset), nextSize)
      ensures Dict(dictionary, dictSize, old(DictEnd()))
        == old(RescaledDict(Dict(dictionary, dictSize, DictEnd()), currentOffset, nextSize))
      ensures hashTable[..] == RescaledTable(old(hashTable[..]), old(currentOffset), nextSize)
    {
      hide AllZero, EntriesOk;
      if (currentOffset + nextSize) % U32 > MAX_OFFSET {
        Rescale(currentOffset - KB64);
        var dictEnd := dictionary + dictSize;
        currentOffset := KB64;
        if dictSize > KB64 { dictSize := KB64; }
        dictionary := dictEnd - dictSize;
      }
    }

    method Rescale(delta: nat)
      requires Valid() && currentOffset == delta + KB64
      modifies hashTable
      ensures EntriesOk(hashTable[..], KB64) && (tableType.Cleared? ==> AllZero(hashTable[..]))
      ensures forall k :: 0 <= k < hashTable.Length ==>
        hashTable[k] == if old(hashTable[k]) < delta then 0 else old(hashTable[k]) - delta
    {
      ghost var was := hashTable[..];
      var i := 0;
      while i < hashTable.Length
        invariant 0 <= i <= hashTable.Length
        invariant forall k :: 0 <= k < i ==> hashTable[k] == if was[k] < delta then 0 else was[k] - delta
        invariant forall k :: i <= k < hashTable.Length ==> hashTable[k] == was[k]
      {
        if hashTable[i] < delta { hashTable[i] := 0; } else { hashTable[i] := hashTable[i] - delta; }
        i := i + 1;
      }
    }

    /** The end of the dictionary, if there is one. */
    function DictEnd(): nat
      reads this
    {
      if dictSize == 0 then 0 else dictionary + dictSize
    }

    /** The part of the dictionary that the source has not overwritten. */
    function Intact(source: nat, n: nat): nat
      reads this
    {
      IntactPart(dictionary, dictSize, source, n)
    }

    /** "invalidate tiny dictionaries", "Check overlapping input/dictionary space" */
    method TrimDict(mem: array<byte>, source: nat, n: nat, dictEnd0: nat) returns (dictEnd: nat)
      requires Valid() && Linked(mem) && 0 < source && source + n <= mem.Length && dictEnd0 == DictEnd()
      modifies this`dictSize, this`dictionary
      ensures Valid() && Linked(mem)
      ensures dictEnd == dictEnd0 == dictionary + dictSize || (dictSize == 0 && dictEnd0 == 0 == dictEnd)
              || (dictSize == 0 && dictEnd == dictionary == source)
      ensures dictSize == 0 || dictSize <= old(Intact(source, n))
      ensures dictEnd != source && n > 0 ==> dictSize == 0 || MINMATCH <= dictSize
      ensures dictionary == source || old(dictionary) <= dictionary
      ensures Dict(dictionary, dictSize, dictEnd)
        == TrimmedDict(Dict(old(dictionary), old(dictSize), dictEnd0), source, n)
    {
      hide AllZero, EntriesOk;
      dictEnd := dictEnd0;
      if dictSize < 4 && dictEnd != source && n > 0 {
        dictSize, dictionary := 0, source;
        dictEnd := source;
      }
      var sourceEnd := source + n;
      if sourceEnd > dictionary && sourceEnd < dictEnd {
        dictSize := dictEnd - sourceEnd;
        if dictSize > KB64 { dictSize := KB64; }
        if dictSize < 4 { dictSize := 0; }
        dictionary := dictEnd - dictSize;
      }
    }

    /** The dictionary that the next source finds. */
    function NextDict(source: nat, n: nat): Dict
      reads this
    {
      TrimmedDict(RescaledDict(Dict(dictionary, dictSize, DictEnd()), currentOffset, n), source, n)
    }

    /** The dictionary made ready for a source: what is left of it is the end of the history. */
    method Arrange(mem: array<byte>, source: nat, n: nat, ghost all: bytes) returns (dictEnd: nat)
      requires Valid() && Linked(mem) && 0 < source && source + n <= mem.Length && n <= MAX_INPUT_SIZE
      requires currentOffset + n < U32
      requires var k := Intact(source, n);
        k <= dictSize && EndOf(mem[dictionary + dictSize - k..dictionary + dictSize], all)
      modifies this`currentOffset, this`dictSize, this`dictionary, hashTable
      ensures Valid() && Linked(mem) && currentOffset + n <= MAX_OFFSET
      ensures EndOf(mem[dictionary..dictionary + dictSize], all)
      ensures dictEnd == source ==> dictionary + dictSize == source
      ensures dictEnd == source ==> dictionary == source || (old(dictionary) <= dictionary && old(DictEnd()) == source)
      ensures currentOffset == Renormed(old(currentOffset), n)
      ensures dictEnd != source && n > 0 ==> dictSize == 0 || MINMATCH <= dictSize
      ensures Dict(dictionary, dictSize, dictEnd) == old(NextDict(source, n))
      ensures hashTable[..] == RescaledTable(old(hashTable[..]), old(currentOffset), n)
    {
      hide AllZero, EntriesOk, EndOf, IntactPart, TrimmedDict, RescaledDict, RescaledTable;
      ghost var d0, z0 := dictionary, dictSize;
      dictEnd := DictEnd();
      Renorm(mem, n);
      IntactLess(d0, z0, dictionary, dictSize, source, n);
      dictEnd := TrimDict(mem, source, n, dictEnd);
      DictIsEnd(mem[..], d0 + z0, IntactPart(d0, z0, source, n), dictionary, dictSize,
        mem[dictionary..dictionary + dictSize], all);
    }

    /** The size of the block that the next linked compression makes. */
    ghost function NextRun(mem: array<byte>, source: nat, n: nat, acceleration: int): (r: Run)
      requires hashTable.Length == HASH_SIZE_U16 && dictionary + dictSize <= mem.Length && source + n <= mem.Length
      reads this, hashTable, mem
      ensures 0 < r.size
    {
      var d := NextDict(source, n);
      LinkedRun(hash, mem[d.start..d.start + d.size], ModeFor(d, source), mem[source..source + n],
                 Renormed(currentOffset, n), RescaledTable(hashTable[..], currentOffset, n), acceleration)
    }

    /** LZ4_compress_fast_continue. The block refers to what is left of the dictionary, which is the end
        of the history `all`; dictionary and source together are the dictionary of the next call. */
    method Continue(mem: array<byte>, source: nat, n: nat, dst: array<byte>, acceleration: int, ghost all: bytes)
      returns (result: nat)
      requires Valid() && Linked(mem) && 0 < source && source + n <= mem.Length && n <= MAX_INPUT_SIZE && dst != mem
      requires tableType.Cleared? && n > 0 ==> currentOffset + n < U32
      requires var k := Intact(source, n);
        k <= dictSize && EndOf(mem[dictionary + dictSize - k..dictionary + dictSize], all)
      modifies this, hashTable, dst
      ensures Valid() && Linked(mem)
      ensures result > 0 ==> result <= dst.Length && IsBlockOf(all, mem[source..source + n], dst[..result])
      ensures result <= n + n / 255 + 2
      ensures result == 0 ==> dst.Length < CompressBound(n)
      ensures EndOf(mem[dictionary..dictionary + dictSize], all + mem[source..source + n])
      ensures n > 0 ==> dictionary + dictSize == source + n && n <= dictSize
      ensures n > 0 ==> dictionary == source || (old(dictionary) <= dictionary && old(dictionary + dictSize) == source)
      ensures n > 0 ==> tableType.Used?
      ensures n == 0 ==> tableType == old(tableType) && currentOffset == Renormed(old(currentOffset), 0)
      ensures n == 0 ==>
        dictSize == 0 || (old(dictionary) <= dictionary && dictionary + dictSize == old(dictionary + dictSize))
      ensures old(DictEnd()) != source ==> dictionary == source && dictSize == n
      ensures var run := old(NextRun(mem, source, n, acceleration));
        result == Within(run.size, dst.Length) && (result > 0 ==> hashTable[..] == run.table)
    {
      hide Valid, IsBlockOf, EndOf, Intact, NextDict, LinkedRun, RescaledTable, Within;
      assert hashTable.Length == HASH_SIZE_U16 && currentOffset < U32 by { TableLength(); IndexBound(); }
      ghost var total := NextRun(mem, source, n, acceleration);
      var dictEnd := Arrange(mem, source, n, all);
      assert total == LinkedRun(hash, mem[dictionary..dictionary + dictSize],
                                 ModeFor(Dict(dictionary, dictSize, dictEnd), source), mem[source..source + n],
                                 currentOffset, hashTable[..], acceleration);
      result := ContinueAfter(mem, source, n, dst, acceleration, dictEnd, all);
    }

    /** The block after the dictionary, which then ends with its source or is replaced by it. */
    method ContinueAfter(mem: array<byte>, source: nat, n: nat, dst: array<byte>, acceleration: int, dictEnd: nat,
                         ghost all: bytes)
      returns (result: nat)
      requires Valid() && Linked(mem) && source + n <= mem.Length && n <= MAX_INPUT_SIZE && dst != mem
      requires currentOffset + n <= MAX_OFFSET && EndOf(mem[dictionary..dictionary + dictSize], all)
      requires dictEnd == source ==> dictionary + dictSize == source
      requires dictEnd != source && n > 0 ==> dictSize == 0 || MINMATCH <= dictSize
      modifies this, hashTable, dst
      ensures Valid() && Linked(mem)
      ensures result > 0 ==> result <= dst.Length && IsBlockOf(all, mem[source..source + n], dst[..result])
      ensures result <= n + n / 255 + 2
      ensures result == 0 ==> dst.Length < CompressBound(n)
      ensures EndOf(mem[dictionary..dictionary + dictSize], all + mem[source..source + n])
      ensures if dictEnd == source then dictionary == old(dictionary) && dictSize == old(dictSize) + n
        else dictionary == source && dictSize == n
      ensures currentOffset == old(currentOffset) + n
      ensures tableType == if n > 0 then Used(ByU32) else old(tableType)
      ensures hashTable.Length == HASH_SIZE_U16
      ensures var run := old(LinkedRun(hash, mem[dictionary..dictionary + dictSize],
                                       ModeFor(Dict(dictionary, dictSize, dictEnd), source), mem[source..source + n],
                                       currentOffset, hashTable[..], acceleration));
        result == Within(run.size, dst.Length) && (result > 0 ==> hashTable[..] == run.table)
    {
      hide AllZero, EntriesOk, IsBlockOf, EndOf, LinkedRun, Within;
      var h, src := mem[dictionary..dictionary + dictSize], mem[source..source + n];
      EndOfMore(h, all, src);
      if dictEnd == source {
        assert mem[dictionary..dictionary + dictSize + n] == h + src;
        result := Dispatch(h, src, dst, WithPrefix64k, acceleration);
      } else {
        result := Dispatch(h, src, dst, UsingExtDict, acceleration);
        dictionary, dictSize := source, n;
      }
      if result > 0 { BlockAfterAll(h, all, src, dst[..result]); }
    }

    /** Whether candidates may lie before the dictionary decides on the test for it. */
    method Dispatch(h: bytes, src: bytes, dst: array<byte>, mode: Mode, acceleration: int)
      returns (result: nat)
      requires Valid() && |h| == dictSize <= currentOffset && mode != NoDict && |src| <= MAX_INPUT_SIZE
      requires currentOffset + |src| < U32
      requires |src| > 0 && mode == UsingExtDict ==> |h| == 0 || MINMATCH <= |h|
      modifies this`currentOffset, this`tableType, this`dictSize, hashTable, dst
      ensures Valid() && (result > 0 ==> result <= dst.Length && IsBlockOf(h, src, dst[..result]))
      ensures result <= |src| + |src| / 255 + 2
      ensures result == 0 ==> dst.Length < CompressBound(|src|)
      ensures currentOffset == old(currentOffset) + |src| && dictSize == old(dictSize) + |src|
      ensures tableType == if |src| > 0 then Used(ByU32) else old(tableType)
      ensures hashTable.Length == HASH_SIZE_U16
      ensures var run := old(LinkedRun(hash, h, mode, src, currentOffset, hashTable[..], acceleration));
        result == Within(run.size, dst.Length) && (result > 0 ==> hashTable[..] == run.table)
    {
      hide IsBlockOf, Valid, GreedyRun;
      TableLength();
      var small := dictSize < KB64 && dictSize < currentOffset;
      var consumed;
      result, consumed := Generic(h, src, dst, LimitedOutput, ByU32, mode, small, false, Acceleration(acceleration), 0);
      assert src[..|src|] == src;
    }
  }

  /** The index that LZ4_renormDictT leaves. */
  function Renormed(x: nat, nextSize: nat): nat {
    if (x + nextSize) % U32 > MAX_OFFSET then KB64 else x
  }

  /** The sum that decides about rescaling wraps around itself: then nothing is rescaled, and exactly then
      the indices of the source wrap around. */
  lemma RescaledInTime(x: nat, n: nat)
    requires x < U32 && n <= MAX_INPUT_SIZE
    ensures Renormed(x, n) + n < U32 <==> x + n < U32
  {
  }

  /** An input that shows it: at index 0xFFFF0000 a source of 65548 bytes is not rescaled, and of two positions
      that the search visits the later one has the smaller index. */
  lemma IndicesWrap(x: nat, n: nat)
    requires x == 0xFFFF_0000 && n == 65548
    ensures Renormed(x, n) == x
    ensures (x + 65536) % U32 < (x + 65535) % U32 && 65536 + 12 <= n
  {
  }

  /** What a source that ends within a dictionary leaves of it. */
  function IntactPart(dictionary: nat, dictSize: nat, source: nat, n: nat): nat {
    var dictEnd := if dictSize == 0 then 0 else dictionary + dictSize;
    if dictionary < source + n < dictEnd then dictEnd - (source + n) else dictSize
  }

  lemma IntactLess(d0: nat, z0: nat, d: nat, z: nat, source: nat, n: nat)
    requires d + z == d0 + z0 && (z == z0 || z == KB64 < z0)
    ensures IntactPart(d, z, source, n) <= IntactPart(d0, z0, source, n) <= z0
  {
  }

  /** What is left of the dictionary is the end of the history. */
  lemma DictIsEnd(mem: bytes, end: nat, k: nat, dictionary: nat, size: nat, h: bytes, all: bytes)
    requires k <= end <= |mem| && EndOf(mem[end - k..end], all)
    requires dictionary + size <= |mem| && h == mem[dictionary..dictionary + size]
    requires size == 0 || (dictionary + size == end && size <= k)
    ensures EndOf(h, all)
  {
    if size > 0 {
      EndOfEnd(mem[end - k..end], all, size);
      SubSlice(mem, end - k, end, k - size, k);
    }
  }

  /** memmove: the regions may overlap. */
  method Memmove(mem: array<byte>, d: nat, s: nat, n: nat)
    requires d + n <= mem.Length && s + n <= mem.Length
    modifies mem
    ensures mem[d..d + n] == old(mem[s..s + n])
    ensures forall i :: 0 <= i < mem.Length && !(d <= i < d + n) ==> mem[i] == old(mem[i])
  {
    forall k | 0 <= k < n {
      mem[d + k] := mem[s + k];
    }
  }

  lemma DictTail(mem: bytes, d: nat, size: nat, kept: nat, all: bytes)
    requires d + size <= |mem| && EndOf(mem[d..d + size], all) && kept <= size
    ensures EndOf(mem[d + size - kept..d + size], all)
    ensures kept == 0 ==> forall i :: 0 <= i <= |mem| ==> EndOf(mem[i..i], all)
  {
    EndOfEnd(mem[d..d + size], all, kept);
    SubSlice(mem, d, d + size, size - kept, size);
  }

  lemma PutEntry(t: seq<nat>, k: nat, index: nat, n: nat)
    requires EntriesOk(t, n) && k < |t| && index + HASH_UNIT <= n
    ensures EntriesOk(t[k := index], n)
  {
  }

  lemma ZeroOk(t: seq<nat>, n: nat)
    requires AllZero(t)
    ensures EntriesOk(t, n)
  {
  }

  lemma EntriesLater(t: seq<nat>, n: nat, m: nat)
    requires EntriesOk(t, n) && n <= m
    ensures EntriesOk(t, m)
  {
  }
}
