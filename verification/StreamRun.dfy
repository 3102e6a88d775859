/**
  Whole runs of a compression stream: resets, table re-use by one-shot calls, dictionaries loaded and
  saved, linked blocks and writes of the caller to its memory, in any order the documentation allows.
*/
module StreamRun {
  import opened Bytes
  import opened BlockWriter
  import opened FastMatcher
  import opened FastStream

  /** A part of the memory. */
  datatype Region = Region(at: nat, size: nat)

  /** What a caller does. The source of a linked block is written to its place first, which may be the
      place of an older part of the dictionary. */
  datatype Op =
    | Restart                                                      // LZ4_resetStream
    | RestartFast                                                  // LZ4_resetStream_fast
    | Load(dict: Region)                                           // LZ4_loadDict
    | Save(safe: Region)                                           // LZ4_saveDict
    | Write(place: nat, bytes: bytes)
    | Single(src: Region, room: nat, acceleration: int)            // LZ4_compress_fast_extState_fastReset
    | Linked(at: nat, data: bytes, room: nat, acceleration: int)   // LZ4_compress_fast_continue

  /** What an operation came to. */
  datatype Event = Restarted | Loaded(dict: bytes) | Kept | Alone(src: bytes, block: bytes) | Sent(src: bytes,
    block: bytes)

  ghost predicate RegionOk(r: Region, size: nat) {
    0 < r.at && r.at + r.size <= size && r.size <= MAX_INPUT_SIZE
  }

  /** The operation stays within a memory of `size` bytes and the sizes of the format. */
  ghost predicate OpOk(op: Op, size: nat) {
    match op
    case Load(r) => RegionOk(r, size)
    case Save(r) => RegionOk(r, size)
    case Write(at, data) => RegionOk(Region(at, |data|), size)
    case Single(r, _, _) => RegionOk(r, size)
    case Linked(at, data, _, _) => RegionOk(Region(at, |data|), size)
    case _ => true
  }

  // ----- What may come next -----

  /** Where the dictionary lies: it begins at `start` or later, and ends between the two ends. */
  datatype Span = Nowhere | Somewhere(start: nat, endMin: nat, endMax: nat)

  /** What is known of the index that the stream goes on from. `Idle(k)`: a dictionary too short to be used was
      loaded, and that and the fast resets since have come to `k` times 64 KB on a clear table. `Tail(x)`: a
      small one-shot source has then been indexed up to `x`. */
  datatype Index = Small | Idle(k: nat) | Tail(x: nat)

  /** `linked`: saves and linked blocks may follow, as after a reset or a dictionary. */
  datatype Mode = Mode(linked: bool, index: Index, dict: Span)

  /** Nothing of the dictionary is overwritten. */
  predicate Free(d: Span, at: nat, n: nat) {
    n == 0 || d.Nowhere? || at + n <= d.start || d.endMax <= at
  }

  /** A source may overwrite the dictionary, but not its end. */
  predicate SourceFree(d: Span, at: nat, n: nat) {
    n == 0 || d.Nowhere? || at + n < d.endMin || d.endMax <= at
  }

  /** A linked block of `n` bytes does not make the index wrap around. */
  predicate LinkedFits(i: Index, n: nat) {
    n == 0 || !i.Idle? || KB64 * i.k + n < U32
  }

  /** Nor does a block of its own. */
  predicate SingleFits(i: Index, n: nat) {
    match i
    case Small => true
    case Idle(k) => if n < LIMIT_64K then KB64 * k + n < U32 else KB64 * (k + 1) % U32 + n < U32
    case Tail(x) => n < KB4 ==> x + n < U32
  }

  /** Saves and linked blocks follow a reset or a dictionary, writes keep off the dictionary and sources off
      its end, and no index reaches 2^32. */
  predicate Allowed(op: Op, m: Mode) {
    match op
    case Save(_) => m.linked
    case Write(at, data) => Free(m.dict, at, |data|)
    case Single(r, _, _) => SingleFits(m.index, r.size)
    case Linked(at, data, _, _) =>
      m.linked && SourceFree(m.dict, at, |data|) && LinkedFits(m.index, |data|)
    case _ => true
  }

  function Load64(r: Region): nat {
    Min(r.size, KB64)
  }

  function IdleMore(i: Index): Index {
    if i.Idle? && (i.k + 1) * KB64 < U32 then Idle(i.k + 1) else Small
  }

  function IndexAfterSingle(i: Index, n: nat): Index {
    if !i.Idle? || n >= LIMIT_64K then Small else if n == 0 then i else Tail(KB64 * i.k + n)
  }

  function IndexAfterLinked(i: Index, n: nat): Index {
    if !i.Idle? || n > 0 then Small else if KB64 * i.k > MAX_OFFSET then Idle(1) else i
  }

  function After(op: Op, m: Mode): Mode {
    match op
    case Restart => Mode(true, Small, Nowhere)
    case RestartFast => Mode(true, IdleMore(m.index), Nowhere)
    case Load(r) =>
      if r.size < HASH_UNIT then Mode(true, Idle(1), Nowhere)
      else Mode(true, Small, Somewhere(r.at + r.size - Load64(r), r.at + r.size, r.at + r.size))
    case Save(r) => Mode(true, m.index, Somewhere(r.at, r.at + 1, r.at + Load64(r)))
    case Write(_, _) => m
    case Single(r, _, _) => Mode(false, IndexAfterSingle(m.index, r.size), Nowhere)
    case Linked(at, data, _, _) =>
      var index := IndexAfterLinked(m.index, |data|);
      if |data| == 0 then m.(index := index)
      else
        var start := if m.dict.Somewhere? && m.dict.endMin <= at <= m.dict.endMax then Min(m.dict.start, at) else at;
        Mode(true, index, Somewhere(start, at + |data|, at + |data|))
  }

  function ModeAt(ops: seq<Op>, n: nat): Mode
    requires n <= |ops|
  {
    if n == 0 then Mode(true, Small, Nowhere) else After(ops[n - 1], ModeAt(ops, n - 1))
  }

  /** Fast resets after a dictionary of less than 8 bytes, with nothing compressed in between. */
  predicate IdleRun(ops: seq<Op>) {
    && 0 < |ops| && ops[0].Load? && ops[0].dict.size < HASH_UNIT
    && forall i :: 0 < i < |ops| ==> ops[i].RestartFast?
  }

  /** Each adds 64 KB, until the index wraps around to that of a new stream. */
  lemma {:induction false} IdleReached(ops: seq<Op>, n: nat)
    requires IdleRun(ops) && 0 < n <= |ops|
    ensures ModeAt(ops, n) == Mode(true, if n < 65536 then Idle(n) else Small, Nowhere)
  {
    if n > 1 { IdleReached(ops, n - 1); }
  }

  /** The only blocks that are not allowed then: exactly those whose last index would be 2^32 or more. */
  lemma IdleAllows(ops: seq<Op>, at: nat, data: bytes, room: nat, acceleration: int)
    requires IdleRun(ops) && |data| > 0
    ensures Allowed(Linked(at, data, room, acceleration), ModeAt(ops, |ops|)) <==>
            |ops| >= 65536 || 65536 * |ops| + |data| < U32
  {
    IdleReached(ops, |ops|);
  }

  // ----- What comes out -----

  function HistoryNext(e: Event, h: bytes): bytes {
    match e
    case Restarted => []
    case Loaded(dict) => dict
    case Kept => h
    case Alone(_, _) => []
    case Sent(src, _) => h + src
  }

  /** The history a decoder has to hold for the next block: what was loaded or presented since the last
      reset, blocks that failed included. */
  function HistoryAt(events: seq<Event>, n: nat): bytes
    requires n <= |events|
  {
    if n == 0 then [] else HistoryNext(events[n - 1], HistoryAt(events, n - 1))
  }

  function Slice(mem: bytes, r: Region): bytes
    requires r.at + r.size <= |mem|
  {
    mem[r.at..r.at + r.size]
  }

  /** A block of `src` after `h`; it is missing only when the room is less than the worst case. */
  ghost predicate BlockIn(h: bytes, src: bytes, block: bytes, room: nat) {
    if block == [] then room < CompressBound(|src|) else |block| <= room && IsBlockOf(h, src, block)
  }

  /** The event is what the operation asked for, and its block decodes after the history `h`. */
  ghost predicate Honest(op: Op, e: Event, h: bytes, mem: bytes)
    requires OpOk(op, |mem|)
  {
    match op
    case Restart => e == Restarted
    case RestartFast => e == Restarted
    case Load(r) => e == Loaded(Slice(mem, r))
    case Save(_) => e == Kept
    case Write(_, _) => e == Kept
    case Single(r, room, _) => e.Alone? && e.src == Slice(mem, r) && BlockIn([], e.src, e.block, room)
    case Linked(at, data, room, _) => e.Sent? && e.src == data && BlockIn(h, data, e.block, room)
  }

  /** What an operation does to the memory. */
  ghost predicate MemoryAfter(op: Op, was: bytes, now: bytes) {
    && |was| == |now|
    && match op
       case Save(r) => Elsewhere(r, was, now)
       case Write(at, data) => Elsewhere(Region(at, |data|), was, now) && at + |data| <= |now|
         && now[at..at + |data|] == data
       case Linked(at, data, _, _) =>
         Elsewhere(Region(at, |data|), was, now) && at + |data| <= |now| && now[at..at + |data|] == data
       case _ => now == was
  }

  ghost predicate Elsewhere(r: Region, was: bytes, now: bytes) {
    |was| == |now| && forall i :: 0 <= i < |was| && !(r.at <= i < r.at + r.size) ==> now[i] == was[i]
  }

  // ----- What is kept between two operations -----

  ghost predicate Within(d: nat, z: nat, span: Span) {
    z == 0 || (span.Somewhere? && span.start <= d && span.endMin <= d + z <= span.endMax)
  }

  ghost predicate Indexed(s: Stream, i: Index)
    reads s
  {
    match i
    case Small => s.Early()
    case Idle(k) => s.tableType.Cleared? && 0 < k && s.currentOffset == KB64 * k
    case Tail(x) => s.tableType == Used(ByU16) && s.currentOffset == x && KB64 <= x
  }

  ghost predicate Ready(s: Stream, mem: array<byte>, m: Mode, h: bytes)
    reads s, s.hashTable, mem
  {
    && s.Valid() && Indexed(s, m.index)
    && (m.linked ==>
          && s.Linked(mem) && s.dictionary + s.dictSize <= mem.Length && Within(s.dictionary, s.dictSize, m.dict)
          && EndOf(mem[s.dictionary..s.dictionary + s.dictSize], h))
  }

  lemma NothingEnds(mem: bytes, h: bytes)
    ensures forall k :: 0 <= k <= |mem| ==> EndOf(mem[k..k], h)
  {
  }

  lemma LoadedEnd(mem: bytes, r: Region, d: nat, z: nat)
    requires r.at + r.size <= |mem| && z <= r.size && (z > 0 ==> d + z == r.at + r.size) && d + z <= |mem|
    ensures EndOf(mem[d..d + z], Slice(mem, r))
  {
    if z > 0 {
      SubSlice(mem, r.at, r.at + r.size, r.size - z, r.size);
      assert Slice(mem, r)[r.size - z..] == mem[d..d + z];
    }
  }

  /** What a write to the place of a source leaves of the dictionary is the end of the history. */
  lemma {:induction false} StillEnds(was: bytes, now: bytes, d: nat, z: nat, span: Span, at: nat, n: nat, h: bytes)
    requires d + z <= |was| && EndOf(was[d..d + z], h) && Within(d, z, span) && SourceFree(span, at, n)
    requires Elsewhere(Region(at, n), was, now)
    ensures var k := IntactPart(d, z, at, n); k <= z && EndOf(now[d + z - k..d + z], h)
  {
    var k := IntactPart(d, z, at, n);
    DictTail(was, d, z, k, h);
    var a, b := now[d + z - k..d + z], was[d + z - k..d + z];
    assert |a| == |b| && forall i :: 0 <= i < |a| ==> a[i] == b[i];
  }

  lemma {:induction false} FreeEnds(was: bytes, now: bytes, d: nat, z: nat, span: Span, at: nat, n: nat, h: bytes)
    requires d + z <= |was| && EndOf(was[d..d + z], h) && Within(d, z, span) && Free(span, at, n)
    requires Elsewhere(Region(at, n), was, now)
    ensures EndOf(now[d..d + z], h)
  {
    var a, b := now[d..d + z], was[d..d + z];
    assert |a| == |b| && forall i :: 0 <= i < |a| ==> a[i] == b[i];
  }

  // ----- The operations -----

  method Put(mem: array<byte>, at: nat, data: bytes)
    requires at + |data| <= mem.Length
    modifies mem
    ensures Elsewhere(Region(at, |data|), old(mem[..]), mem[..]) && mem[at..at + |data|] == data
  {
    forall k | 0 <= k < |data| {
      mem[at + k] := data[k];
    }
  }

  /** A linked block. */
  method DoLinked(s: Stream, mem: array<byte>, at: nat, data: bytes, room: nat, acceleration: int, m: Mode,
      ghost h: bytes)
    returns (block: bytes)
    requires Ready(s, mem, m, h) && m.linked && RegionOk(Region(at, |data|), mem.Length)
      && SourceFree(m.dict, at, |data|) && LinkedFits(m.index, |data|)
    modifies s, s.hashTable, mem
    ensures Ready(s, mem, After(Linked(at, data, room, acceleration), m), h + data) && BlockIn(h, data, block, room)
    ensures Elsewhere(Region(at, |data|), old(mem[..]), mem[..]) && mem[at..at + |data|] == data
  {
    hide IsBlockOf, EndOf, Stream.Valid, Elsewhere, IntactPart, SourceFree, EntriesOk, AllZero, Stream.NextRun;
    ghost var was := mem[..];
    Put(mem, at, data);
    StillEnds(was, mem[..], s.dictionary, s.dictSize, m.dict, at, |data|, h);
    s.IndexBound();
    var dst := new byte[room];
    var result := s.Continue(mem, at, |data|, dst, acceleration, h);
    s.LinkedFits(mem);
    block := dst[..result];
  }

  /** A block of its own on the same table. */
  method DoSingle(s: Stream, mem: array<byte>, r: Region, room: nat, acceleration: int, m: Mode) returns (block: bytes)
    requires s.Valid() && Indexed(s, m.index) && RegionOk(r, mem.Length) && SingleFits(m.index, r.size)
    modifies s, s.hashTable
    ensures Ready(s, mem, After(Single(r, room, acceleration), m), [])
      && BlockIn([], mem[r.at..r.at + r.size], block, room)
  {
    hide IsBlockOf, EndOf, Stream.Valid, Stream.Linked, Stream.ResetRun, Within;
    var dst := new byte[room];
    var result := s.CompressFastReset(mem[r.at..r.at + r.size], dst, acceleration);
    block := dst[..result];
  }

  lemma NextIdle(k: nat)
    requires 0 < k && KB64 * k < U32
    ensures (KB64 * k + KB64) % U32 == if (k + 1) * KB64 < U32 then KB64 * (k + 1) else 0
  {
  }

  /** A fast reset; the index may wrap around to 0, which is where a new stream begins. */
  method DoRestartFast(s: Stream, mem: array<byte>, m: Mode, ghost h: bytes)
    requires Ready(s, mem, m, h)
    modifies s, s.hashTable
    ensures Ready(s, mem, After(RestartFast, m), [])
  {
    hide EndOf, Stream.Valid;
    NothingEnds(mem[..], []);
    s.IndexBound();
    if m.index.Idle? { NextIdle(m.index.k); }
    s.ResetFast();
  }

  /** A dictionary. */
  method DoLoad(s: Stream, mem: array<byte>, r: Region, m: Mode, ghost h: bytes)
    requires Ready(s, mem, m, h) && RegionOk(r, mem.Length)
    modifies s, s.hashTable
    ensures Ready(s, mem, After(Load(r), m), mem[r.at..r.at + r.size])
  {
    hide EndOf, Ready, Indexed, After, Stream.Valid, Stream.Linked;
    ValidNow(s, mem, m, h);
    var kept := s.LoadDict(mem, r.at, r.size);
    s.LinkedFits(mem);
    LoadedEnd(mem[..], r, s.dictionary, s.dictSize);
    LoadedIndex(s, r.size);
    LoadedReady(s, mem, r, m);
  }

  lemma ValidNow(s: Stream, mem: array<byte>, m: Mode, h: bytes)
    requires Ready(s, mem, m, h)
    ensures s.Valid()
  {
  }

  lemma LoadedReady(s: Stream, mem: array<byte>, r: Region, m: Mode)
    requires s.Valid() && s.Linked(mem) && RegionOk(r, mem.Length)
    requires s.dictSize == if r.size < HASH_UNIT then 0 else Min(r.size, KB64)
    requires s.dictSize > 0 ==> s.dictionary + s.dictSize == r.at + r.size
    requires s.dictionary + s.dictSize <= mem.Length
    requires EndOf(mem[s.dictionary..s.dictionary + s.dictSize], mem[r.at..r.at + r.size])
    requires Indexed(s, if r.size < HASH_UNIT then Idle(1) else Small)
    ensures Ready(s, mem, After(Load(r), m), mem[r.at..r.at + r.size])
  {
    hide EndOf, Indexed, Stream.Valid, Stream.Linked;
  }

  lemma LoadedIndex(s: Stream, size: nat)
    requires s.currentOffset == KB64 && s.tableType == if size < HASH_UNIT then Cleared else Used(ByU32)
    ensures Indexed(s, if size < HASH_UNIT then Idle(1) else Small)
  {
  }

  /** Resets, dictionaries and writes. */
  method DoOther(s: Stream, mem: array<byte>, op: Op, m: Mode, ghost h: bytes) returns (e: Event)
    requires Ready(s, mem, m, h) && OpOk(op, mem.Length) && Allowed(op, m) && !op.Single? && !op.Linked?
    modifies s, s.hashTable, mem
    ensures Honest(op, e, h, old(mem[..])) && MemoryAfter(op, old(mem[..]), mem[..])
    ensures Ready(s, mem, After(op, m), HistoryNext(e, h))
  {
    hide IsBlockOf, EndOf, Stream.Valid, EntriesOk, AllZero;
    NothingEnds(mem[..], []);
    match op {
      case Restart =>
        s.Reset();
        return Restarted;
      case RestartFast =>
        DoRestartFast(s, mem, m, h);
        return Restarted;
      case Load(r) =>
        DoLoad(s, mem, r, m, h);
        return Loaded(mem[r.at..r.at + r.size]);
      case Save(r) =>
        var kept := s.SaveDict(mem, r.at, r.size, h);
        return Kept;
      case Write(at, data) =>
        ghost var was := mem[..];
        Put(mem, at, data);
        if m.linked { FreeEnds(was, mem[..], s.dictionary, s.dictSize, m.dict, at, |data|, h); }
        return Kept;
    }
  }

  /** One operation. */
  method Do(s: Stream, mem: array<byte>, op: Op, m: Mode, ghost h: bytes) returns (e: Event)
    requires Ready(s, mem, m, h) && OpOk(op, mem.Length) && Allowed(op, m)
    modifies s, s.hashTable, mem
    ensures Honest(op, e, h, old(mem[..])) && MemoryAfter(op, old(mem[..]), mem[..])
    ensures Ready(s, mem, After(op, m), HistoryNext(e, h))
  {
    hide IsBlockOf, EndOf, Ready, BlockIn, SourceFree, After;
    match op {
      case Single(r, room, acceleration) =>
        SingleReady(s, mem, m, h);
        var block := DoSingle(s, mem, r, room, acceleration, m);
        e := Alone(mem[r.at..r.at + r.size], block);
      case Linked(at, data, room, acceleration) =>
        var block := DoLinked(s, mem, at, data, room, acceleration, m, h);
        e := Sent(data, block);
      case _ =>
        e := DoOther(s, mem, op, m, h);
    }
  }

  lemma SingleReady(s: Stream, mem: array<byte>, m: Mode, h: bytes)
    requires Ready(s, mem, m, h)
    ensures s.Valid() && Indexed(s, m.index)
  {
  }

  // ----- Runs -----

  /** The memory before each operation and at the end. */
  ghost predicate Memories(ops: seq<Op>, mems: seq<bytes>, n: nat) {
    && n <= |ops| && |mems| == n + 1
    && (forall i :: 0 <= i < |mems| ==> |mems[i]| == |mems[0]|)
    && forall i :: 0 <= i < n ==> MemoryAfter(ops[i], mems[i], mems[i + 1])
  }

  ghost predicate AllHonest(ops: seq<Op>, events: seq<Event>, mems: seq<bytes>) {
    && |events| <= |ops| && |events| <= |mems|
    && forall i :: 0 <= i < |events| ==>
         OpOk(ops[i], |mems[i]|) && Honest(ops[i], events[i], HistoryAt(events, i), mems[i])
  }

  lemma HistoryPrefix(events: seq<Event>, e: Event, n: nat)
    requires n <= |events|
    ensures HistoryAt(events + [e], n) == HistoryAt(events, n)
  {
    if n > 0 { HistoryPrefix(events, e, n - 1); }
  }

  lemma HonestNext(ops: seq<Op>, events: seq<Event>, mems: seq<bytes>, e: Event, now: bytes)
    requires AllHonest(ops, events, mems) && |events| < |ops| && |mems| == |events| + 1
    requires OpOk(ops[|events|], |mems[|events|]|)
    requires Honest(ops[|events|], e, HistoryAt(events, |events|), mems[|events|])
    ensures AllHonest(ops, events + [e], mems + [now])
    ensures HistoryAt(events + [e], |events| + 1) == HistoryNext(e, HistoryAt(events, |events|))
  {
    hide Honest, OpOk, HistoryNext;
    forall i | 0 <= i < |events + [e]|
      ensures OpOk(ops[i], |(mems + [now])[i]|)
      ensures Honest(ops[i], (events + [e])[i], HistoryAt(events + [e], i), (mems + [now])[i])
    {
      HistoryPrefix(events, e, i);
    }
    HistoryPrefix(events, e, |events|);
  }

  /** Any run on one stream: every block decodes after the history since the last reset, whatever tables,
      dictionaries, overwritten memory and failures came before. */
  method AnyRun(s: Stream, mem: array<byte>, ops: seq<Op>) returns (events: seq<Event>, ghost mems: seq<bytes>)
    requires s.Valid() && s.currentOffset == 0 && s.Linked(mem) && s.dictSize == 0
    requires forall i :: 0 <= i < |ops| ==> OpOk(ops[i], mem.Length) && Allowed(ops[i], ModeAt(ops, i))
    modifies s, s.hashTable, mem
    ensures |events| == |ops| && Memories(ops, mems, |ops|) && mems[0] == old(mem[..]) && mems[|ops|] == mem[..]
    ensures AllHonest(ops, events, mems)
  {
    hide Ready, OpOk, Memories, AllHonest, MemoryAfter, HistoryNext, Allowed, After, Honest;
    ghost var m0 := mem[..];
    events, mems := [], [m0];
    StartReady(s, mem);
    StartRun(ops, events, mems);
    for i := 0 to |ops|
      invariant |events| == i && |mems| == i + 1 && Memories(ops, mems, i) && mems[0] == m0 && mems[i] == mem[..]
      invariant AllHonest(ops, events, mems)
      invariant Ready(s, mem, ModeAt(ops, i), HistoryAt(events, i))
    {
      var e := Do(s, mem, ops[i], ModeAt(ops, i), HistoryAt(events, i));
      HonestNext(ops, events, mems, e, mem[..]);
      MemoriesNext(ops, mems, i, mem[..]);
      events, mems := events + [e], mems + [mem[..]];
    }
  }

  lemma MemoriesNext(ops: seq<Op>, mems: seq<bytes>, n: nat, now: bytes)
    requires Memories(ops, mems, n) && n < |ops| && MemoryAfter(ops[n], mems[n], now)
    ensures Memories(ops, mems + [now], n + 1)
  {
  }

  lemma StartRun(ops: seq<Op>, events: seq<Event>, mems: seq<bytes>)
    requires events == [] && |mems| == 1
    ensures Memories(ops, mems, 0) && AllHonest(ops, events, mems) && HistoryAt(events, 0) == []
  {
  }

  lemma StartReady(s: Stream, mem: array<byte>)
    requires s.Valid() && s.currentOffset == 0 && s.Linked(mem) && s.dictSize == 0
    ensures Ready(s, mem, Mode(true, Small, Nowhere), [])
  {
    NothingEnds(mem[..], []);
  }
}
