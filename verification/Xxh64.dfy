/** XXH64: the one-shot hash, and the streaming state whose digest equals it for every way of
    cutting the input into updates. */
module Xxh64 {
  import opened Bytes
  import opened XxhStripes

  type u64 = bv64

  const PRIME1: u64 := 11400714785074694791
  const PRIME2: u64 := 14029467366897019727
  const PRIME3: u64 := 1609587929392839161
  const PRIME4: u64 := 9650029242287828579
  const PRIME5: u64 := 2870177450012600261

  const STRIPE := 32
  const TWO64 := 0x1_0000_0000_0000_0000

  function Round(acc: u64, input: u64): u64 {
    var x := acc + input * PRIME2;
    ((x << 31) | (x >> 33)) * PRIME1
  }

  function MergeRound(acc: u64, val: u64): u64 {
    (acc ^ Round(0, val)) * PRIME1 + PRIME4
  }

  function Avalanche(h: u64): u64 {
    var h1 := (h ^ (h >> 33)) * PRIME2;
    var h2 := (h1 ^ (h1 >> 29)) * PRIME3;
    h2 ^ (h2 >> 32)
  }

  /** XXH_readLE32, as 64 bits */
  function ReadLE32(s: bytes, i: nat): u64
    requires i + 4 <= |s|
  {
    LE32(s[i], s[i + 1], s[i + 2], s[i + 3])
  }

  function LE32(b0: byte, b1: byte, b2: byte, b3: byte): u64 {
    (b0 as u64) | ((b1 as u64) << 8) | ((b2 as u64) << 16) | ((b3 as u64) << 24)
  }

  /** XXH_readLE64 */
  function ReadLE64(s: bytes, i: nat): u64
    requires i + 8 <= |s|
  {
    Halves(ReadLE32(s, i), ReadLE32(s, i + 4))
  }

  function Halves(low: u64, high: u64): u64 {
    low | (high << 32)
  }

  // ----- Accumulators -----

  datatype Lanes = Lanes(v1: u64, v2: u64, v3: u64, v4: u64)

  function Init(seed: u64): Lanes {
    Lanes(seed + PRIME1 + PRIME2, seed + PRIME2, seed, seed - PRIME1)
  }

  /** The four rounds on a stripe. */
  function Step(l: Lanes, s: bytes): Lanes {
    if |s| < STRIPE then l
    else
      Lanes(Round(l.v1, ReadLE64(s, 0)), Round(l.v2, ReadLE64(s, 8)),
            Round(l.v3, ReadLE64(s, 16)), Round(l.v4, ReadLE64(s, 24)))
  }

  function Merge(l: Lanes): u64 {
    MergeRound(MergeRound(MergeRound(MergeRound(Rotate(l), l.v1), l.v2), l.v3), l.v4)
  }

  function Rotate(l: Lanes): u64 {
    ((l.v1 << 1) | (l.v1 >> 63)) + ((l.v2 << 7) | (l.v2 >> 57))
    + ((l.v3 << 12) | (l.v3 >> 52)) + ((l.v4 << 18) | (l.v4 >> 46))
  }

  // ----- The last bytes -----

  function Process8(h: u64, s: bytes): u64
    requires 8 <= |s|
  {
    Mix8(h, ReadLE64(s, 0))
  }

  function Mix8(h: u64, w: u64): u64 {
    var x := h ^ Round(0, w);
    ((x << 27) | (x >> 37)) * PRIME1 + PRIME4
  }

  function Process4(h: u64, s: bytes): u64
    requires 4 <= |s|
  {
    Mix4(h, ReadLE32(s, 0))
  }

  function Mix4(h: u64, w: u64): u64 {
    var x := h ^ (w * PRIME1);
    ((x << 23) | (x >> 41)) * PRIME2 + PRIME3
  }

  function Process1(h: u64, b: byte): u64 {
    Mix1(h, U64(b))
  }

  function Mix1(h: u64, w: u64): u64 {
    var x := h ^ (w * PRIME5);
    ((x << 11) | (x >> 53)) * PRIME1
  }

  /** Eight bytes at a time while eight remain, then four, then one at a time. */
  function Tail(h: u64, s: bytes): u64
    decreases |s|
  {
    if 8 <= |s| then Tail(Process8(h, s[..8]), s[8..])
    else if 4 <= |s| then Tail(Process4(h, s[..4]), s[4..])
    else if 0 < |s| then Tail(Process1(h, s[0]), s[1..])
    else h
  }

  /** The cast of a length to 64 bits. */
  function U64(n: nat): u64 {
    Word(n % TWO64)
  }

  function Word(n: nat): u64
    requires n < TWO64
  {
    n as u64
  }

  function Small(seed: u64): u64 {
    seed + PRIME5
  }

  function AddLength(h: u64, n: nat): u64 {
    Add(h, U64(n))
  }

  function Add(x: u64, y: u64): u64 {
    x + y
  }

  /** The hash of `s`, as the specification of XXH64 describes it. */
  function Hash(s: bytes, seed: u64): u64 {
    var h := if |s| >= STRIPE then Merge(Consume(Step, STRIPE, Init(seed), s)) else Small(seed);
    Avalanche(Tail(AddLength(h, |s|), Pending(STRIPE, s)))
  }

  // ----- XXH64_finalize -----

  method Take8(h: u64, s: bytes, i: nat) returns (h': u64, i': nat)
    requires i + 8 <= |s|
    ensures i' == i + 8 && Tail(h', s[i'..]) == Tail(h, s[i..])
  {
    hide Process8, Process4, Process1;
    h', i' := Process8(h, s[i..i + 8]), i + 8;
    assert s[i..][..8] == s[i..i + 8] && s[i..][8..] == s[i + 8..];
  }

  method Take4(h: u64, s: bytes, i: nat) returns (h': u64, i': nat)
    requires i + 4 <= |s| < i + 8
    ensures i' == i + 4 && Tail(h', s[i'..]) == Tail(h, s[i..])
  {
    hide Process8, Process4, Process1;
    h', i' := Process4(h, s[i..i + 4]), i + 4;
    assert s[i..][..4] == s[i..i + 4] && s[i..][4..] == s[i + 4..];
  }

  method Take1(h: u64, s: bytes, i: nat) returns (h': u64, i': nat)
    requires i < |s| < i + 4
    ensures i' == i + 1 && Tail(h', s[i'..]) == Tail(h, s[i..])
  {
    hide Process8, Process4, Process1;
    h', i' := Process1(h, s[i]), i + 1;
    assert s[i..][1..] == s[i + 1..];
  }

  lemma TailEnd(h: u64, s: bytes)
    ensures Tail(h, s[|s|..]) == h
  {
  }

  /** One, two or three steps of eight bytes: the cases that fall through, `last` being where they end. */
  method Eights(h0: u64, s: bytes, i0: nat, len: nat, last: nat) returns (h: u64, i: nat)
    requires i0 + len == |s| && last < 16 && (len == last || len == last + 8 || len == last + 16)
    requires last >= 8
    ensures i + last == |s| + 8 && Tail(h, s[i..]) == Tail(h0, s[i0..])
  {
    hide Tail;
    h, i := h0, i0;
    if len == last + 16 { h, i := Take8(h, s, i); }
    if len != last { h, i := Take8(h, s, i); }
    h, i := Take8(h, s, i);
  }

  /** The unrolled switch on the number of bytes left is the plain loop. */
  method Finalize(h0: u64, s: bytes, i0: nat) returns (r: u64)
    requires i0 <= |s| < i0 + STRIPE
    ensures r == Avalanche(Tail(h0, s[i0..]))
  {
    hide Tail, Avalanche;
    var h, i := h0, i0;
    var len := |s| - i0;
    if len == 24 || len == 16 || len == 8 {
      h, i := Eights(h, s, i, len, 8);
    } else if len == 28 || len == 20 || len == 12 || len == 4 {
      if len != 4 { h, i := Eights(h, s, i, len, 12); }
      h, i := Take4(h, s, i);
    } else if len == 25 || len == 17 || len == 9 {
      h, i := Eights(h, s, i, len, 9);
      h, i := Take1(h, s, i);
    } else if len == 29 || len == 21 || len == 13 || len == 5 {
      if len != 5 { h, i := Eights(h, s, i, len, 13); }
      h, i := Take4(h, s, i);
      h, i := Take1(h, s, i);
    } else if len == 26 || len == 18 || len == 10 {
      h, i := Eights(h, s, i, len, 10);
      h, i := Take1(h, s, i);
      h, i := Take1(h, s, i);
    } else if len == 30 || len == 22 || len == 14 || len == 6 {
      if len != 6 { h, i := Eights(h, s, i, len, 14); }
      h, i := Take4(h, s, i);
      h, i := Take1(h, s, i);
      h, i := Take1(h, s, i);
    } else if len == 27 || len == 19 || len == 11 {
      h, i := Eights(h, s, i, len, 11);
      h, i := Take1(h, s, i);
      h, i := Take1(h, s, i);
      h, i := Take1(h, s, i);
    } else {
      if len == 31 || len == 23 || len == 15 { h, i := Eights(h, s, i, len, 15); }
      if len != 0 && len != 1 && len != 2 && len != 3 { h, i := Take4(h, s, i); }
      if len != 0 && len != 1 && len != 2 { h, i := Take1(h, s, i); }
      if len != 0 && len != 1 { h, i := Take1(h, s, i); }
      if len != 0 { h, i := Take1(h, s, i); }
    }
    TailEnd(h, s);
    r := Avalanche(h);
  }

  // ----- XXH64 -----

  /** XXH64_endian_align: the one-shot function. */
  method XXH64(input: bytes, seed: u64) returns (r: u64)
    ensures r == Hash(input, seed)
  {
    hide Step, Consume, Pending, Init, Merge, Tail, Avalanche, Small, AddLength;
    var h;
    var p: nat := 0;
    assert input[0..] == input;
    if |input| >= STRIPE {
      var l := Init(seed);
      while p <= |input| - STRIPE
        invariant p <= |input|
        invariant Consume(Step, STRIPE, l, input[p..]) == Consume(Step, STRIPE, Init(seed), input)
        invariant Pending(STRIPE, input[p..]) == Pending(STRIPE, input)
      {
        NextStripe(Step, STRIPE, l, input, p);
        l := Step(l, input[p..p + STRIPE]);
        p := p + STRIPE;
      }
      OnlyHeld(Step, STRIPE, l, input[p..]);
      h := Merge(l);
    } else {
      OnlyHeld(Step, STRIPE, Init(seed), input);
      h := Small(seed);
    }
    h := AddLength(h, |input|);
    r := Finalize(h, input, p);
  }

  // ----- Streaming -----

  /** What the fields hold after the bytes `total` were fed to a state reset with `seed`. */
  predicate Holds(total: bytes, seed: u64, l: Lanes, mem: bytes, len: nat) {
    && mem == Pending(STRIPE, total)
    && l == Consume(Step, STRIPE, Init(seed), total)
    && len == |total| % TWO64
  }

  lemma SameLength(h: u64, n: nat)
    ensures AddLength(h, n % TWO64) == AddLength(h, n)
  {
    hide Add, Word;
  }

  lemma InitSeed(seed: u64)
    ensures Init(seed).v3 == seed
  {
  }

  /** Unlike the 32-bit state, this one has no flag that outlives a wrap-around of the length. */
  lemma HashOfFields(total: bytes, seed: u64, l: Lanes, mem: bytes, len: nat)
    requires Holds(total, seed, l, mem, len) && (len >= STRIPE <==> |total| >= STRIPE)
    ensures Hash(total, seed) == Avalanche(Tail(AddLength(if len >= STRIPE then Merge(l) else Small(l.v3), len), mem))
  {
    hide Step, Merge, Tail, Avalanche, Consume, Pending, Small, AddLength, Init;
    SameLength(if len >= STRIPE then Merge(l) else Small(seed), |total|);
    InitSeed(seed);
    if |total| < STRIPE { OnlyHeld(Step, STRIPE, Init(seed), total); }
  }

  class State {
    var total_len: nat
    var v1: u64
    var v2: u64
    var v3: u64
    var v4: u64
    const mem64: array<byte>
    var memsize: nat
    ghost var total: bytes
    ghost var seed: u64

    ghost predicate Valid()
      reads this, mem64
    {
      && mem64.Length == STRIPE && memsize < STRIPE
      && Holds(total, seed, Lanes(v1, v2, v3, v4), mem64[..memsize], total_len)
    }

    /** XXH64_createState, XXH64_reset */
    constructor (s: u64)
      ensures Valid() && fresh(mem64) && total == [] && seed == s
    {
      hide Init, Step;
      var l := Init(s);
      total_len := 0;
      v1, v2, v3, v4 := l.v1, l.v2, l.v3, l.v4;
      mem64 := new byte[STRIPE](_ => 0);
      memsize := 0;
      total, seed := [], s;
      new;
      assert Lanes(v1, v2, v3, v4) == l;
    }

    /** XXH64_update */
    method Update(input: bytes)
      requires Valid()
      modifies this, mem64
      ensures Valid() && total == old(total) + input && seed == old(seed)
    {
      hide Consume, Pending, Init, Step;
      InTwoParts(Step, STRIPE, Init(seed), total, input);
      total_len := (total_len + |input|) % TWO64;
      Feed(input);
      total := total + input;
    }

    /** The input into lanes and buffer. */
    method Feed(input: bytes)
      requires mem64.Length == STRIPE && memsize < STRIPE
      modifies this`v1, this`v2, this`v3, this`v4, this`memsize, mem64
      ensures memsize < STRIPE && mem64[..memsize] == old(Pending(STRIPE, mem64[..memsize] + input))
      ensures Lanes(v1, v2, v3, v4) == old(Consume(Step, STRIPE, Lanes(v1, v2, v3, v4), mem64[..memsize] + input))
    {
      hide Consume, Pending, Step;
      if memsize + |input| < STRIPE {
        OnlyHeld(Step, STRIPE, Lanes(v1, v2, v3, v4), mem64[..memsize] + input);
        Fill(input);
        memsize := memsize + |input|;
        return;
      }
      var p := TopUp(input);
      p := Stripes(input, p);
      OnlyHeld(Step, STRIPE, Lanes(v1, v2, v3, v4), input[p..]);
      if p < |input| {
        Fill(input[p..]);
        memsize := |input| - p;
      } else {
        assert mem64[..0] == input[p..];
      }
    }

    /** Completes and consumes a partly filled buffer. */
    method TopUp(input: bytes) returns (p: nat)
      requires mem64.Length == STRIPE && memsize < STRIPE <= memsize + |input|
      modifies this`v1, this`v2, this`v3, this`v4, this`memsize, mem64
      ensures memsize == 0 && p <= |input|
      ensures Consume(Step, STRIPE, Lanes(v1, v2, v3, v4), input[p..])
              == old(Consume(Step, STRIPE, Lanes(v1, v2, v3, v4), mem64[..memsize] + input))
      ensures Pending(STRIPE, input[p..]) == old(Pending(STRIPE, mem64[..memsize] + input))
    {
      hide Consume, Pending, Step;
      p := 0;
      if memsize > 0 {
        ghost var l, held := Lanes(v1, v2, v3, v4), mem64[..memsize];
        p := STRIPE - memsize;
        Fill(input[..p]);
        assert mem64[..] == mem64[..memsize + p];
        Take(mem64[..]);
        memsize := 0;
        ToppedUp(Step, STRIPE, l, held, input, p);
      } else {
        assert mem64[..0] + input == input == input[0..];
      }
    }

    /** The loop over the whole stripes of the input. */
    method Stripes(input: bytes, p0: nat) returns (p: nat)
      requires p0 <= |input|
      modifies this`v1, this`v2, this`v3, this`v4
      ensures p <= |input| < p + STRIPE
      ensures Consume(Step, STRIPE, Lanes(v1, v2, v3, v4), input[p..])
              == old(Consume(Step, STRIPE, Lanes(v1, v2, v3, v4), input[p0..]))
      ensures Pending(STRIPE, input[p..]) == Pending(STRIPE, input[p0..])
    {
      hide Consume, Pending, Step;
      p := p0;
      while p + STRIPE <= |input|
        invariant p <= |input|
        invariant Consume(Step, STRIPE, Lanes(v1, v2, v3, v4), input[p..])
                  == old(Consume(Step, STRIPE, Lanes(v1, v2, v3, v4), input[p0..]))
        invariant Pending(STRIPE, input[p..]) == Pending(STRIPE, input[p0..])
      {
        NextStripe(Step, STRIPE, Lanes(v1, v2, v3, v4), input, p);
        Take(input[p..p + STRIPE]);
        p := p + STRIPE;
      }
    }

    /** Copies `input` behind the bytes already buffered. */
    method Fill(input: bytes)
      requires mem64.Length == STRIPE && memsize + |input| <= STRIPE
      modifies mem64
      ensures mem64[..memsize + |input|] == old(mem64[..memsize]) + input
    {
      forall k | 0 <= k < |input| {
        mem64[memsize + k] := input[k];
      }
    }

    /** The four rounds on one stripe. */
    method Take(s: bytes)
      requires |s| == STRIPE
      modifies this`v1, this`v2, this`v3, this`v4
      ensures Lanes(v1, v2, v3, v4) == Step(old(Lanes(v1, v2, v3, v4)), s)
    {
      hide Round, ReadLE64;
      v1 := Round(v1, ReadLE64(s, 0));
      v2 := Round(v2, ReadLE64(s, 8));
      v3 := Round(v3, ReadLE64(s, 16));
      v4 := Round(v4, ReadLE64(s, 24));
    }

    /** XXH64_digest: the state answers the one-shot hash of everything fed to it, unless so much was fed
        that the length has wrapped around to less than a stripe. */
    method Digest() returns (r: u64)
      requires Valid()
      ensures total_len == |total| % TWO64
      ensures |total| < STRIPE || total_len >= STRIPE ==> r == Hash(total, seed)
    {
      hide Init, Merge, Small, AddLength, Tail, Avalanche, Hash, Consume, Pending;
      if |total| < STRIPE || total_len >= STRIPE {
        HashOfFields(total, seed, Lanes(v1, v2, v3, v4), mem64[..memsize], total_len);
      }
      var h := if total_len >= STRIPE then Merge(Lanes(v1, v2, v3, v4)) else Small(v3);
      h := AddLength(h, total_len);
      r := Finalize(h, mem64[..memsize], 0);
      assert mem64[..memsize][0..] == mem64[..memsize];
    }
  }

  /** Cutting the input differently never changes the digest. */
  method AnyPartition(parts: seq<bytes>, seed: u64) returns (r: u64)
    requires |Concat(parts)| < TWO64
    ensures r == Hash(Concat(parts), seed)
  {
    hide *;
    var state := new State(seed);
    ConcatNone(parts);
    for i := 0 to |parts|
      invariant state.Valid() && fresh(state) && fresh(state.mem64) && state.seed == seed
      invariant state.total == Concat(parts[..i])
    {
      ConcatOne(parts, i);
      state.Update(parts[i]);
    }
    assert parts[..|parts|] == parts;
    r := state.Digest();
  }
}
