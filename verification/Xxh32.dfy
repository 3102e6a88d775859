/** XXH32: the one-shot hash, and the streaming state whose digest equals it for every way of
    cutting the input into updates. */
module Xxh32 {
  import opened Bytes
  import opened XxhStripes

  type u32 = bv32

  const PRIME1: u32 := 2654435761
  const PRIME2: u32 := 2246822519
  const PRIME3: u32 := 3266489917
  const PRIME4: u32 := 668265263
  const PRIME5: u32 := 374761393

  const STRIPE := 16

  function Round(seed: u32, input: u32): u32 {
    var x := seed + input * PRIME2;
    ((x << 13) | (x >> 19)) * PRIME1
  }

  function Avalanche(h: u32): u32 {
    var h1 := (h ^ (h >> 15)) * PRIME2;
    var h2 := (h1 ^ (h1 >> 13)) * PRIME3;
    h2 ^ (h2 >> 16)
  }

  /** XXH_readLE32 */
  function ReadLE32(s: bytes, i: nat): u32
    requires i + 4 <= |s|
  {
    LE32(s[i], s[i + 1], s[i + 2], s[i + 3])
  }

  function LE32(b0: byte, b1: byte, b2: byte, b3: byte): u32 {
    (b0 as u32) | ((b1 as u32) << 8) | ((b2 as u32) << 16) | ((b3 as u32) << 24)
  }

  // ----- Accumulators -----

  datatype Lanes = Lanes(v1: u32, v2: u32, v3: u32, v4: u32)

  function Init(seed: u32): Lanes {
    Lanes(seed + PRIME1 + PRIME2, seed + PRIME2, seed, seed - PRIME1)
  }

  /** The four rounds on a stripe. */
  function Step(l: Lanes, s: bytes): Lanes {
    if |s| < STRIPE then l
    else
      Lanes(Round(l.v1, ReadLE32(s, 0)), Round(l.v2, ReadLE32(s, 4)),
            Round(l.v3, ReadLE32(s, 8)), Round(l.v4, ReadLE32(s, 12)))
  }

  function Merge(l: Lanes): u32 {
    ((l.v1 << 1) | (l.v1 >> 31)) + ((l.v2 << 7) | (l.v2 >> 25))
    + ((l.v3 << 12) | (l.v3 >> 20)) + ((l.v4 << 18) | (l.v4 >> 14))
  }

  // ----- The last bytes -----

  function Process4(h: u32, s: bytes): u32
    requires 4 <= |s|
  {
    Mix4(h, ReadLE32(s, 0))
  }

  function Mix4(h: u32, w: u32): u32 {
    var x := h + w * PRIME3;
    ((x << 17) | (x >> 15)) * PRIME4
  }

  function Process1(h: u32, b: byte): u32 {
    Mix1(h, U32(b))
  }

  function Mix1(h: u32, w: u32): u32 {
    var x := h + w * PRIME5;
    ((x << 11) | (x >> 21)) * PRIME1
  }

  /** Four bytes at a time while four remain, then one at a time. */
  function Tail(h: u32, s: bytes): u32
    decreases |s|
  {
    if 4 <= |s| then Tail(Process4(h, s[..4]), s[4..])
    else if 0 < |s| then Tail(Process1(h, s[0]), s[1..])
    else h
  }

  /** The cast of a length to 32 bits. */
  function U32(n: nat): u32 {
    Word(n % 0x1_0000_0000)
  }

  function Word(n: nat): u32
    requires n < 0x1_0000_0000
  {
    n as u32
  }

  function Small(seed: u32): u32 {
    seed + PRIME5
  }

  function AddLength(h: u32, n: nat): u32 {
    Add(h, U32(n))
  }

  function Add(x: u32, y: u32): u32 {
    x + y
  }

  /** The hash of `s`, as the specification of XXH32 describes it. */
  function Hash(s: bytes, seed: u32): u32 {
    var h := if |s| >= STRIPE then Merge(Consume(Step, STRIPE, Init(seed), s)) else Small(seed);
    Avalanche(Tail(AddLength(h, |s|), Pending(STRIPE, s)))
  }

  // ----- XXH32_finalize -----

  method Take4(h: u32, s: bytes, i: nat) returns (h': u32, i': nat)
    requires i + 4 <= |s|
    ensures i' == i + 4 && Tail(h', s[i'..]) == Tail(h, s[i..])
  {
    hide Process4, Process1;
    h', i' := Process4(h, s[i..i + 4]), i + 4;
    assert s[i..][..4] == s[i..i + 4] && s[i..][4..] == s[i + 4..];
  }

  method Take1(h: u32, s: bytes, i: nat) returns (h': u32, i': nat)
    requires i < |s| < i + 4
    ensures i' == i + 1 && Tail(h', s[i'..]) == Tail(h, s[i..])
  {
    hide Process4, Process1;
    h', i' := Process1(h, s[i]), i + 1;
    assert s[i..][1..] == s[i + 1..];
  }

  lemma TailEnd(h: u32, s: bytes)
    ensures Tail(h, s[|s|..]) == h
  {
  }

  /** The unrolled switch on the number of bytes left is the plain loop. */
  method Finalize(h0: u32, s: bytes, i0: nat) returns (r: u32)
    requires i0 <= |s| < i0 + STRIPE
    ensures r == Avalanche(Tail(h0, s[i0..]))
  {
    hide Tail, Avalanche;
    var h, i := h0, i0;
    var len := |s| - i0;
    if len == 12 || len == 8 || len == 4 {
      if len == 12 { h, i := Take4(h, s, i); }
      if len != 4 { h, i := Take4(h, s, i); }
      h, i := Take4(h, s, i);
    } else if len == 13 || len == 9 || len == 5 {
      if len == 13 { h, i := Take4(h, s, i); }
      if len != 5 { h, i := Take4(h, s, i); }
      h, i := Take4(h, s, i);
      h, i := Take1(h, s, i);
    } else if len == 14 || len == 10 || len == 6 {
      if len == 14 { h, i := Take4(h, s, i); }
      if len != 6 { h, i := Take4(h, s, i); }
      h, i := Take4(h, s, i);
      h, i := Take1(h, s, i);
      h, i := Take1(h, s, i);
    } else {
      if len == 15 { h, i := Take4(h, s, i); }
      if len == 15 || len == 11 { h, i := Take4(h, s, i); }
      if len == 15 || len == 11 || len == 7 { h, i := Take4(h, s, i); }
      if len != 0 && len != 1 && len != 2 { h, i := Take1(h, s, i); }
      if len != 0 && len != 1 { h, i := Take1(h, s, i); }
      if len != 0 { h, i := Take1(h, s, i); }
    }
    TailEnd(h, s);
    r := Avalanche(h);
  }

  // ----- XXH32 -----

  /** XXH32_endian_align: the one-shot function. */
  method XXH32(input: bytes, seed: u32) returns (r: u32)
    ensures r == Hash(input, seed)
  {
    hide Step, Consume, Pending, Init, Merge, Tail, Avalanche, Small, AddLength;
    var h;
    var p: nat := 0;
    assert input[0..] == input;
    if |input| >= STRIPE {
      var l := Init(seed);
      while p <= |input| - STRIPE
        invariant p <= |input|
        invariant Consume(Step, STRIPE, l, input[p..]) == Consume(Step, STRIPE, Init(seed), input)
        invariant Pending(STRIPE, input[p..]) == Pending(STRIPE, input)
      {
        NextStripe(Step, STRIPE, l, input, p);
        l := Step(l, input[p..p + STRIPE]);
        p := p + STRIPE;
      }
      OnlyHeld(Step, STRIPE, l, input[p..]);
      h := Merge(l);
    } else {
      OnlyHeld(Step, STRIPE, Init(seed), input);
      h := Small(seed);
    }
    h := AddLength(h, |input|);
    r := Finalize(h, input, p);
  }

  // ----- Streaming -----

  /** What the fields hold after the bytes `total` were fed to a state reset with `seed`. */
  predicate Holds(total: bytes, seed: u32, l: Lanes, mem: bytes, len32: nat, large: bool) {
    && mem == Pending(STRIPE, total)
    && l == Consume(Step, STRIPE, Init(seed), total)
    && len32 == |total| % 0x1_0000_0000
    && large == (|total| >= STRIPE)
  }

  lemma SameLength(h: u32, n: nat)
    ensures AddLength(h, n % 0x1_0000_0000) == AddLength(h, n)
  {
    hide Add, Word;
  }

  lemma InitSeed(seed: u32)
    ensures Init(seed).v3 == seed
  {
  }

  lemma HashOfFields(total: bytes, seed: u32, l: Lanes, mem: bytes, len32: nat, large: bool)
    requires Holds(total, seed, l, mem, len32, large)
    ensures Hash(total, seed) == Avalanche(Tail(AddLength(if large then Merge(l) else Small(l.v3), len32), mem))
  {
    hide Step, Merge, Tail, Avalanche, Consume, Pending, Small, AddLength, Init;
    SameLength(if large then Merge(l) else Small(seed), |total|);
    InitSeed(seed);
    if !large { OnlyHeld(Step, STRIPE, Init(seed), total); }
  }

  class State {
    var total_len_32: nat
    var large_len: bool
    var v1: u32
    var v2: u32
    var v3: u32
    var v4: u32
    const mem32: array<byte>
    var memsize: nat
    ghost var total: bytes
    ghost var seed: u32

    ghost predicate Valid()
      reads this, mem32
    {
      && mem32.Length == STRIPE && memsize < STRIPE
      && Holds(total, seed, Lanes(v1, v2, v3, v4), mem32[..memsize], total_len_32, large_len)
    }

    /** XXH32_createState, XXH32_reset */
    constructor (s: u32)
      ensures Valid() && fresh(mem32) && total == [] && seed == s
    {
      hide Init, Step;
      var l := Init(s);
      total_len_32, large_len := 0, false;
      v1, v2, v3, v4 := l.v1, l.v2, l.v3, l.v4;
      mem32 := new byte[STRIPE](_ => 0);
      memsize := 0;
      total, seed := [], s;
      new;
      assert Lanes(v1, v2, v3, v4) == l;
    }

    /** XXH32_update */
    method Update(input: bytes)
      requires Valid()
      modifies this, mem32
      ensures Valid() && total == old(total) + input && seed == old(seed)
    {
      hide Consume, Pending, Init, Step;
      InTwoParts(Step, STRIPE, Init(seed), total, input);
      CountInput(input);
      Feed(input);
      total := total + input;
    }

    /** The input into lanes and buffer. */
    method Feed(input: bytes)
      requires mem32.Length == STRIPE && memsize < STRIPE
      modifies this`v1, this`v2, this`v3, this`v4, this`memsize, mem32
      ensures memsize < STRIPE && mem32[..memsize] == old(Pending(STRIPE, mem32[..memsize] + input))
      ensures Lanes(v1, v2, v3, v4) == old(Consume(Step, STRIPE, Lanes(v1, v2, v3, v4), mem32[..memsize] + input))
    {
      hide Consume, Pending, Step;
      if memsize + |input| < STRIPE {
        OnlyHeld(Step, STRIPE, Lanes(v1, v2, v3, v4), mem32[..memsize] + input);
        Fill(input);
        memsize := memsize + |input|;
        return;
      }
      var p := TopUp(input);
      p := Stripes(input, p);
      OnlyHeld(Step, STRIPE, Lanes(v1, v2, v3, v4), input[p..]);
      if p < |input| {
        Fill(input[p..]);
        memsize := |input| - p;
      } else {
        assert mem32[..0] == input[p..];
      }
    }

    /** The length kept modulo 2^32, with a flag that outlives the wrap-around. */
    method CountInput(input: bytes)
      requires total_len_32 == |total| % 0x1_0000_0000 && large_len == (|total| >= STRIPE)
      modifies this`total_len_32, this`large_len
      ensures total_len_32 == |total + input| % 0x1_0000_0000
      ensures large_len == (|total + input| >= STRIPE)
    {
      CountBytes(total, input, total_len_32, large_len);
      total_len_32 := (total_len_32 + |input| % 0x1_0000_0000) % 0x1_0000_0000;
      large_len := large_len || |input| >= STRIPE || total_len_32 >= STRIPE;
    }

    /** Completes and consumes a partly filled buffer. */
    method TopUp(input: bytes) returns (p: nat)
      requires mem32.Length == STRIPE && memsize < STRIPE <= memsize + |input|
      modifies this`v1, this`v2, this`v3, this`v4, this`memsize, mem32
      ensures memsize == 0 && p <= |input|
      ensures Consume(Step, STRIPE, Lanes(v1, v2, v3, v4), input[p..])
              == old(Consume(Step, STRIPE, Lanes(v1, v2, v3, v4), mem32[..memsize] + input))
      ensures Pending(STRIPE, input[p..]) == old(Pending(STRIPE, mem32[..memsize] + input))
    {
      hide Consume, Pending, Step;
      p := 0;
      if memsize > 0 {
        ghost var l, held := Lanes(v1, v2, v3, v4), mem32[..memsize];
        p := STRIPE - memsize;
        Fill(input[..p]);
        assert mem32[..] == mem32[..memsize + p];
        Take(mem32[..]);
        memsize := 0;
        ToppedUp(Step, STRIPE, l, held, input, p);
      } else {
        assert mem32[..0] + input == input == input[0..];
      }
    }

    /** The loop over the whole stripes of the input. */
    method Stripes(input: bytes, p0: nat) returns (p: nat)
      requires p0 <= |input|
      modifies this`v1, this`v2, this`v3, this`v4
      ensures p <= |input| < p + STRIPE
      ensures Consume(Step, STRIPE, Lanes(v1, v2, v3, v4), input[p..])
              == old(Consume(Step, STRIPE, Lanes(v1, v2, v3, v4), input[p0..]))
      ensures Pending(STRIPE, input[p..]) == Pending(STRIPE, input[p0..])
    {
      hide Consume, Pending, Step;
      p := p0;
      while p + STRIPE <= |input|
        invariant p <= |input|
        invariant Consume(Step, STRIPE, Lanes(v1, v2, v3, v4), input[p..])
                  == old(Consume(Step, STRIPE, Lanes(v1, v2, v3, v4), input[p0..]))
        invariant Pending(STRIPE, input[p..]) == Pending(STRIPE, input[p0..])
      {
        NextStripe(Step, STRIPE, Lanes(v1, v2, v3, v4), input, p);
        Take(input[p..p + STRIPE]);
        p := p + STRIPE;
      }
    }

    /** Copies `input` behind the bytes already buffered. */
    method Fill(input: bytes)
      requires mem32.Length == STRIPE && memsize + |input| <= STRIPE
      modifies mem32
      ensures mem32[..memsize + |input|] == old(mem32[..memsize]) + input
    {
      forall k | 0 <= k < |input| {
        mem32[memsize + k] := input[k];
      }
    }

    /** The four rounds on one stripe. */
    method Take(s: bytes)
      requires |s| == STRIPE
      modifies this`v1, this`v2, this`v3, this`v4
      ensures Lanes(v1, v2, v3, v4) == Step(old(Lanes(v1, v2, v3, v4)), s)
    {
      hide Round, ReadLE32;
      v1 := Round(v1, ReadLE32(s, 0));
      v2 := Round(v2, ReadLE32(s, 4));
      v3 := Round(v3, ReadLE32(s, 8));
      v4 := Round(v4, ReadLE32(s, 12));
    }

    /** XXH32_digest: the state answers the one-shot hash of everything fed to it. */
    method Digest() returns (r: u32)
      requires Valid()
      ensures r == Hash(total, seed)
    {
      hide Holds, Init, Merge, Small, AddLength, Tail, Avalanche, Hash;
      HashOfFields(total, seed, Lanes(v1, v2, v3, v4), mem32[..memsize], total_len_32, large_len);
      var h := if large_len then Merge(Lanes(v1, v2, v3, v4)) else Small(v3);
      h := AddLength(h, total_len_32);
      r := Finalize(h, mem32[..memsize], 0);
      assert mem32[..memsize][0..] == mem32[..memsize];
    }
  }

  lemma CountBytes(before: bytes, input: bytes, len32: nat, large: bool)
    requires len32 == |before| % 0x1_0000_0000 && large == (|before| >= STRIPE)
    ensures (len32 + |input| % 0x1_0000_0000) % 0x1_0000_0000 == |before + input| % 0x1_0000_0000
    ensures (large || |input| >= STRIPE || |before + input| % 0x1_0000_0000 >= STRIPE) ==
            (|before + input| >= STRIPE)
  {
  }

  /** Cutting the input differently never changes the digest. */
  method AnyPartition(parts: seq<bytes>, seed: u32) returns (r: u32)
    ensures r == Hash(Concat(parts), seed)
  {
    hide *;
    var state := new State(seed);
    ConcatNone(parts);
    for i := 0 to |parts|
      invariant state.Valid() && fresh(state) && fresh(state.mem32) && state.seed == seed
      invariant state.total == Concat(parts[..i])
    {
      ConcatOne(parts, i);
      state.Update(parts[i]);
    }
    assert parts[..|parts|] == parts;
    r := state.Digest();
  }
}
