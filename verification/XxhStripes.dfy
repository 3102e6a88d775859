/** What the two hashes of xxhash.c have in common: input taken in stripes, the rest held back. */
module XxhStripes {
  import opened Bytes

  /** The lanes after all whole stripes of `s`. */
  function Consume<L>(step: (L, bytes) -> L, size: nat, l: L, s: bytes): L
    requires 0 < size
    decreases |s|
  {
    if |s| < size then l else Consume(step, size, step(l, s[..size]), s[size..])
  }

  /** The bytes after the last whole stripe. */
  function Pending(size: nat, s: bytes): (r: bytes)
    requires 0 < size
    ensures |r| < size && |r| <= |s|
    decreases |s|
  {
    if |s| < size then s else Pending(size, s[size..])
  }

  /** Feeding `s` and then `t` is feeding both at once, what `s` left behind in front of `t`. */
  lemma {:induction false} InTwoParts<L>(step: (L, bytes) -> L, size: nat, l: L, s: bytes, t: bytes)
    requires 0 < size
    ensures Consume(step, size, l, s + t) == Consume(step, size, Consume(step, size, l, s), Pending(size, s) + t)
    ensures Pending(size, s + t) == Pending(size, Pending(size, s) + t)
    decreases |s|
  {
    if |s| >= size {
      assert (s + t)[..size] == s[..size] && (s + t)[size..] == s[size..] + t;
      InTwoParts(step, size, step(l, s[..size]), s[size..], t);
    }
  }

  /** Less than a stripe. */
  lemma OnlyHeld<L>(step: (L, bytes) -> L, size: nat, l: L, s: bytes)
    requires 0 < size && |s| < size
    ensures Consume(step, size, l, s) == l && Pending(size, s) == s
  {
  }

  /** A buffer completed by the first `p` bytes of the input. */
  lemma {:induction false} ToppedUp<L>(step: (L, bytes) -> L, size: nat, l: L, held: bytes, input: bytes, p: nat)
    requires 0 < size && |held| + p == size && p <= |input|
    ensures Consume(step, size, l, held + input) == Consume(step, size, step(l, held + input[..p]), input[p..])
    ensures Pending(size, held + input) == Pending(size, input[p..])
  {
    assert (held + input)[..size] == held + input[..p] && (held + input)[size..] == input[p..];
  }

  /** One stripe of the input. */
  lemma {:induction false} NextStripe<L>(step: (L, bytes) -> L, size: nat, l: L, input: bytes, p: nat)
    requires 0 < size && p + size <= |input|
    ensures Consume(step, size, l, input[p..]) == Consume(step, size, step(l, input[p..p + size]), input[p + size..])
    ensures Pending(size, input[p..]) == Pending(size, input[p + size..])
  {
    assert input[p..][..size] == input[p..p + size] && input[p..][size..] == input[p + size..];
  }

  // ----- Parts of an input -----

  function Concat(parts: seq<bytes>): bytes {
    if |parts| == 0 then [] else Concat(parts[..|parts| - 1]) + parts[|parts| - 1]
  }

  lemma ConcatNone(parts: seq<bytes>)
    ensures Concat(parts[..0]) == []
  {
  }

  lemma ConcatOne(parts: seq<bytes>, i: nat)
    requires i < |parts|
    ensures Concat(parts[..i + 1]) == Concat(parts[..i]) + parts[i]
  {
    assert parts[..i + 1][..i] == parts[..i];
  }
}
