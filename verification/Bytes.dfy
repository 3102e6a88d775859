/** Bytes, byte strings and little-endian fields. */
module Bytes {

  type byte = b: int | 0 <= b < 256

  type bytes = seq<byte>

  const KB64: nat := 65536
  const GB1: nat := 0x4000_0000

  function Min(a: int, b: int): int {
    if a < b then a else b
  }

  function Max(a: int, b: int): int {
    if a < b then b else a
  }

  /** Two bytes at position `i`, least significant first. */
  function ReadLE16(s: bytes, i: nat): (v: nat)
    requires i + 2 <= |s|
    ensures v < 65536
  {
    var lo: int := s[i];
    var hi: int := s[i + 1];
    lo + 256 * hi
  }

  function LE16(v: nat): (s: bytes)
    requires v < 65536
    ensures |s| == 2
  {
    [v % 256, v / 256]
  }

  /** A slice of a slice. */
  lemma SubSlice(s: bytes, a: nat, b: nat, i: nat, j: nat)
    requires a <= b <= |s| && i <= j <= b - a
    ensures s[a..b][i..j] == s[a + i..a + j]
  {
    var p, q := s[a..b][i..j], s[a + i..a + j];
    assert |p| == |q|;
    assert forall k :: 0 <= k < |p| ==> p[k] == q[k];
  }

  /** Two regions without a common byte. */
  ghost predicate Disjoint(a: nat, n: nat, b: nat, m: nat) {
    n == 0 || m == 0 || a + n <= b || b + m <= a
  }

  /** A slice away from the only region that has changed. */
  lemma SliceKept(was: bytes, now: bytes, lo: nat, hi: nat, a: nat, n: nat)
    requires lo <= hi <= |was| == |now| && Disjoint(lo, hi - lo, a, n)
    requires forall i :: 0 <= i < |was| && !(a <= i < a + n) ==> now[i] == was[i]
    ensures now[lo..hi] == was[lo..hi]
  {
    var p, q := now[lo..hi], was[lo..hi];
    assert |p| == |q|;
    forall i | 0 <= i < |p| ensures p[i] == q[i] {
      assert p[i] == now[lo + i] && q[i] == was[lo + i];
    }
  }
}
