/** LZ4HC_countPattern, LZ4HC_reverseCountPattern and LZ4HC_countBack: lengths of repeated
    patterns and of common suffixes, read a machine word at a time. */
module HcPattern {
  import opened Bytes
  import opened CommonBytes

  /** Every byte of `s[from..to]` is `b`. */
  ghost predicate AllBytes(s: bytes, from: int, to: int, b: byte)
    requires 0 <= from && to <= |s|
  {
    forall t :: from <= t < to ==> s[t] == b
  }

  /** A pattern that the analysis confirms is four times the same byte. */
  predicate Confirmed(pattern: bytes)
    requires |pattern| == 4
  {
    && (pattern[0] == pattern[2] && pattern[1] == pattern[3])
    && pattern[0] == pattern[3]
  }

  /** LZ4HC_rotatePattern: a left rotation of the little-endian word by whole bytes. */
  function RotatePattern(rotate: int, pattern: bytes): (p: bytes)
    requires |pattern| == 4
    ensures |p| == 4
  {
    var r := rotate % 4;
    pattern[4 - r..] + pattern[..4 - r]
  }

  /** Rotation does not change a confirmed pattern. */
  lemma RotateConfirmed(rotate: int, pattern: bytes)
    requires |pattern| == 4 && Confirmed(pattern)
    ensures RotatePattern(rotate, pattern) == pattern
  {
    var p := RotatePattern(rotate, pattern);
    assert forall i :: 0 <= i < 4 ==> pattern[i] == pattern[0];
    assert forall i :: 0 <= i < 4 ==> p[i] == pattern[0];
  }

  /** LZ4HC_countPattern: how far from `ip0` on, before `iEnd`, the pattern repeats. */
  method CountPattern(s: bytes, ip0: nat, iEnd: nat, pattern: bytes) returns (n: nat)
    requires ip0 <= iEnd <= |s| && |pattern| == 4 && Confirmed(pattern)
    ensures ip0 + n <= iEnd
    ensures AllBytes(s, ip0, ip0 + n, pattern[0])
    ensures ip0 + n < iEnd ==> s[ip0 + n] != pattern[0]
  {
    hide CommonPrefix, Diff, CommonCount;
    var ip := ip0;
    var word := pattern + pattern;
    assert forall i :: 0 <= i < 8 ==> word[i] == pattern[0];
    while ip < iEnd - 7
      invariant ip0 <= ip <= iEnd
      invariant AllBytes(s, ip0, ip, pattern[0])
    {
      var diff := Diff(s, ip, word, 0);
      DiffIs(s, ip, word, 0);
      assert AllBytes(s, ip, ip + CommonPrefix(s, ip, word, 0, 8), pattern[0]);
      if diff != 0 {
        return ip + CommonCount(diff) - ip0;
      }
      ip := ip + 8;
    }
    var k := 0;
    while ip < iEnd && s[ip] == word[k]
      invariant ip0 <= ip <= iEnd && k <= 7 && ip + (7 - k) >= iEnd
      invariant AllBytes(s, ip0, ip, pattern[0])
      decreases iEnd - ip
    {
      ip, k := ip + 1, k + 1;
    }
    n := ip - ip0;
  }

  /** LZ4HC_reverseCountPattern: how far before `ip0`, down to `iLow`, the pattern repeats. */
  method ReverseCountPattern(s: bytes, ip0: nat, iLow: nat, pattern: bytes) returns (n: nat)
    requires iLow <= ip0 <= |s| && |pattern| == 4 && Confirmed(pattern)
    ensures n <= ip0 - iLow
    ensures AllBytes(s, ip0 - n, ip0, pattern[0])
    ensures n < ip0 - iLow ==> s[ip0 - n - 1] != pattern[0]
  {
    var ip := ip0;
    assert forall i :: 0 <= i < 4 ==> pattern[i] == pattern[0];
    while ip >= iLow + 4 && SameWord(s, ip - 4, pattern, 0, 4)
      invariant iLow <= ip <= ip0
      invariant AllBytes(s, ip, ip0, pattern[0])
      decreases ip
    {
      SameWordBytes(s, ip - 4, pattern, 0, 4);
      ip := ip - 4;
    }
    ghost var word := ip;
    if word >= iLow + 4 {
      SameWordBytes(s, word - 4, pattern, 0, 4);
    }
    var bytePtr := 3;
    while ip > iLow
      invariant iLow <= ip <= word && bytePtr == 3 - (word - ip) && bytePtr >= 0
      invariant AllBytes(s, ip, ip0, pattern[0])
      decreases ip
    {
      if s[ip - 1] != pattern[bytePtr] { return ip0 - ip; }
      ip, bytePtr := ip - 1, bytePtr - 1;
    }
    n := ip0 - ip;
  }

  /** LZ4HC_countBack: the number of common bytes before `ip` and `m`, as a positive number. */
  method CountBack(a: bytes, ip: nat, b: bytes, m: nat, iMin: nat, mMin: nat) returns (back: nat)
    requires iMin <= ip <= |a| && mMin <= m <= |b|
    ensures back <= ip - iMin && back <= m - mMin
    ensures forall t :: ip - back <= t < ip ==> a[t] == b[t - ip + m]
    ensures back < ip - iMin && back < m - mMin ==> a[ip - back - 1] != b[m - back - 1]
  {
    back := 0;
    var min := Min(ip - iMin, m - mMin);
    while back < min && a[ip - back - 1] == b[m - back - 1]
      invariant back <= min
      invariant forall t :: ip - back <= t < ip ==> a[t] == b[t - ip + m]
    {
      back := back + 1;
    }
  }
}
