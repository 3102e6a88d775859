/** LZ4_NbCommonBytes and LZ4_count: the length of the common prefix of two byte strings, found
    eight bytes at a time with a multiplication in place of a bit count. */
module CommonBytes {
  import opened Bytes

  // ----- The bit trick, on little-endian words -----

  const M: bv64 := 0x0101010101010101

  /** The software fallback of LZ4_NbCommonBytes for 64-bit little-endian words. */
  function NbCommonBytes(val: bv64): bv64 {
    (((val ^ (val - 1)) & (M - 1)) * M) >> 56
  }

  /** The result of LZ4_NbCommonBytes as a number. */
  function CommonCount(val: bv64): nat {
    NbCommonBytes(val) as nat
  }

  /** LZ4_read_ARCH */
  function Load(s: seq<bv8>): bv64
    requires |s| == 8
  {
    (s[0] as bv64) | ((s[1] as bv64) << 8) | ((s[2] as bv64) << 16) | ((s[3] as bv64) << 24)
    | ((s[4] as bv64) << 32) | ((s[5] as bv64) << 40) | ((s[6] as bv64) << 48) | ((s[7] as bv64) << 56)
  }

  /** The xor of two words has its lowest non-zero byte where the words first differ. */
  lemma {:induction false} FirstDifference(a: seq<bv8>, b: seq<bv8>, k: nat)
    requires |a| == 8 == |b| && k < 8
    requires a[..k] == b[..k] && a[k] != b[k]
    ensures (Load(a) ^ Load(b)) & LowBytes(k) == 0
    ensures (Load(a) ^ Load(b)) & ByteMask(k) != 0
  {
    assert forall i :: 0 <= i < k ==> a[i] == a[..k][i] == b[..k][i] == b[i];
  }

  function LowBytes(k: nat): bv64
    requires k < 8
  {
    if k == 0 then 0 else if k == 1 then 0xFF else if k == 2 then 0xFFFF else if k == 3 then 0xFFFFFF
    else if k == 4 then 0xFFFFFFFF else if k == 5 then 0xFFFFFFFFFF else if k == 6 then 0xFFFFFFFFFFFF
    else 0xFFFFFFFFFFFFFF
  }

  function ByteMask(k: nat): bv64
    requires k < 8
  {
    if k == 0 then 0xFF else if k == 1 then 0xFF00 else if k == 2 then 0xFF0000 else if k == 3 then 0xFF000000
    else if k == 4 then 0xFF00000000 else if k == 5 then 0xFF0000000000 else if k == 6 then 0xFF000000000000
    else 0xFF00000000000000
  }

  /** The bytes of `M - 1` below byte `k`. */
  function Ones(k: nat): bv64
    requires k < 8
  {
    if k == 0 then 0 else if k == 1 then 0x0100 else if k == 2 then 0x010100 else if k == 3 then 0x01010100
    else if k == 4 then 0x0101010100 else if k == 5 then 0x010101010100 else if k == 6 then 0x01010101010100
    else 0x0101010101010100
  }

  function ToWord(k: nat): bv64
    requires k < 8
  {
    if k == 0 then 0 else if k == 1 then 1 else if k == 2 then 2 else if k == 3 then 3
    else if k == 4 then 4 else if k == 5 then 5 else if k == 6 then 6 else 7
  }

  lemma TrickOnWord(val: bv64, k: nat)
    requires k < 8 && val & LowBytes(k) == 0 && val & ByteMask(k) != 0
    ensures NbCommonBytes(val) == ToWord(k)
  {
    assert (val ^ (val - 1)) & (M - 1) == Ones(k);
    assert (Ones(k) * M) >> 56 == ToWord(k);
  }

  /** For words that first differ in byte `k`, the trick computes `k`. */
  lemma NbCommonBytesCorrect(a: seq<bv8>, b: seq<bv8>, k: nat)
    requires |a| == 8 == |b| && k < 8
    requires a[..k] == b[..k] && a[k] != b[k]
    ensures NbCommonBytes(Load(a) ^ Load(b)) == ToWord(k)
  {
    hide Load, NbCommonBytes, LowBytes, ByteMask, ToWord;
    FirstDifference(a, b, k);
    TrickOnWord(Load(a) ^ Load(b), k);
  }

  // ----- Common prefixes -----

  /** Length of the common prefix of `a[i..i + n]` and `b[j..j + n]`. */
  function CommonPrefix(a: bytes, i: nat, b: bytes, j: nat, n: nat): (k: nat)
    requires i + n <= |a| && j + n <= |b|
    ensures k <= n
    ensures forall t :: i <= t < i + k ==> a[t] == b[t - i + j]
    ensures k < n ==> a[i + k] != b[j + k]
    decreases n
  {
    if n == 0 || a[i] != b[j] then 0 else 1 + CommonPrefix(a, i + 1, b, j + 1, n - 1)
  }

  /** The common prefix is the only length with these two properties. */
  lemma CommonPrefixUnique(a: bytes, i: nat, b: bytes, j: nat, n: nat, k: nat)
    requires i + n <= |a| && j + n <= |b| && k <= n
    requires forall t :: i <= t < i + k ==> a[t] == b[t - i + j]
    requires k < n ==> a[i + k] != b[j + k]
    ensures CommonPrefix(a, i, b, j, n) == k
  {
    hide CommonPrefix;
  }

  /** Comparison of two blocks read as machine words of `m` bytes. */
  predicate SameWord(a: bytes, i: nat, b: bytes, j: nat, m: nat)
    requires i + m <= |a| && j + m <= |b|
  {
    a[i..i + m] == b[j..j + m]
  }

  lemma SameWordBytes(a: bytes, i: nat, b: bytes, j: nat, m: nat)
    requires i + m <= |a| && j + m <= |b|
    ensures SameWord(a, i, b, j, m) <==> forall t :: i <= t < i + m ==> a[t] == b[t - i + j]
  {
    var x, y := a[i..i + m], b[j..j + m];
    if SameWord(a, i, b, j, m) {
      assert forall t :: i <= t < i + m ==> a[t] == x[t - i] == y[t - i] == b[t - i + j];
    }
  }

  /** Comparing a word tells whether the common prefix has its length, and if so the search goes
      on behind it. */
  lemma {:induction false} CompareWord(a: bytes, i: nat, b: bytes, j: nat, n: nat, m: nat)
    requires i + n <= |a| && j + n <= |b| && m <= n
    ensures SameWord(a, i, b, j, m) <==> m <= CommonPrefix(a, i, b, j, n)
    ensures SameWord(a, i, b, j, m) ==>
              CommonPrefix(a, i, b, j, n) == m + CommonPrefix(a, i + m, b, j + m, n - m)
  {
    hide CommonPrefix, SameWord;
    SameWordBytes(a, i, b, j, m);
    var r := CommonPrefix(a, i, b, j, n);
    if r < m {
      assert a[i + r] != b[i + r - i + j];
    } else {
      var q := CommonPrefix(a, i + m, b, j + m, n - m);
      assert forall t :: i + m <= t < i + m + q ==> a[t] == b[t - (i + m) + (j + m)] == b[t - i + j];
      if SameWord(a, i, b, j, m) {
        CommonPrefixUnique(a, i, b, j, n, m + q);
      }
    }
  }

  // ----- Words read from memory -----

  function Pack(b0: bool, b1: bool, b2: bool, b3: bool, b4: bool, b5: bool, b6: bool, b7: bool): bv8 {
    (if b0 then 0x01 else 0) | (if b1 then 0x02 else 0) | (if b2 then 0x04 else 0) | (if b3 then 0x08 else 0)
    | (if b4 then 0x10 else 0) | (if b5 then 0x20 else 0) | (if b6 then 0x40 else 0) | (if b7 then 0x80 else 0)
  }

  function Odd(n: nat): bool {
    n % 2 == 1
  }

  /** A byte as its eight bits. */
  function Octet(b: byte): bv8 {
    Pack(Odd(b), Odd(b / 2), Odd(b / 4), Odd(b / 8), Odd(b / 16), Odd(b / 32), Odd(b / 64), Odd(b / 128))
  }

  lemma PackInjective(b0: bool, b1: bool, b2: bool, b3: bool, b4: bool, b5: bool, b6: bool, b7: bool,
                      c0: bool, c1: bool, c2: bool, c3: bool, c4: bool, c5: bool, c6: bool, c7: bool)
    requires Pack(b0, b1, b2, b3, b4, b5, b6, b7) == Pack(c0, c1, c2, c3, c4, c5, c6, c7)
    ensures b0 == c0 && b1 == c1 && b2 == c2 && b3 == c3 && b4 == c4 && b5 == c5 && b6 == c6 && b7 == c7
  {
  }

  lemma FromHalf(x: nat, y: nat, k: nat)
    requires 0 < k && Odd(x / k) == Odd(y / k) && x / (2 * k) == y / (2 * k)
    requires x / (2 * k) == x / k / 2 && y / (2 * k) == y / k / 2
    ensures x / k == y / k
  {
  }

  lemma FromBits(x: byte, y: byte)
    requires Odd(x) == Odd(y) && Odd(x / 2) == Odd(y / 2) && Odd(x / 4) == Odd(y / 4) && Odd(x / 8) == Odd(y / 8)
    requires Odd(x / 16) == Odd(y / 16) && Odd(x / 32) == Odd(y / 32)
    requires Odd(x / 64) == Odd(y / 64) && Odd(x / 128) == Odd(y / 128)
    ensures x == y
  {
    hide Odd;
    FromHalf(x, y, 128);
    FromHalf(x, y, 64);
    FromHalf(x, y, 32);
    FromHalf(x, y, 16);
    FromHalf(x, y, 8);
    FromHalf(x, y, 4);
    FromHalf(x, y, 2);
    FromHalf(x, y, 1);
  }

  lemma OctetInjective(x: byte, y: byte)
    ensures Octet(x) == Octet(y) <==> x == y
  {
    hide Pack, Odd;
    if Octet(x) == Octet(y) {
      PackInjective(Odd(x), Odd(x / 2), Odd(x / 4), Odd(x / 8), Odd(x / 16), Odd(x / 32), Odd(x / 64), Odd(x / 128),
                    Odd(y), Odd(y / 2), Odd(y / 4), Odd(y / 8), Odd(y / 16), Odd(y / 32), Odd(y / 64), Odd(y / 128));
      FromBits(x, y);
    }
  }

  /** The eight bytes of `s` from `i` on. */
  function Octets(s: bytes, i: nat): (r: seq<bv8>)
    requires i + 8 <= |s|
    ensures |r| == 8
  {
    [Octet(s[i]), Octet(s[i + 1]), Octet(s[i + 2]), Octet(s[i + 3]),
     Octet(s[i + 4]), Octet(s[i + 5]), Octet(s[i + 6]), Octet(s[i + 7])]
  }

  /** LZ4_read_ARCH of both places, and their xor. */
  function Diff(a: bytes, i: nat, b: bytes, j: nat): bv64
    requires i + 8 <= |a| && j + 8 <= |b|
  {
    Load(Octets(a, i)) ^ Load(Octets(b, j))
  }

  lemma OctetsAt(s: bytes, i: nat)
    requires i + 8 <= |s|
    ensures forall t :: 0 <= t < 8 ==> Octets(s, i)[t] == Octet(s[i + t])
  {
    hide Octet;
  }

  lemma FirstOctet(a: bytes, i: nat, b: bytes, j: nat, k: nat)
    requires i + 8 <= |a| && j + 8 <= |b| && k < 8
    requires (forall t :: i <= t < i + k ==> a[t] == b[t - i + j]) && a[i + k] != b[j + k]
    ensures Octets(a, i)[..k] == Octets(b, j)[..k] && Octets(a, i)[k] != Octets(b, j)[k]
  {
    hide Octet, Octets;
    OctetsAt(a, i);
    OctetsAt(b, j);
    OctetInjective(a[i + k], b[j + k]);
    forall t | 0 <= t < k ensures Octets(a, i)[t] == Octets(b, j)[t] {
      assert a[i + t] == b[j + t];
    }
  }

  lemma SameOctets(a: bytes, i: nat, b: bytes, j: nat)
    requires i + 8 <= |a| && j + 8 <= |b| && (forall t :: i <= t < i + 8 ==> a[t] == b[t - i + j])
    ensures Octets(a, i) == Octets(b, j)
  {
    hide Octet, Octets;
    OctetsAt(a, i);
    OctetsAt(b, j);
    forall t | 0 <= t < 8 ensures Octets(a, i)[t] == Octets(b, j)[t] {
      assert a[i + t] == b[j + t];
    }
  }

  lemma XorSelf(x: bv64)
    ensures x ^ x == 0
  {
  }

  lemma NotZero(val: bv64, k: nat)
    requires k < 8 && val & ByteMask(k) != 0
    ensures val != 0
  {
  }

  lemma WordIndex(k: nat)
    requires k < 8
    ensures ToWord(k) as nat == k
  {
  }

  /** The xor of two words tells whether they agree, and the trick on it how far. */
  lemma {:induction false} DiffIs(a: bytes, i: nat, b: bytes, j: nat)
    requires i + 8 <= |a| && j + 8 <= |b|
    ensures var k := CommonPrefix(a, i, b, j, 8);
      && (Diff(a, i, b, j) == 0 <==> k == 8)
      && (k < 8 ==> CommonCount(Diff(a, i, b, j)) == k)
  {
    hide CommonPrefix, Load, NbCommonBytes, LowBytes, ByteMask, ToWord, Octets, Octet;
    var k := CommonPrefix(a, i, b, j, 8);
    var x, y := Octets(a, i), Octets(b, j);
    if k == 8 {
      SameOctets(a, i, b, j);
      XorSelf(Load(x));
    } else {
      FirstOctet(a, i, b, j, k);
      FirstDifference(x, y, k);
      NotZero(Load(x) ^ Load(y), k);
      NbCommonBytesCorrect(x, y, k);
      WordIndex(k);
    }
  }

  /** What a word comparison says about the whole common prefix. */
  lemma {:induction false} WordStep(a: bytes, i: nat, b: bytes, j: nat, n: nat)
    requires i + n <= |a| && j + n <= |b| && 8 <= n
    ensures var diff := Diff(a, i, b, j);
      CommonPrefix(a, i, b, j, n)
      == if diff != 0 then CommonCount(diff) else 8 + CommonPrefix(a, i + 8, b, j + 8, n - 8)
  {
    hide CommonPrefix, SameWord, Diff, CommonCount;
    DiffIs(a, i, b, j);
    CompareWord(a, i, b, j, 8, 8);
    CompareWord(a, i, b, j, n, 8);
    var k := CommonPrefix(a, i, b, j, 8);
    if k < 8 { CommonPrefixUnique(a, i, b, j, n, k); }
  }

  const STEPSIZE := 8

  /** LZ4_count: `pIn` and `pMatch` may lie in different memory segments. */
  method Count(a: bytes, pStart: nat, b: bytes, pMatch0: nat, pInLimit: nat) returns (n: nat)
    requires pStart <= pInLimit <= |a| && pMatch0 + (pInLimit - pStart) <= |b|
    ensures n == CommonPrefix(a, pStart, b, pMatch0, pInLimit - pStart)
  {
    hide CommonPrefix, SameWord, Diff, CommonCount;
    ghost var total := CommonPrefix(a, pStart, b, pMatch0, pInLimit - pStart);
    var pIn, pMatch := pStart, pMatch0;
    while pIn < pInLimit - (STEPSIZE - 1)
      invariant pStart <= pIn <= pInLimit && pMatch - pMatch0 == pIn - pStart
      invariant total == pIn - pStart + CommonPrefix(a, pIn, b, pMatch, pInLimit - pIn)
    {
      var diff := Diff(a, pIn, b, pMatch);
      WordStep(a, pIn, b, pMatch, pInLimit - pIn);
      if diff != 0 {
        return pIn + CommonCount(diff) - pStart;
      }
      pIn, pMatch := pIn + STEPSIZE, pMatch + STEPSIZE;
    }
    n := CountTail(a, pIn, b, pMatch, pInLimit);
    n := n + (pIn - pStart);
  }

  /** The common prefix, without what is known of it. */
  function Agreeing(a: bytes, i: nat, b: bytes, j: nat, n: nat): nat
    requires i + n <= |a| && j + n <= |b|
  {
    CommonPrefix(a, i, b, j, n)
  }

  /** The count as a length of equal bytes. */
  method CountSame(a: bytes, i: nat, b: bytes, j: nat, limit: nat) returns (n: nat)
    requires i <= limit <= |a| && j + (limit - i) <= |b|
    ensures i + n <= limit && n == Agreeing(a, i, b, j, limit - i)
    ensures forall t :: i <= t < i + n ==> a[t] == b[t - i + j]
  {
    hide CommonPrefix;
    n := Count(a, i, b, j, limit);
  }

  /** The last bytes: four, two and one at a time. */
  method CountTail(a: bytes, pStart: nat, b: bytes, pMatch0: nat, pInLimit: nat) returns (n: nat)
    requires pStart <= pInLimit <= |a| && pMatch0 + (pInLimit - pStart) <= |b|
    requires pInLimit < pStart + STEPSIZE
    ensures n == CommonPrefix(a, pStart, b, pMatch0, pInLimit - pStart)
  {
    hide CommonPrefix;
    var pIn, pMatch := TryWord(a, pStart, b, pMatch0, pInLimit, 4);
    pIn, pMatch := TryWord(a, pIn, b, pMatch, pInLimit, 2);
    pIn, pMatch := TryWord(a, pIn, b, pMatch, pInLimit, 1);
    n := pIn - pStart;
  }

  method TryWord(a: bytes, pIn: nat, b: bytes, pMatch: nat, pInLimit: nat, w: nat) returns (pIn': nat, pMatch': nat)
    requires pIn <= pInLimit <= |a| && pMatch + (pInLimit - pIn) <= |b|
    requires CommonPrefix(a, pIn, b, pMatch, pInLimit - pIn) < 2 * w
    ensures pIn <= pIn' <= pInLimit && pMatch' - pMatch == pIn' - pIn
    ensures var rest := CommonPrefix(a, pIn', b, pMatch', pInLimit - pIn');
            && rest < w
            && CommonPrefix(a, pIn, b, pMatch, pInLimit - pIn) == pIn' - pIn + rest
  {
    hide CommonPrefix, SameWord;
    pIn', pMatch' := pIn, pMatch;
    if pIn < pInLimit - (w - 1) {
      CompareWord(a, pIn, b, pMatch, pInLimit - pIn, w);
      if SameWord(a, pIn, b, pMatch, w) { pIn', pMatch' := pIn + w, pMatch + w; }
    }
  }
}
