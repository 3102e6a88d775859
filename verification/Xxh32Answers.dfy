/** Known answers of XXH32: constants, shifts and rotations of every stage, fixed by the hashes of given bytes. */
module Xxh32Answers {
  import opened Bytes
  import opened XxhStripes
  import opened Xxh32

  lemma WordAt(s: bytes, i: nat, w: u32)
    requires i + 4 <= |s| && LE32(s[i], s[i + 1], s[i + 2], s[i + 3]) == w
    ensures ReadLE32(s, i) == w
  {
  }

  lemma OneStripe(l: Lanes, s: bytes, p: nat, l': Lanes)
    requires p + 16 <= |s| && Round(l.v1, ReadLE32(s, p)) == l'.v1 && Round(l.v2, ReadLE32(s, p + 4)) == l'.v2
    requires Round(l.v3, ReadLE32(s, p + 8)) == l'.v3 && Round(l.v4, ReadLE32(s, p + 12)) == l'.v4
    ensures Consume(Step, 16, l, s[p..]) == Consume(Step, 16, l', s[p + 16..])
    ensures Pending(16, s[p..]) == Pending(16, s[p + 16..])
  {
    hide Round, LE32;
    var a := s[p..p + 16];
    NextStripe(Step, 16, l, s, p);
    assert Step(l, a) == l';
  }

  lemma NoStripe(l: Lanes, p: bytes)
    requires |p| < 16
    ensures Consume(Step, 16, l, p) == l && Pending(16, p) == p
  {
    OnlyHeld(Step, 16, l, p);
  }

  lemma LengthAdded(h: u32, n: nat, w: u32)
    requires n < 0x1_0000_0000 && Word(n) == w
    ensures AddLength(h, n) == Add(h, w)
  {
    hide Word, Add;
  }

  lemma Four(h: u32, s: bytes, p: nat, w: u32)
    requires p + 4 <= |s| && LE32(s[p], s[p + 1], s[p + 2], s[p + 3]) == w
    ensures Tail(h, s[p..]) == Tail(Mix4(h, w), s[p + 4..])
  {
    hide LE32, Mix4, Mix1;
    assert s[p..][4..] == s[p + 4..];
  }

  lemma One(h: u32, s: bytes, p: nat, w: u32)
    requires p < |s| < p + 4 && Word(s[p]) == w
    ensures Tail(h, s[p..]) == Tail(Mix1(h, w), s[p + 1..])
  {
    hide Word, Mix4, Mix1;
    assert s[p..][1..] == s[p + 1..] && s[p] % 0x1_0000_0000 == s[p];
  }

  lemma Nothing(h: u32, s: bytes)
    ensures Tail(h, s[|s|..]) == h
  {
  }

  lemma ShortHash(s: bytes, seed: u32, h: u32)
    requires |s| < 16 && AddLength(Small(seed), |s|) == h
    ensures Hash(s, seed) == Avalanche(Tail(h, s[0..]))
  {
    hide Small, AddLength, Tail, Avalanche, Init, Step;
    OnlyHeld(Step, 16, Init(seed), s);
    assert s[0..] == s;
  }

  lemma LongHash(s: bytes, seed: u32, l: Lanes, p: nat, h: u32)
    requires 16 <= |s| && p <= |s|
    requires Consume(Step, 16, Init(seed), s[0..]) == l && Pending(16, s[0..]) == s[p..]
    requires AddLength(Merge(l), |s|) == h
    ensures Hash(s, seed) == Avalanche(Tail(h, s[p..]))
  {
    hide Consume, Pending, Merge, AddLength, Tail, Avalanche, Init, Step;
    assert s[0..] == s;
  }

  /** The bytes 0, 1, 2 and so on. */
  function Ramp(n: nat): (s: bytes)
    requires n <= 256
    ensures |s| == n && forall i :: 0 <= i < n ==> s[i] == i
  {
    seq(n, i requires 0 <= i < 256 => i)
  }

  lemma Bits0()
    ensures Small(0x0) == 0x165667B1
    ensures Add(0x165667B1, 0x0) == 0x165667B1
    ensures Avalanche(0x165667B1) == 0x2CC5D05
  {
  }

  lemma Words0()
    ensures Word(0) == 0x0
  {
  }

  lemma Answer0()
    ensures Hash([], 0x0) == 0x2CC5D05
  {
    hide *;
    var s: bytes := [];
    Bits0();
    Words0();
    LengthAdded(0x165667B1, 0, 0x0);
    Nothing(0x165667B1, s);
    ShortHash(s, 0x0, 0x165667B1);
  }

  lemma Bits0Seeded()
    ensures Small(0x9E3779B1) == 0xB48DE162
    ensures Add(0xB48DE162, 0x0) == 0xB48DE162
    ensures Avalanche(0xB48DE162) == 0x36B78AE7
  {
  }

  lemma Words0Seeded()
    ensures Word(0) == 0x0
  {
  }

  lemma Answer0Seeded()
    ensures Hash([], 0x9E3779B1) == 0x36B78AE7
  {
    hide *;
    var s: bytes := [];
    Bits0Seeded();
    Words0Seeded();
    LengthAdded(0xB48DE162, 0, 0x0);
    Nothing(0xB48DE162, s);
    ShortHash(s, 0x9E3779B1, 0xB48DE162);
  }

  lemma Bits1()
    ensures Small(0x0) == 0x165667B1
    ensures Add(0x165667B1, 0x1) == 0x165667B2
    ensures Mix1(0x165667B2, 0x9E) == 0xEE8CE9ED
    ensures Avalanche(0xEE8CE9ED) == 0xB85CBEE5
  {
  }

  lemma Words1()
    ensures Word(1) == 0x1
    ensures Word(158) == 0x9E
  {
  }

  lemma Answer1()
    ensures Hash([158], 0x0) == 0xB85CBEE5
  {
    hide *;
    var s: bytes := [158];
    Bits1();
    Words1();
    LengthAdded(0x165667B1, 1, 0x1);
    One(0x165667B2, s, 0, 0x9E);
    Nothing(0xEE8CE9ED, s);
    ShortHash(s, 0x0, 0x165667B2);
  }

  lemma Bits4Seeded()
    ensures Small(0x9E3779B1) == 0xB48DE162
    ensures Add(0xB48DE162, 0x4) == 0xB48DE166
    ensures Mix4(0xB48DE166, 0x4B1FFF9E) == 0x2F46BF12
    ensures Avalanche(0x2F46BF12) == 0x969FC498
  {
  }

  lemma Words4Seeded()
    ensures Word(4) == 0x4
    ensures LE32(158, 255, 31, 75) == 0x4B1FFF9E
  {
  }

  lemma Answer4Seeded()
    ensures Hash([158, 255, 31, 75], 0x9E3779B1) == 0x969FC498
  {
    hide *;
    var s: bytes := [158, 255, 31, 75];
    Bits4Seeded();
    Words4Seeded();
    LengthAdded(0xB48DE162, 4, 0x4);
    Four(0xB48DE166, s, 0, 0x4B1FFF9E);
    Nothing(0x2F46BF12, s);
    ShortHash(s, 0x9E3779B1, 0xB48DE166);
  }

  lemma Bits5()
    ensures Small(0x0) == 0x165667B1
    ensures Add(0x165667B1, 0x5) == 0x165667B6
    ensures Mix4(0x165667B6, 0x4B1FFF9E) == 0x4906C1B1
    ensures Mix1(0x4906C1B1, 0x5E) == 0x62646006
    ensures Avalanche(0x62646006) == 0xD7A01D1F
  {
  }

  lemma Words5()
    ensures Word(5) == 0x5
    ensures LE32(158, 255, 31, 75) == 0x4B1FFF9E
    ensures Word(94) == 0x5E
  {
  }

  lemma Answer5()
    ensures Hash([158, 255, 31, 75, 94], 0x0) == 0xD7A01D1F
  {
    hide *;
    var s: bytes := [158, 255, 31, 75, 94];
    Bits5();
    Words5();
    LengthAdded(0x165667B1, 5, 0x5);
    Four(0x165667B6, s, 0, 0x4B1FFF9E);
    One(0x4906C1B1, s, 4, 0x5E);
    Nothing(0x62646006, s);
    ShortHash(s, 0x0, 0x165667B6);
  }

  lemma Bits14Seeded()
    ensures Small(0x9E3779B1) == 0xB48DE162
    ensures Add(0xB48DE162, 0xE) == 0xB48DE170
    ensures Mix4(0xB48DE170, 0x3020100) == 0x600732D4
    ensures Mix4(0x600732D4, 0x7060504) == 0x2DE88752
    ensures Mix4(0x2DE88752, 0xB0A0908) == 0xC6CD6E00
    ensures Mix1(0xC6CD6E00, 0xC) == 0xFBAFD3B6
    ensures Mix1(0xFBAFD3B6, 0xD) == 0x33F02DF0
    ensures Avalanche(0x33F02DF0) == 0x9BB235FA
  {
  }

  lemma Words14Seeded()
    ensures Word(14) == 0xE
    ensures LE32(0, 1, 2, 3) == 0x3020100
    ensures LE32(4, 5, 6, 7) == 0x7060504
    ensures LE32(8, 9, 10, 11) == 0xB0A0908
    ensures Word(12) == 0xC
    ensures Word(13) == 0xD
  {
  }

  lemma Answer14Seeded()
    ensures Hash(Ramp(14), 0x9E3779B1) == 0x9BB235FA
  {
    hide *;
    var s: bytes := Ramp(14);
    Bits14Seeded();
    Words14Seeded();
    LengthAdded(0xB48DE162, 14, 0xE);
    Four(0xB48DE170, s, 0, 0x3020100);
    Four(0x600732D4, s, 4, 0x7060504);
    Four(0x2DE88752, s, 8, 0xB0A0908);
    One(0xC6CD6E00, s, 12, 0xC);
    One(0xFBAFD3B6, s, 13, 0xD);
    Nothing(0x33F02DF0, s);
    ShortHash(s, 0x9E3779B1, 0xB48DE170);
  }

  lemma Bits16()
    ensures Init(0x0) == Lanes(0x24234428, 0x85EBCA77, 0x0, 0x61C8864F)
    ensures Round(0x24234428, 0x3020100) == 0xF817BCCB
    ensures Round(0x85EBCA77, 0x7060504) == 0x222719B
    ensures Round(0x0, 0xB0A0908) == 0xD4B0C0A4
    ensures Round(0x61C8864F, 0xF0E0D0C) == 0xDEBB7574
    ensures Merge(Lanes(0xF817BCCB, 0x222719B, 0xD4B0C0A4, 0xDEBB7574)) == 0xE3460F50
    ensures Add(0xE3460F50, 0x10) == 0xE3460F60
    ensures Avalanche(0xE3460F60) == 0xB72837F4
  {
  }

  lemma Words16()
    ensures LE32(0, 1, 2, 3) == 0x3020100
    ensures LE32(4, 5, 6, 7) == 0x7060504
    ensures LE32(8, 9, 10, 11) == 0xB0A0908
    ensures LE32(12, 13, 14, 15) == 0xF0E0D0C
    ensures Word(16) == 0x10
  {
  }

  lemma Answer16()
    ensures Hash(Ramp(16), 0x0) == 0xB72837F4
  {
    hide *;
    var s: bytes := Ramp(16);
    Bits16();
    Words16();
    WordAt(s, 0, 0x3020100);
    WordAt(s, 4, 0x7060504);
    WordAt(s, 8, 0xB0A0908);
    WordAt(s, 12, 0xF0E0D0C);
    OneStripe(Lanes(0x24234428, 0x85EBCA77, 0x0, 0x61C8864F), s, 0,
      Lanes(0xF817BCCB, 0x222719B, 0xD4B0C0A4, 0xDEBB7574));
    NoStripe(Lanes(0xF817BCCB, 0x222719B, 0xD4B0C0A4, 0xDEBB7574), s[16..]);
    LengthAdded(0xE3460F50, 16, 0x10);
    Nothing(0xE3460F60, s);
    LongHash(s, 0x0, Lanes(0xF817BCCB, 0x222719B, 0xD4B0C0A4, 0xDEBB7574), 16, 0xE3460F60);
  }

  lemma Bits23Seeded()
    ensures Init(0x9E3779B1) == Lanes(0xC25ABDD9, 0x24234428, 0x9E3779B1, 0x0)
    ensures Round(0xC25ABDD9, 0x3020100) == 0xECCB9862
    ensures Round(0x24234428, 0x7060504) == 0xF6D64D32
    ensures Round(0x9E3779B1, 0xB0A0908) == 0xDA2E7C3B
    ensures Round(0x0, 0xF0E0D0C) == 0x4601B75A
    ensures Merge(Lanes(0xECCB9862, 0xF6D64D32, 0xDA2E7C3B, 0x4601B75A)) == 0x9EA9FE8
    ensures Add(0x9EA9FE8, 0x17) == 0x9EA9FFF
    ensures Mix4(0x9EA9FFF, 0x13121110) == 0x536F67AD
    ensures Mix1(0x536F67AD, 0x14) == 0xC9857541
    ensures Mix1(0xC9857541, 0x15) == 0xC46DF0B4
    ensures Mix1(0xC46DF0B4, 0x16) == 0xA6D4AA1E
    ensures Avalanche(0xA6D4AA1E) == 0xF2699654
  {
  }

  lemma Words23Seeded()
    ensures LE32(0, 1, 2, 3) == 0x3020100
    ensures LE32(4, 5, 6, 7) == 0x7060504
    ensures LE32(8, 9, 10, 11) == 0xB0A0908
    ensures LE32(12, 13, 14, 15) == 0xF0E0D0C
    ensures Word(23) == 0x17
    ensures LE32(16, 17, 18, 19) == 0x13121110
  {
  }

  lemma Words23SeededPart2()
    ensures Word(20) == 0x14
    ensures Word(21) == 0x15
    ensures Word(22) == 0x16
  {
  }

  lemma Answer23Seeded()
    ensures Hash(Ramp(23), 0x9E3779B1) == 0xF2699654
  {
    hide *;
    var s: bytes := Ramp(23);
    Bits23Seeded();
    Words23Seeded();
    Words23SeededPart2();
    WordAt(s, 0, 0x3020100);
    WordAt(s, 4, 0x7060504);
    WordAt(s, 8, 0xB0A0908);
    WordAt(s, 12, 0xF0E0D0C);
    OneStripe(Lanes(0xC25ABDD9, 0x24234428, 0x9E3779B1, 0x0), s, 0,
      Lanes(0xECCB9862, 0xF6D64D32, 0xDA2E7C3B, 0x4601B75A));
    NoStripe(Lanes(0xECCB9862, 0xF6D64D32, 0xDA2E7C3B, 0x4601B75A), s[16..]);
    LengthAdded(0x9EA9FE8, 23, 0x17);
    Four(0x9EA9FFF, s, 16, 0x13121110);
    One(0x536F67AD, s, 20, 0x14);
    One(0xC9857541, s, 21, 0x15);
    One(0xC46DF0B4, s, 22, 0x16);
    Nothing(0xA6D4AA1E, s);
    LongHash(s, 0x9E3779B1, Lanes(0xECCB9862, 0xF6D64D32, 0xDA2E7C3B, 0x4601B75A), 16, 0x9EA9FFF);
  }
}
