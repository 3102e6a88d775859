/** Known answers of XXH64: constants, shifts and rotations of every stage, fixed by the hashes of given bytes. */
module Xxh64Answers {
  import opened Bytes
  import opened XxhStripes
  import opened Xxh64

  lemma WordAt(s: bytes, i: nat, low: u64, high: u64, w: u64)
    requires i + 8 <= |s| && LE32(s[i], s[i + 1], s[i + 2], s[i + 3]) == low
    requires LE32(s[i + 4], s[i + 5], s[i + 6], s[i + 7]) == high && Halves(low, high) == w
    ensures ReadLE64(s, i) == w
  {
    hide LE32, Halves;
  }

  lemma OneStripe(l: Lanes, s: bytes, p: nat, l': Lanes)
    requires p + 32 <= |s| && Round(l.v1, ReadLE64(s, p)) == l'.v1 && Round(l.v2, ReadLE64(s, p + 8)) == l'.v2
    requires Round(l.v3, ReadLE64(s, p + 16)) == l'.v3 && Round(l.v4, ReadLE64(s, p + 24)) == l'.v4
    ensures Consume(Step, 32, l, s[p..]) == Consume(Step, 32, l', s[p + 32..])
    ensures Pending(32, s[p..]) == Pending(32, s[p + 32..])
  {
    hide Round, LE32, Halves;
    var a := s[p..p + 32];
    NextStripe(Step, 32, l, s, p);
    assert Step(l, a) == l';
  }

  lemma NoStripe(l: Lanes, p: bytes)
    requires |p| < 32
    ensures Consume(Step, 32, l, p) == l && Pending(32, p) == p
  {
    OnlyHeld(Step, 32, l, p);
  }

  lemma LengthAdded(h: u64, n: nat, w: u64)
    requires n < 0x1_0000_0000_0000_0000 && Word(n) == w
    ensures AddLength(h, n) == Add(h, w)
  {
    hide Word, Add;
  }

  lemma Merged(l: Lanes, h0: u64, h1: u64, h2: u64, h3: u64, h4: u64)
    requires Rotate(l) == h0 && MergeRound(h0, l.v1) == h1 && MergeRound(h1, l.v2) == h2
    requires MergeRound(h2, l.v3) == h3 && MergeRound(h3, l.v4) == h4
    ensures Merge(l) == h4
  {
    hide Rotate, MergeRound;
  }

  lemma Eight(h: u64, s: bytes, p: nat, low: u64, high: u64, w: u64)
    requires p + 8 <= |s| && LE32(s[p], s[p + 1], s[p + 2], s[p + 3]) == low
    requires LE32(s[p + 4], s[p + 5], s[p + 6], s[p + 7]) == high && Halves(low, high) == w
    ensures Tail(h, s[p..]) == Tail(Mix8(h, w), s[p + 8..])
  {
    hide LE32, Halves, Mix8, Mix4, Mix1;
    assert s[p..][8..] == s[p + 8..];
  }

  lemma Four(h: u64, s: bytes, p: nat, w: u64)
    requires p + 4 <= |s| < p + 8 && LE32(s[p], s[p + 1], s[p + 2], s[p + 3]) == w
    ensures Tail(h, s[p..]) == Tail(Mix4(h, w), s[p + 4..])
  {
    hide LE32, Mix8, Mix4, Mix1;
    assert s[p..][4..] == s[p + 4..];
  }

  lemma One(h: u64, s: bytes, p: nat, w: u64)
    requires p < |s| < p + 4 && Word(s[p]) == w
    ensures Tail(h, s[p..]) == Tail(Mix1(h, w), s[p + 1..])
  {
    hide Word, Mix8, Mix4, Mix1;
    assert s[p..][1..] == s[p + 1..] && s[p] % 0x1_0000_0000_0000_0000 == s[p];
  }

  lemma Nothing(h: u64, s: bytes)
    ensures Tail(h, s[|s|..]) == h
  {
  }

  lemma ShortHash(s: bytes, seed: u64, h: u64)
    requires |s| < 32 && AddLength(Small(seed), |s|) == h
    ensures Hash(s, seed) == Avalanche(Tail(h, s[0..]))
  {
    hide Small, AddLength, Tail, Avalanche, Init, Step;
    OnlyHeld(Step, 32, Init(seed), s);
    assert s[0..] == s;
  }

  lemma LongHash(s: bytes, seed: u64, l: Lanes, p: nat, h: u64)
    requires 32 <= |s| && p <= |s|
    requires Consume(Step, 32, Init(seed), s[0..]) == l && Pending(32, s[0..]) == s[p..]
    requires AddLength(Merge(l), |s|) == h
    ensures Hash(s, seed) == Avalanche(Tail(h, s[p..]))
  {
    hide Consume, Pending, Merge, AddLength, Tail, Avalanche, Init, Step;
    assert s[0..] == s;
  }

  /** The bytes 0, 1, 2 and so on. */
  function Ramp(n: nat): (s: bytes)
    requires n <= 256
    ensures |s| == n && forall i :: 0 <= i < n ==> s[i] == i
  {
    seq(n, i requires 0 <= i < 256 => i)
  }

  lemma Bits0()
    ensures Small(0x0) == 0x27D4EB2F165667C5
    ensures Add(0x27D4EB2F165667C5, 0x0) == 0x27D4EB2F165667C5
    ensures Avalanche(0x27D4EB2F165667C5) == 0xEF46DB3751D8E999
  {
  }

  lemma Words0()
    ensures Word(0) == 0x0
  {
  }

  lemma Answer0()
    ensures Hash([], 0x0) == 0xEF46DB3751D8E999
  {
    hide *;
    var s: bytes := [];
    Bits0();
    Words0();
    LengthAdded(0x27D4EB2F165667C5, 0, 0x0);
    Nothing(0x27D4EB2F165667C5, s);
    ShortHash(s, 0x0, 0x27D4EB2F165667C5);
  }

  lemma Bits0Seeded()
    ensures Small(0x9E3779B1) == 0x27D4EB2FB48DE176
    ensures Add(0x27D4EB2FB48DE176, 0x0) == 0x27D4EB2FB48DE176
    ensures Avalanche(0x27D4EB2FB48DE176) == 0xAC75FDA2929B17EF
  {
  }

  lemma Words0Seeded()
    ensures Word(0) == 0x0
  {
  }

  lemma Answer0Seeded()
    ensures Hash([], 0x9E3779B1) == 0xAC75FDA2929B17EF
  {
    hide *;
    var s: bytes := [];
    Bits0Seeded();
    Words0Seeded();
    LengthAdded(0x27D4EB2FB48DE176, 0, 0x0);
    Nothing(0x27D4EB2FB48DE176, s);
    ShortHash(s, 0x9E3779B1, 0x27D4EB2FB48DE176);
  }

  lemma Bits1()
    ensures Small(0x0) == 0x27D4EB2F165667C5
    ensures Add(0x27D4EB2F165667C5, 0x1) == 0x27D4EB2F165667C6
    ensures Mix1(0x27D4EB2F165667C6, 0x9E) == 0x2DBB2FF9FF230393
    ensures Avalanche(0x2DBB2FF9FF230393) == 0x4FCE394CC88952D8
  {
  }

  lemma Words1()
    ensures Word(1) == 0x1
    ensures Word(158) == 0x9E
  {
  }

  lemma Answer1()
    ensures Hash([158], 0x0) == 0x4FCE394CC88952D8
  {
    hide *;
    var s: bytes := [158];
    Bits1();
    Words1();
    LengthAdded(0x27D4EB2F165667C5, 1, 0x1);
    One(0x27D4EB2F165667C6, s, 0, 0x9E);
    Nothing(0x2DBB2FF9FF230393, s);
    ShortHash(s, 0x0, 0x27D4EB2F165667C6);
  }

  lemma Bits4Seeded()
    ensures Small(0x9E3779B1) == 0x27D4EB2FB48DE176
    ensures Add(0x27D4EB2FB48DE176, 0x4) == 0x27D4EB2FB48DE17A
    ensures Mix4(0x27D4EB2FB48DE17A, 0x4B1FFF9E) == 0xB34CF47F1D404011
    ensures Avalanche(0xB34CF47F1D404011) == 0x9D5FFDFB928AB4B
  {
  }

  lemma Words4Seeded()
    ensures Word(4) == 0x4
    ensures LE32(158, 255, 31, 75) == 0x4B1FFF9E
  {
  }

  lemma Answer4Seeded()
    ensures Hash([158, 255, 31, 75], 0x9E3779B1) == 0x9D5FFDFB928AB4B
  {
    hide *;
    var s: bytes := [158, 255, 31, 75];
    Bits4Seeded();
    Words4Seeded();
    LengthAdded(0x27D4EB2FB48DE176, 4, 0x4);
    Four(0x27D4EB2FB48DE17A, s, 0, 0x4B1FFF9E);
    Nothing(0xB34CF47F1D404011, s);
    ShortHash(s, 0x9E3779B1, 0x27D4EB2FB48DE17A);
  }

  lemma Bits8()
    ensures Small(0x0) == 0x27D4EB2F165667C5
    ensures Add(0x27D4EB2F165667C5, 0x8) == 0x27D4EB2F165667CD
    ensures Halves(0x4B1FFF9E, 0xDD2F535E) == 0xDD2F535E4B1FFF9E
    ensures Mix8(0x27D4EB2F165667CD, 0xDD2F535E4B1FFF9E) == 0x9017C16FF24F65A
    ensures Avalanche(0x9017C16FF24F65A) == 0xF74CB1451B32B8CF
  {
  }

  lemma Words8()
    ensures Word(8) == 0x8
    ensures LE32(158, 255, 31, 75) == 0x4B1FFF9E
    ensures LE32(94, 83, 47, 221) == 0xDD2F535E
  {
  }

  lemma Answer8()
    ensures Hash([158, 255, 31, 75, 94, 83, 47, 221], 0x0) == 0xF74CB1451B32B8CF
  {
    hide *;
    var s: bytes := [158, 255, 31, 75, 94, 83, 47, 221];
    Bits8();
    Words8();
    LengthAdded(0x27D4EB2F165667C5, 8, 0x8);
    Eight(0x27D4EB2F165667CD, s, 0, 0x4B1FFF9E, 0xDD2F535E, 0xDD2F535E4B1FFF9E);
    Nothing(0x9017C16FF24F65A, s);
    ShortHash(s, 0x0, 0x27D4EB2F165667CD);
  }

  lemma Bits14Seeded()
    ensures Small(0x9E3779B1) == 0x27D4EB2FB48DE176
    ensures Add(0x27D4EB2FB48DE176, 0xE) == 0x27D4EB2FB48DE184
    ensures Halves(0x3020100, 0x7060504) == 0x706050403020100
    ensures Mix8(0x27D4EB2FB48DE184, 0x706050403020100) == 0x3828AB55BC85FF74
    ensures Mix4(0x3828AB55BC85FF74, 0xB0A0908) == 0xE13F1C2A4D920D68
    ensures Mix1(0xE13F1C2A4D920D68, 0xC) == 0x64BBE5662EC4DC4A
    ensures Mix1(0x64BBE5662EC4DC4A, 0xD) == 0xAD2A9C0404A5B0CD
    ensures Avalanche(0xAD2A9C0404A5B0CD) == 0x9637A6A8D7711686
  {
  }

  lemma Words14Seeded()
    ensures Word(14) == 0xE
    ensures LE32(0, 1, 2, 3) == 0x3020100
    ensures LE32(4, 5, 6, 7) == 0x7060504
    ensures LE32(8, 9, 10, 11) == 0xB0A0908
    ensures Word(12) == 0xC
    ensures Word(13) == 0xD
  {
  }

  lemma Answer14Seeded()
    ensures Hash(Ramp(14), 0x9E3779B1) == 0x9637A6A8D7711686
  {
    hide *;
    var s: bytes := Ramp(14);
    Bits14Seeded();
    Words14Seeded();
    LengthAdded(0x27D4EB2FB48DE176, 14, 0xE);
    Eight(0x27D4EB2FB48DE184, s, 0, 0x3020100, 0x7060504, 0x706050403020100);
    Four(0x3828AB55BC85FF74, s, 8, 0xB0A0908);
    One(0xE13F1C2A4D920D68, s, 12, 0xC);
    One(0x64BBE5662EC4DC4A, s, 13, 0xD);
    Nothing(0xAD2A9C0404A5B0CD, s);
    ShortHash(s, 0x9E3779B1, 0x27D4EB2FB48DE184);
  }

  lemma Bits32()
    ensures Init(0x0) == Lanes(0x60EA27EEADC0B5D6, 0xC2B2AE3D27D4EB4F, 0x0, 0x61C8864E7A143579)
    ensures Round(0x60EA27EEADC0B5D6, 0x706050403020100) == 0xF4B53B57406B5E99
    ensures Round(0xC2B2AE3D27D4EB4F, 0xF0E0D0C0B0A0908) == 0xC3D34B511FC32561
    ensures Round(0x0, 0x1716151413121110) == 0xCB26C007C8A1553F
    ensures Round(0x61C8864E7A143579, 0x1F1E1D1C1B1A1918) == 0x9A44D001A7F91C07
    ensures Halves(0x3020100, 0x7060504) == 0x706050403020100
    ensures Halves(0xB0A0908, 0xF0E0D0C) == 0xF0E0D0C0B0A0908
    ensures Halves(0x13121110, 0x17161514) == 0x1716151413121110
    ensures Halves(0x1B1A1918, 0x1F1E1D1C) == 0x1F1E1D1C1B1A1918
    ensures Rotate(Lanes(0xF4B53B57406B5E99, 0xC3D34B511FC32561, 0xCB26C007C8A1553F,
      0x9A44D001A7F91C07)) == 0x7F173BACE7DBD3D9
    ensures MergeRound(0x7F173BACE7DBD3D9, 0xF4B53B57406B5E99) == 0xF4F010017EB0B31E
    ensures MergeRound(0xF4F010017EB0B31E, 0xC3D34B511FC32561) == 0x3EBAF0888F893B86
    ensures MergeRound(0x3EBAF0888F893B86, 0xCB26C007C8A1553F) == 0x570DD21AF61C37A7
    ensures MergeRound(0x570DD21AF61C37A7, 0x9A44D001A7F91C07) == 0xC845DBC88C411C2D
    ensures Add(0xC845DBC88C411C2D, 0x20) == 0xC845DBC88C411C4D
    ensures Avalanche(0xC845DBC88C411C4D) == 0xCBF59C5116FF32B4
  {
  }

  lemma Words32()
    ensures LE32(0, 1, 2, 3) == 0x3020100
    ensures LE32(4, 5, 6, 7) == 0x7060504
    ensures LE32(8, 9, 10, 11) == 0xB0A0908
    ensures LE32(12, 13, 14, 15) == 0xF0E0D0C
    ensures LE32(16, 17, 18, 19) == 0x13121110
    ensures LE32(20, 21, 22, 23) == 0x17161514
  {
  }

  lemma Words32Part2()
    ensures LE32(24, 25, 26, 27) == 0x1B1A1918
    ensures LE32(28, 29, 30, 31) == 0x1F1E1D1C
    ensures Word(32) == 0x20
  {
  }

  lemma Answer32()
    ensures Hash(Ramp(32), 0x0) == 0xCBF59C5116FF32B4
  {
    hide *;
    var s: bytes := Ramp(32);
    Bits32();
    Words32();
    Words32Part2();
    WordAt(s, 0, 0x3020100, 0x7060504, 0x706050403020100);
    WordAt(s, 8, 0xB0A0908, 0xF0E0D0C, 0xF0E0D0C0B0A0908);
    WordAt(s, 16, 0x13121110, 0x17161514, 0x1716151413121110);
    WordAt(s, 24, 0x1B1A1918, 0x1F1E1D1C, 0x1F1E1D1C1B1A1918);
    OneStripe(Lanes(0x60EA27EEADC0B5D6, 0xC2B2AE3D27D4EB4F, 0x0, 0x61C8864E7A143579), s, 0,
      Lanes(0xF4B53B57406B5E99, 0xC3D34B511FC32561, 0xCB26C007C8A1553F, 0x9A44D001A7F91C07));
    NoStripe(Lanes(0xF4B53B57406B5E99, 0xC3D34B511FC32561, 0xCB26C007C8A1553F, 0x9A44D001A7F91C07), s[32..]);
    Merged(Lanes(0xF4B53B57406B5E99, 0xC3D34B511FC32561, 0xCB26C007C8A1553F, 0x9A44D001A7F91C07),
      0x7F173BACE7DBD3D9, 0xF4F010017EB0B31E, 0x3EBAF0888F893B86, 0x570DD21AF61C37A7, 0xC845DBC88C411C2D);
    LengthAdded(0xC845DBC88C411C2D, 32, 0x20);
    Nothing(0xC845DBC88C411C4D, s);
    LongHash(s, 0x0, Lanes(0xF4B53B57406B5E99, 0xC3D34B511FC32561, 0xCB26C007C8A1553F, 0x9A44D001A7F91C07), 32,
      0xC845DBC88C411C4D);
  }

  lemma Bits47Seeded()
    ensures Init(0x9E3779B1) == Lanes(0x60EA27EF4BF82F87, 0xC2B2AE3DC60C6500, 0x9E3779B1, 0x61C8864F184BAF2A)
    ensures Round(0x60EA27EF4BF82F87, 0x706050403020100) == 0xE4962682C06B5E99
    ensures Round(0xC2B2AE3DC60C6500, 0xF0E0D0C0B0A0908) == 0xB3B4367C9FC32561
    ensures Round(0x9E3779B1, 0x1716151413121110) == 0xBB07AB3348A1553F
    ensures Round(0x61C8864F184BAF2A, 0x1F1E1D1C1B1A1918) == 0x8A25BB2D27F91C07
    ensures Halves(0x3020100, 0x7060504) == 0x706050403020100
    ensures Halves(0xB0A0908, 0xF0E0D0C) == 0xF0E0D0C0B0A0908
    ensures Halves(0x13121110, 0x17161514) == 0x1716151413121110
    ensures Halves(0x1B1A1918, 0x1F1E1D1C) == 0x1F1E1D1C1B1A1918
    ensures Rotate(Lanes(0xE4962682C06B5E99, 0xB3B4367C9FC32561, 0xBB07AB3348A1553F,
      0x8A25BB2D27F91C07)) == 0xAAF5FC3E7DB9252
    ensures MergeRound(0xAAF5FC3E7DB9252, 0xE4962682C06B5E99) == 0xAF982571BEC7C4C7
    ensures MergeRound(0xAF982571BEC7C4C7, 0xB3B4367C9FC32561) == 0xA9FD881ACE0DE1
    ensures MergeRound(0xA9FD881ACE0DE1, 0xBB07AB3348A1553F) == 0x23ED8D871B6446D6
    ensures MergeRound(0x23ED8D871B6446D6, 0x8A25BB2D27F91C07) == 0x7279FC8728D114AF
    ensures Add(0x7279FC8728D114AF, 0x2F) == 0x7279FC8728D114DE
    ensures Halves(0x23222120, 0x27262524) == 0x2726252423222120
    ensures Mix8(0x7279FC8728D114DE, 0x2726252423222120) == 0xE81562A21A69B007
    ensures Mix4(0xE81562A21A69B007, 0x2B2A2928) == 0xA4FA296A0C9841B6
    ensures Mix1(0xA4FA296A0C9841B6, 0x2C) == 0xAA576E337AB35AB5
    ensures Mix1(0xAA576E337AB35AB5, 0x2D) == 0xBE3A8590E3AC17B7
    ensures Mix1(0xBE3A8590E3AC17B7, 0x2E) == 0xA67ABA4C14BA7065
    ensures Avalanche(0xA67ABA4C14BA7065) == 0x2EB60A79D8196B2A
  {
  }

  lemma Words47Seeded()
    ensures LE32(0, 1, 2, 3) == 0x3020100
    ensures LE32(4, 5, 6, 7) == 0x7060504
    ensures LE32(8, 9, 10, 11) == 0xB0A0908
    ensures LE32(12, 13, 14, 15) == 0xF0E0D0C
    ensures LE32(16, 17, 18, 19) == 0x13121110
    ensures LE32(20, 21, 22, 23) == 0x17161514
  {
  }

  lemma Words47SeededPart2()
    ensures LE32(24, 25, 26, 27) == 0x1B1A1918
    ensures LE32(28, 29, 30, 31) == 0x1F1E1D1C
    ensures Word(47) == 0x2F
    ensures LE32(32, 33, 34, 35) == 0x23222120
    ensures LE32(36, 37, 38, 39) == 0x27262524
    ensures LE32(40, 41, 42, 43) == 0x2B2A2928
  {
  }

  lemma Words47SeededPart3()
    ensures Word(44) == 0x2C
    ensures Word(45) == 0x2D
    ensures Word(46) == 0x2E
  {
  }

  lemma Answer47Seeded()
    ensures Hash(Ramp(47), 0x9E3779B1) == 0x2EB60A79D8196B2A
  {
    hide *;
    var s: bytes := Ramp(47);
    Bits47Seeded();
    Words47Seeded();
    Words47SeededPart2();
    Words47SeededPart3();
    WordAt(s, 0, 0x3020100, 0x7060504, 0x706050403020100);
    WordAt(s, 8, 0xB0A0908, 0xF0E0D0C, 0xF0E0D0C0B0A0908);
    WordAt(s, 16, 0x13121110, 0x17161514, 0x1716151413121110);
    WordAt(s, 24, 0x1B1A1918, 0x1F1E1D1C, 0x1F1E1D1C1B1A1918);
    OneStripe(Lanes(0x60EA27EF4BF82F87, 0xC2B2AE3DC60C6500, 0x9E3779B1, 0x61C8864F184BAF2A), s, 0,
      Lanes(0xE4962682C06B5E99, 0xB3B4367C9FC32561, 0xBB07AB3348A1553F, 0x8A25BB2D27F91C07));
    NoStripe(Lanes(0xE4962682C06B5E99, 0xB3B4367C9FC32561, 0xBB07AB3348A1553F, 0x8A25BB2D27F91C07), s[32..]);
    Merged(Lanes(0xE4962682C06B5E99, 0xB3B4367C9FC32561, 0xBB07AB3348A1553F, 0x8A25BB2D27F91C07), 0xAAF5FC3E7DB9252,
      0xAF982571BEC7C4C7, 0xA9FD881ACE0DE1, 0x23ED8D871B6446D6, 0x7279FC8728D114AF);
    LengthAdded(0x7279FC8728D114AF, 47, 0x2F);
    Eight(0x7279FC8728D114DE, s, 32, 0x23222120, 0x27262524, 0x2726252423222120);
    Four(0xE81562A21A69B007, s, 40, 0x2B2A2928);
    One(0xA4FA296A0C9841B6, s, 44, 0x2C);
    One(0xAA576E337AB35AB5, s, 45, 0x2D);
    One(0xBE3A8590E3AC17B7, s, 46, 0x2E);
    Nothing(0xA67ABA4C14BA7065, s);
    LongHash(s, 0x9E3779B1, Lanes(0xE4962682C06B5E99, 0xB3B4367C9FC32561, 0xBB07AB3348A1553F, 0x8A25BB2D27F91C07),
      32, 0x7279FC8728D114DE);
  }
}
