/** What the words and constants of SHA-1 are (sections 3, 5 and 6.1 of RFC 3174), said apart from how they are
    written down, and the digest the standard gives for "abc". */
module Sha1Answer {
  import opened Sha1

  // ---------------------------------------------------------------------------
  // Constants and word functions

  /** The number whose square root a quarter of the rounds takes its constant from. */
  function Radicand(t: nat): int {
    if t < 20 then 2 else if t < 40 then 3 else if t < 60 then 5 else 10
  }

  /** The round constants are the square roots of 2, 3, 5 and 10 with thirty bits after the point. */
  lemma ConstantsAreRoots(t: nat)
    ensures var k := K(t) as int; k * k <= Radicand(t) * 0x1000_0000_0000_0000 < (k + 1) * (k + 1)
  {
    assert 0x5A827999 as bv32 as int == 0x5A827999;
    assert 0x6ED9EBA1 as bv32 as int == 0x6ED9EBA1;
    assert 0x8F1BBCDC as bv32 as int == 0x8F1BBCDC;
    assert 0xCA62C1D6 as bv32 as int == 0xCA62C1D6;
  }

  predicate Bit(w: Word, j: bv6)
    requires j < 32
  {
    (w >> j) & 1 == 1
  }

  lemma ChoiceBits(b: Word, c: Word, d: Word, j: bv6)
    requires j < 32
    ensures Bit((b & c) | (!b & d), j) == if Bit(b, j) then Bit(c, j) else Bit(d, j)
  {
  }

  lemma MajorityBits(b: Word, c: Word, d: Word, j: bv6)
    requires j < 32
    ensures Bit((b & c) | (b & d) | (c & d), j) == if Bit(b, j) == Bit(c, j) then Bit(b, j) else Bit(d, j)
  {
  }

  lemma ParityBits(b: Word, c: Word, d: Word, j: bv6)
    requires j < 32
    ensures Bit(b ^ c ^ d, j) == ((Bit(b, j) != Bit(c, j)) != Bit(d, j))
  {
  }

  /** The first twenty rounds choose between two bits by a third, the third twenty take the majority of the three, and
      the others take their parity. */
  lemma RoundFunctionBits(t: nat, b: Word, c: Word, d: Word, j: bv6)
    requires j < 32
    ensures Bit(F(t, b, c, d), j) ==
            if t < 20 then if Bit(b, j) then Bit(c, j) else Bit(d, j)
            else if 40 <= t < 60 then if Bit(b, j) == Bit(c, j) then Bit(b, j) else Bit(d, j)
            else (Bit(b, j) != Bit(c, j)) != Bit(d, j)
  {
    if t < 20 {
      ChoiceBits(b, c, d, j);
    } else if 40 <= t < 60 {
      MajorityBits(b, c, d, j);
    } else {
      ParityBits(b, c, d, j);
    }
  }

  /** A rotation to the left by `n` multiplies by 2^n and adds what falls off the top. */
  lemma Rotl1Multiplies(w: Word)
    ensures Rotl1(w) == w * 2 + w / 0x8000_0000
  {
  }

  lemma Rotl5Multiplies(w: Word)
    ensures Rotl5(w) == w * 32 + w / 0x0800_0000
  {
  }

  lemma Rotl30Multiplies(w: Word)
    ensures Rotl30(w) == w * 0x4000_0000 + w / 4
  {
  }

  /** The octet of value 256^k in a word. */
  function Octet(w: Word, k: nat): Word
    requires k < 4
  {
    (if k == 0 then w else if k == 1 then w >> 8 else if k == 2 then w >> 16 else w >> 24) & 0xFF
  }

  /** The words a digest starts from spell, low octet first, the digits from 0 up to f and down again,
      and then f0, e1, d2, c3. */
  lemma StartCounts(k: nat)
    requires k < 20
    ensures Octet(WordAt(Start, k / 4), k % 4) as int ==
            if k < 8 then 0x01 + 0x22 * k else if k < 16 then 0xFE - 0x22 * (k - 8) else 0xF0 - 0x0F * (k - 16)
  {
  }

  lemma DivideTwice(n: nat)
    ensures n / 256 / 256 == n / 0x1_0000 && n / 0x1_0000 / 256 == n / 0x100_0000
  {
  }

  /** Four octets, the highest first, have the value of the number they were taken from. */
  lemma OctetsValue(n: nat)
    requires n < W32
    ensures var o := Octets(n);
            0x100_0000 * (o[0] as int) + 0x1_0000 * (o[1] as int) + 0x100 * (o[2] as int) + o[3] as int == n
  {
    var q1 := n / 256;
    var q2 := q1 / 256;
    var q3 := q2 / 256;
    DivideTwice(n);
    DivideTwice(q1);
    assert q3 < 256;
    assert n == 256 * q1 + n % 256 && q1 == 256 * q2 + q1 % 256 && q2 == 256 * q3 + q2 % 256;
    assert Octets(n) == [q3, q2 % 256, q1 % 256, n % 256];
  }

  // ---------------------------------------------------------------------------
  // The digest of "abc"

  const Abc: seq<Byte> := [0x61, 0x62, 0x63]

  lemma AbcLength()
    ensures TwoWords(24) == [0, 0, 0, 0, 0, 0, 0, 24]
  {
    assert 24 / W32 == 0 && 24 % W32 == 24;
    assert Octets(0) == [0, 0, 0, 0] && Octets(24) == [0, 0, 0, 24];
  }

  lemma AbcRest()
    ensures Whole(Abc) == [] && Rest(Abc) == Abc
  {
    assert |Abc| % 64 == 3;
  }

  lemma AbcBlockIs()
    ensures var b := Closing(Abc);
      b[..4] == [0x61, 0x62, 0x63, 0x80] && b[63] == 24 && forall i :: 4 <= i < 63 ==> b[i] == 0
  {
    AbcLength();
    AbcRest();
    assert |Abc| % 64 == 3;
    assert Closing(Abc) == Abc + [0x80] + Zeros(52) + [0, 0, 0, 0, 0, 0, 0, 24];
  }

  /** The word schedule and the registers of its only block. */
  ghost function AbcW(t: nat): Word {
    W(Closing(Abc), t)
  }

  ghost function AbcTurned(t: nat): Words {
    Turned(Start, Closing(Abc), t)
  }

  lemma BigOnes()
    ensures Big(0x61, 0x62, 0x63, 0x80) == 0x61626380 && Big(0, 0, 0, 0) == 0 && Big(0, 0, 0, 24) == 24
  {
  }

  lemma LowWord(t: nat)
    requires t < 16
    ensures AbcW(t) == if t == 0 then 0x61626380 else if t < 15 then 0 else 24
  {
    BigOnes();
    hide Big, Closing;
    AbcBlockIs();
    var b := Closing(Abc);
    assert t == 0 ==> b[0] == b[..4][0] && b[1] == b[..4][1] && b[2] == b[..4][2] && b[3] == b[..4][3];
    WLow(b, t);
  }

  lemma NextWord(t: nat)
    requires t >= 16
    ensures AbcW(t) == Rotl1(AbcW(t - 3) ^ AbcW(t - 8) ^ AbcW(t - 14) ^ AbcW(t - 16))
  {
    hide Rotl1, Closing;
    WHigh(Closing(Abc), t);
  }

  lemma NextTurn(t: nat)
    ensures AbcTurned(t + 1) == Turn(AbcTurned(t), t, AbcW(t))
  {
    hide Turn, Closing, W;
  }

  lemma Words16()
    ensures AbcW(16) == 0xC2C4C700 && AbcW(17) == 0x00000000 && AbcW(18) == 0x00000030 && AbcW(19) == 0x85898E01
    ensures AbcW(20) == 0x00000000 && AbcW(21) == 0x00000060 && AbcW(22) == 0x0B131C03 && AbcW(23) == 0x00000030
    ensures AbcW(24) == 0x85898EC1 && AbcW(25) == 0x16263806 && AbcW(26) == 0x00000000 && AbcW(27) == 0x00000180
    ensures AbcW(28) == 0x2C4C700C && AbcW(29) == 0x000000F0 && AbcW(30) == 0x93AFB507 && AbcW(31) == 0x5898E048
  {
    LowWord(0); LowWord(1); LowWord(2); LowWord(3); LowWord(4); LowWord(5); LowWord(6); LowWord(7);
    LowWord(8); LowWord(9); LowWord(10); LowWord(11); LowWord(12); LowWord(13); LowWord(14); LowWord(15);
    hide AbcW;
    NextWord(16); NextWord(17); NextWord(18); NextWord(19); NextWord(20); NextWord(21); NextWord(22); NextWord(23);
    NextWord(24); NextWord(25); NextWord(26); NextWord(27); NextWord(28); NextWord(29); NextWord(30); NextWord(31);
  }

  lemma Words32()
    ensures AbcW(32) == 0x8E9A9202 && AbcW(33) == 0x00000600 && AbcW(34) == 0xB131C0F0 && AbcW(35) == 0x16263BC6
    ensures AbcW(36) == 0x4EBED41E && AbcW(37) == 0x626380A1 && AbcW(38) == 0x16263806 && AbcW(39) == 0x000018C0
    ensures AbcW(40) == 0xD2E138C4 && AbcW(41) == 0x00000F00 && AbcW(42) == 0x3AFB5079 && AbcW(43) == 0x898E04E5
    ensures AbcW(44) == 0xE2BA3C2B && AbcW(45) == 0x000060C0 && AbcW(46) == 0x053A37CD && AbcW(47) == 0x74458547
  {
    Words16();
    hide AbcW;
    NextWord(32); NextWord(33); NextWord(34); NextWord(35); NextWord(36); NextWord(37); NextWord(38); NextWord(39);
    NextWord(40); NextWord(41); NextWord(42); NextWord(43); NextWord(44); NextWord(45); NextWord(46); NextWord(47);
  }

  lemma Words48()
    ensures AbcW(48) == 0xDA9415ED && AbcW(49) == 0x26380A16 && AbcW(50) == 0x626383A1 && AbcW(51) == 0x4EBF54DE
    ensures AbcW(52) == 0x3835B44B && AbcW(53) == 0x0000F600 && AbcW(54) == 0x1E84C7A3 && AbcW(55) == 0x98E04D98
    ensures AbcW(56) == 0x651D16A0 && AbcW(57) == 0x62658CA1 && AbcW(58) == 0x458544D6 && AbcW(59) == 0x44584CB7
    ensures AbcW(60) == 0x7BA06619 && AbcW(61) == 0x6380AEA2 && AbcW(62) == 0x0AE55269 && AbcW(63) == 0x627B49A1
  {
    Words32();
    hide AbcW;
    NextWord(48); NextWord(49); NextWord(50); NextWord(51); NextWord(52); NextWord(53); NextWord(54); NextWord(55);
    NextWord(56); NextWord(57); NextWord(58); NextWord(59); NextWord(60); NextWord(61); NextWord(62); NextWord(63);
  }

  lemma Words64()
    ensures AbcW(64) == 0x7CD45C9D && AbcW(65) == 0x000F0000 && AbcW(66) == 0xFB50753A && AbcW(67) == 0xEC6765E8
    ensures AbcW(68) == 0xBA3C2BE2 && AbcW(69) == 0x0060C000 && AbcW(70) == 0x3A37CD05 && AbcW(71) == 0x458546F4
    ensures AbcW(72) == 0xB8599DD6 && AbcW(73) == 0x380A1A26 && AbcW(74) == 0x01E02203 && AbcW(75) == 0xE7CC3456
    ensures AbcW(76) == 0xE6E60B69 && AbcW(77) == 0x00F60A00 && AbcW(78) == 0x5795EF4F && AbcW(79) == 0x822E0879
  {
    Words48();
    hide AbcW;
    NextWord(64); NextWord(65); NextWord(66); NextWord(67); NextWord(68); NextWord(69); NextWord(70); NextWord(71);
    NextWord(72); NextWord(73); NextWord(74); NextWord(75); NextWord(76); NextWord(77); NextWord(78); NextWord(79);
  }

  lemma Turned10()
    ensures AbcTurned(10) == Words(0x8351F929, 0x4B6AE328, 0x27A301F5, 0x664F8C30, 0x0FF1F290)
  {
    assert AbcTurned(0) == Start;
    LowWord(0); LowWord(1); LowWord(2); LowWord(3); LowWord(4); LowWord(5); LowWord(6); LowWord(7);
    LowWord(8); LowWord(9);
    hide AbcW, AbcTurned;
    NextTurn(0); NextTurn(1); NextTurn(2); NextTurn(3); NextTurn(4);
    NextTurn(5); NextTurn(6); NextTurn(7); NextTurn(8); NextTurn(9);
  }

  lemma Turned20()
    ensures AbcTurned(20) == Words(0xFD9E1D7D, 0xDC64901D, 0x20AA99CA, 0xD3A49608, 0xC82F758B)
  {
    Turned10();
    LowWord(10); LowWord(11); LowWord(12); LowWord(13); LowWord(14); LowWord(15);
    Words16();
    hide AbcW, AbcTurned;
    NextTurn(10); NextTurn(11); NextTurn(12); NextTurn(13); NextTurn(14);
    NextTurn(15); NextTurn(16); NextTurn(17); NextTurn(18); NextTurn(19);
  }

  lemma Turned30()
    ensures AbcTurned(30) == Words(0xC5FBAF5D, 0x8370B52E, 0xD2AA1365, 0x6F8D7EF5, 0x12104EE9)
  {
    Turned20();
    Words16();
    hide AbcW, AbcTurned;
    NextTurn(20); NextTurn(21); NextTurn(22); NextTurn(23); NextTurn(24);
    NextTurn(25); NextTurn(26); NextTurn(27); NextTurn(28); NextTurn(29);
  }

  lemma Turned40()
    ensures AbcTurned(40) == Words(0x32DE1CBA, 0x4C986405, 0xF718E5CF, 0x03D447F6, 0xF72EEC32)
  {
    Turned30();
    Words16(); Words32();
    hide AbcW, AbcTurned;
    NextTurn(30); NextTurn(31); NextTurn(32); NextTurn(33); NextTurn(34);
    NextTurn(35); NextTurn(36); NextTurn(37); NextTurn(38); NextTurn(39);
  }

  lemma Turned50()
    ensures AbcTurned(50) == Words(0x120731C5, 0xBAF39337, 0xAFAB40B2, 0x2806E11B, 0x8714787C)
  {
    Turned40();
    Words32(); Words48();
    hide AbcW, AbcTurned;
    NextTurn(40); NextTurn(41); NextTurn(42); NextTurn(43); NextTurn(44);
    NextTurn(45); NextTurn(46); NextTurn(47); NextTurn(48); NextTurn(49);
  }

  lemma Turned60()
    ensures AbcTurned(60) == Words(0x3F52DE5A, 0x09D785FD, 0x3498BFD4, 0xF211824F, 0xD79915AB)
  {
    Turned50();
    Words48();
    hide AbcW, AbcTurned;
    NextTurn(50); NextTurn(51); NextTurn(52); NextTurn(53); NextTurn(54);
    NextTurn(55); NextTurn(56); NextTurn(57); NextTurn(58); NextTurn(59);
  }

  lemma Turned70()
    ensures AbcTurned(70) == Words(0x3F2588C2, 0x497093C0, 0xDE37534A, 0x030F7CAD, 0x4405957E)
  {
    Turned60();
    Words48(); Words64();
    hide AbcW, AbcTurned;
    NextTurn(60); NextTurn(61); NextTurn(62); NextTurn(63); NextTurn(64);
    NextTurn(65); NextTurn(66); NextTurn(67); NextTurn(68); NextTurn(69);
  }

  lemma Turned80()
    ensures AbcTurned(80) == Words(0x42541B35, 0x5738D5E1, 0x21834873, 0x681E6DF6, 0xD8FDF6AD)
  {
    Turned70();
    Words64();
    hide AbcW, AbcTurned;
    NextTurn(70); NextTurn(71); NextTurn(72); NextTurn(73); NextTurn(74);
    NextTurn(75); NextTurn(76); NextTurn(77); NextTurn(78); NextTurn(79);
  }

  /** The answer of section 7.3 of RFC 3174 for "abc". */
  lemma AbcDigest()
    ensures Digest(Abc) == Words(0xA9993E36, 0x4706816A, 0xBA3E2571, 0x7850C26C, 0x9CD0D89D)
  {
    Turned80();
    PaddedTail(Abc);
    AbcRest();
    assert |Abc| % 64 == 3 && Padded(Abc) == Closing(Abc);
    hide Turned, Closing, Padded;
    FoldBlock([], Closing(Abc));
    assert [] + Closing(Abc) == Closing(Abc);
  }

  lemma HexOf(a: bv8, high: bv8, low: bv8)
    requires high < 16 && low < 16 && a == high * 16 + low
    ensures HexDigit(a, true) == Encode[high as int] && HexDigit(a, false) == Encode[low as int]
  {
    assert (a >> 4) & 0xF == high && a & 0xF == low;
  }

  function HexOctet(a: bv8): string {
    [HexDigit(a, true), HexDigit(a, false)]
  }

  function Joint(o0: bv8, o1: bv8, o2: bv8, o3: bv8): Word {
    ((o0 as bv32) << 24) | ((o1 as bv32) << 16) | ((o2 as bv32) << 8) | (o3 as bv32)
  }

  lemma OctetsOfJoint(o0: bv8, o1: bv8, o2: bv8, o3: bv8)
    ensures var w := Joint(o0, o1, o2, o3);
      && ((w >> 24) & 0xFF) as bv8 == o0 && ((w >> 16) & 0xFF) as bv8 == o1
      && ((w >> 8) & 0xFF) as bv8 == o2 && (w & 0xFF) as bv8 == o3
  {
  }

  /** Two digits of the answer are those of one octet. */
  lemma OctetDigits(h: Words, i: nat, p: nat)
    requires i < 20 && p == 2 * i
    ensures |Base16(h)| == 40 && Base16(h)[p..p + 2] == HexOctet(OctetAt(h, i))
  {
    hide OctetAt, HexDigit;
    assert p / 2 == i && (p + 1) / 2 == i;
  }

  lemma WordOctet(h: Words, k: nat, j: nat, o: bv8)
    requires k < 5 && j < 4
    requires var w := WordAt(h, k);
      (if j == 0 then (w >> 24) & 0xFF else if j == 1 then (w >> 16) & 0xFF else if j == 2 then (w >> 8) & 0xFF
       else w & 0xFF) as bv8 == o
    ensures OctetAt(h, 4 * k + j) == o
  {
    assert (4 * k + j) / 4 == k && (4 * k + j) % 4 == j;
    hide WordAt;
  }

  lemma WordOctets(h: Words, k: nat, o0: bv8, o1: bv8, o2: bv8, o3: bv8)
    requires k < 5 && WordAt(h, k) == Joint(o0, o1, o2, o3)
    ensures OctetAt(h, 4 * k) == o0 && OctetAt(h, 4 * k + 1) == o1
      && OctetAt(h, 4 * k + 2) == o2 && OctetAt(h, 4 * k + 3) == o3
  {
    hide *;
    OctetsOfJoint(o0, o1, o2, o3);
    WordOctet(h, k, 0, o0);
    WordOctet(h, k, 1, o1);
    WordOctet(h, k, 2, o2);
    WordOctet(h, k, 3, o3);
  }

  /** The digits of a word of the digest are those of its octets. */
  lemma WordInHex(h: Words, k: nat, o0: bv8, o1: bv8, o2: bv8, o3: bv8)
    requires k < 5 && WordAt(h, k) == Joint(o0, o1, o2, o3)
    ensures |Base16(h)| == 40
    ensures Base16(h)[8 * k..8 * k + 8] == HexOctet(o0) + HexOctet(o1) + HexOctet(o2) + HexOctet(o3)
  {
    hide *;
    WordOctets(h, k, o0, o1, o2, o3);
    var p := 8 * k;
    OctetDigits(h, 4 * k, p);
    OctetDigits(h, 4 * k + 1, p + 2);
    OctetDigits(h, 4 * k + 2, p + 4);
    OctetDigits(h, 4 * k + 3, p + 6);
    FourPairs(Base16(h), p, HexOctet(o0), HexOctet(o1), HexOctet(o2), HexOctet(o3));
  }

  lemma FourPairs(s: string, i: nat, a: string, b: string, c: string, d: string)
    requires i + 8 <= |s| && s[i..i + 2] == a && s[i + 2..i + 4] == b && s[i + 4..i + 6] == c && s[i + 6..i + 8] == d
    ensures s[i..i + 8] == a + b + c + d
  {
    CutAt(s, i, i + 2, i + 4);
    CutAt(s, i, i + 4, i + 6);
    CutAt(s, i, i + 6, i + 8);
  }

  lemma CutAt(s: string, i: nat, m: nat, j: nat)
    requires i <= m <= j <= |s|
    ensures s[i..j] == s[i..m] + s[m..j]
  {
  }

  lemma AbcJoint()
    ensures Joint(0xA9, 0x99, 0x3E, 0x36) == 0xA9993E36
    ensures Joint(0x47, 0x06, 0x81, 0x6A) == 0x4706816A
    ensures Joint(0xBA, 0x3E, 0x25, 0x71) == 0xBA3E2571
    ensures Joint(0x78, 0x50, 0xC2, 0x6C) == 0x7850C26C
    ensures Joint(0x9C, 0xD0, 0xD8, 0x9D) == 0x9CD0D89D
  {
  }

  lemma TwoDigits(a: bv8, high: bv8, low: bv8, text: string)
    requires high < 16 && low < 16 && a == high * 16 + low
    requires text == [Encode[high as int], Encode[low as int]]
    ensures HexOctet(a) == text
  {
    hide HexDigit;
    HexOf(a, high, low);
  }

  lemma AbcHex0(h: Words)
    requires WordAt(h, 0) == 0xA9993E36
    ensures |Base16(h)| == 40 && Base16(h)[0..8] == "a9993e36"
  {
    AbcJoint();
    hide Joint, WordAt, HexOctet, Base16;
    WordInHex(h, 0, 0xA9, 0x99, 0x3E, 0x36);
    TwoDigits(0xA9, 10, 9, "a9"); TwoDigits(0x99, 9, 9, "99");
    TwoDigits(0x3E, 3, 14, "3e"); TwoDigits(0x36, 3, 6, "36");
    assert "a9" + "99" + "3e" + "36" == "a9993e36";
  }

  lemma AbcHex1(h: Words)
    requires WordAt(h, 1) == 0x4706816A
    ensures |Base16(h)| == 40 && Base16(h)[8..16] == "4706816a"
  {
    AbcJoint();
    hide Joint, WordAt, HexOctet, Base16;
    WordInHex(h, 1, 0x47, 0x06, 0x81, 0x6A);
    TwoDigits(0x47, 4, 7, "47"); TwoDigits(0x06, 0, 6, "06");
    TwoDigits(0x81, 8, 1, "81"); TwoDigits(0x6A, 6, 10, "6a");
    assert "47" + "06" + "81" + "6a" == "4706816a";
  }

  lemma AbcHex2(h: Words)
    requires WordAt(h, 2) == 0xBA3E2571
    ensures |Base16(h)| == 40 && Base16(h)[16..24] == "ba3e2571"
  {
    AbcJoint();
    hide Joint, WordAt, HexOctet, Base16;
    WordInHex(h, 2, 0xBA, 0x3E, 0x25, 0x71);
    TwoDigits(0xBA, 11, 10, "ba"); TwoDigits(0x3E, 3, 14, "3e");
    TwoDigits(0x25, 2, 5, "25"); TwoDigits(0x71, 7, 1, "71");
    assert "ba" + "3e" + "25" + "71" == "ba3e2571";
  }

  lemma AbcHex3(h: Words)
    requires WordAt(h, 3) == 0x7850C26C
    ensures |Base16(h)| == 40 && Base16(h)[24..32] == "7850c26c"
  {
    AbcJoint();
    hide Joint, WordAt, HexOctet, Base16;
    WordInHex(h, 3, 0x78, 0x50, 0xC2, 0x6C);
    TwoDigits(0x78, 7, 8, "78"); TwoDigits(0x50, 5, 0, "50");
    TwoDigits(0xC2, 12, 2, "c2"); TwoDigits(0x6C, 6, 12, "6c");
    assert "78" + "50" + "c2" + "6c" == "7850c26c";
  }

  lemma AbcHex4(h: Words)
    requires WordAt(h, 4) == 0x9CD0D89D
    ensures |Base16(h)| == 40 && Base16(h)[32..40] == "9cd0d89d"
  {
    AbcJoint();
    hide Joint, WordAt, HexOctet, Base16;
    WordInHex(h, 4, 0x9C, 0xD0, 0xD8, 0x9D);
    TwoDigits(0x9C, 9, 12, "9c"); TwoDigits(0xD0, 13, 0, "d0");
    TwoDigits(0xD8, 13, 8, "d8"); TwoDigits(0x9D, 9, 13, "9d");
    assert "9c" + "d0" + "d8" + "9d" == "9cd0d89d";
  }

  lemma FiveParts(s: string)
    requires |s| == 40
    ensures s == s[0..8] + s[8..16] + s[16..24] + s[24..32] + s[32..40]
  {
    CutAt(s, 0, 8, 16);
    CutAt(s, 0, 16, 24);
    CutAt(s, 0, 24, 32);
    CutAt(s, 0, 32, 40);
    assert s[0..40] == s;
  }

  /** The answer in base 16, a word at a time. */
  const AbcHex: string := "a9993e36" + "4706816a" + "ba3e2571" + "7850c26c" + "9cd0d89d"

  lemma AbcInHex()
    ensures Base16(Digest(Abc)) == AbcHex
  {
    var h := Digest(Abc);
    AbcDigest();
    hide Digest, Base16;
    AbcHex0(h); AbcHex1(h); AbcHex2(h); AbcHex3(h); AbcHex4(h);
    FiveParts(Base16(h));
  }

  /** However "abc" is split, its checksum is the standard's. */
  method HashAbc(sha1: Checksum, steps: seq<seq<Byte>>) returns (key: string)
    requires sha1.Valid() && sha1.fed == [] && Joined(steps) == Abc
    modifies sha1, sha1.ctx, sha1.ctx.block
    ensures key == AbcHex
  {
    hide Digest, Base16, Checksum.Valid, AbcHex;
    PartsAreShort(steps);
    AbcInHex();
    key := HashInSteps(sha1, steps);
  }

  lemma {:induction false} PartsAreShort(steps: seq<seq<Byte>>)
    ensures forall i :: 0 <= i < |steps| ==> |steps[i]| <= |Joined(steps)|
  {
    if steps != [] {
      PartsAreShort(steps[..|steps| - 1]);
    }
  }
}
