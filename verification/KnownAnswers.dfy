/** Two CRCs worked out: the published check value, and a frame of the greatest length. */
module KnownAnswers {
  import opened Machine
  import opened Crc16
  import opened CrcErrors
  import opened Framing

  // ----- the register as a machine word, fed a byte

  function NextBit(c: bv16, m: bool): bv16 {
    if (c & 0x8000 != 0) != m then (c << 1) ^ 0x1021 else c << 1
  }

  /** The register after the n bits of b from bit 7 down. */
  function Take(c: bv16, b: bv16, n: nat): bv16
    decreases n
  {
    if n == 0 then c else Take(NextBit(c, b & 0x80 != 0), b << 1, n - 1)
  }

  function Octet(b: bv16): Bits {
    [b & 0x80 != 0, b & 0x40 != 0, b & 0x20 != 0, b & 0x10 != 0, b & 8 != 0, b & 4 != 0, b & 2 != 0, b & 1 != 0]
  }

  lemma ShiftWord(c: bv16)
    ensures Word(c << 1) == Word(c)[1..] + [false]
  {}

  lemma ReduceWord(c: bv16)
    ensures Reduces(Word(c), Word((c << 1) ^ 0x1021))
  {}

  lemma NextBitIsStep(c: bv16, m: bool)
    ensures Word(NextBit(c, m)) == Step(Word(c), m)
  {
    TopOf(c);
    if (c & 0x8000 != 0) != m {
      ReduceWord(c);
      StepReduces(Word(c), m, Word((c << 1) ^ 0x1021));
    } else {
      ShiftWord(c);
      StepShifts(Word(c), m, Word(c << 1));
    }
  }

  lemma TopOf(c: bv16)
    ensures Word(c)[0] == (c & 0x8000 != 0)
  {}

  lemma StepReduces(r: Register, m: bool, s: Register)
    requires r[0] != m && Reduces(r, s)
    ensures s == Step(r, m)
  {
    ReducesIsXor(r, s);
  }

  lemma StepShifts(r: Register, m: bool, s: Register)
    requires r[0] == m && s == r[1..] + [false]
    ensures s == Step(r, m)
  {}

  lemma OctetShifts(b: bv16)
    ensures Octet(b << 1)[..7] == Octet(b)[1..]
  {}

  lemma OctetTail(b: bv16, n: nat)
    requires 0 < n <= 8
    ensures Octet(b)[..n] == [b & 0x80 != 0] + Octet(b << 1)[..n - 1]
  {
    OctetShifts(b);
    var x, y := Octet(b), Octet(b << 1);
    assert x[1..][..n - 1] == y[..7][..n - 1] == y[..n - 1];
    assert x[..n] == [x[0]] + x[1..][..n - 1];
  }

  lemma FedFirst(r: Register, m: bool, rest: Bits)
    ensures Feed(r, [m] + rest) == Feed(Step(r, m), rest)
  {
    assert ([m] + rest)[1..] == rest;
  }

  lemma {:induction false} TakeIsFeed(c: bv16, b: bv16, n: nat)
    requires n <= 8
    ensures Word(Take(c, b, n)) == Feed(Word(c), Octet(b)[..n])
    decreases n
  {
    if n > 0 {
      NextBitIsStep(c, b & 0x80 != 0);
      OctetTail(b, n);
      FedFirst(Word(c), b & 0x80 != 0, Octet(b << 1)[..n - 1]);
      TakeIsFeed(NextBit(c, b & 0x80 != 0), b << 1, n - 1);
    }
  }

  // ----- bytes as bits

  lemma Nibble(n: nat)
    requires n < 16
    ensures BitsOf(n, 4) == [n / 8 == 1, n / 4 % 2 == 1, n / 2 % 2 == 1, n % 2 == 1]
  {
    BitsOfHalf(n, 4);
    BitsOfHalf(n / 2, 3);
    BitsOfHalf(n / 4, 2);
    BitsOfHalf(n / 8, 1);
  }

  lemma ByteIs(h: nat, l: nat)
    requires h < 16 && l < 16
    ensures BitsOf(16 * h + l, 8) ==
      [h / 8 == 1, h / 4 % 2 == 1, h / 2 % 2 == 1, h % 2 == 1]
      + [l / 8 == 1, l / 4 % 2 == 1, l / 2 % 2 == 1, l % 2 == 1]
  {
    assert Pow2(4) == 16;
    BitsOfSum(h, l, 4, 4);
    Nibble(h);
    Nibble(l);
  }

  /** The bytes m lead to the register c. */
  predicate Leads(m: seq<byte>, c: bv16) {
    Reg(Crc(INIT, m)) == Word(c)
  }

  lemma Extended(m: seq<byte>, c: bv16, b: byte, o: bv16, d: bv16) returns (n: seq<byte>)
    requires Leads(m, c) && BitsOf(b, 8) == Octet(o) && Take(c, o, 8) == d
    ensures n == m + [b] && Leads(n, d)
  {
    n := m + [b];
    CrcConcat(INIT, m, [b]);
    CrcIsFeed(Crc(INIT, m), [b]);
    ByteBits(b);
    TakeIsFeed(c, o, 8);
    assert Octet(o)[..8] == Octet(o);
  }

  lemma Start()
    ensures Leads([], 0xFFFF)
  {
    WordBits(0xFF, 0xFF);
    ByteIs(15, 15);
  }

  // ----- the check value

  lemma DigitBytes1()
    ensures BitsOf(0x31, 8) == Octet(0x31)
    ensures BitsOf(0x32, 8) == Octet(0x32)
    ensures BitsOf(0x33, 8) == Octet(0x33)
  {
    ByteIs(3, 1);
    ByteIs(3, 2);
    ByteIs(3, 3);
  }

  lemma DigitBytes2()
    ensures BitsOf(0x34, 8) == Octet(0x34)
    ensures BitsOf(0x35, 8) == Octet(0x35)
    ensures BitsOf(0x36, 8) == Octet(0x36)
  {
    ByteIs(3, 4);
    ByteIs(3, 5);
    ByteIs(3, 6);
  }

  lemma DigitBytes3()
    ensures BitsOf(0x37, 8) == Octet(0x37)
    ensures BitsOf(0x38, 8) == Octet(0x38)
    ensures BitsOf(0x39, 8) == Octet(0x39)
  {
    ByteIs(3, 7);
    ByteIs(3, 8);
    ByteIs(3, 9);
  }

  lemma DigitsOrbit1()
    ensures Take(0xFFFF, 0x31, 8) == 0xC782
    ensures Take(0xC782, 0x32, 8) == 0x3DBA
  {}

  lemma DigitsOrbit2()
    ensures Take(0x3DBA, 0x33, 8) == 0x5BCE
    ensures Take(0x5BCE, 0x34, 8) == 0x5349
  {}

  lemma DigitsOrbit3()
    ensures Take(0x5349, 0x35, 8) == 0x4560
    ensures Take(0x4560, 0x36, 8) == 0x2EF4
  {}

  lemma DigitsOrbit4()
    ensures Take(0x2EF4, 0x37, 8) == 0x7718
    ensures Take(0x7718, 0x38, 8) == 0xA12B
  {}

  lemma DigitsOrbit5()
    ensures Take(0xA12B, 0x39, 8) == 0x29B1
  {}

  lemma Digits1(m: seq<byte>) returns (n: seq<byte>)
    requires Leads(m, 0xFFFF)
    ensures n == m + [0x31, 0x32, 0x33] && Leads(n, 0x5BCE)
  {
    DigitBytes1();
    DigitsOrbit1();
    DigitsOrbit2();
    n := m;
    n := Extended(n, 0xFFFF, 0x31, 0x31, 0xC782);
    n := Extended(n, 0xC782, 0x32, 0x32, 0x3DBA);
    n := Extended(n, 0x3DBA, 0x33, 0x33, 0x5BCE);
  }

  lemma Digits2(m: seq<byte>) returns (n: seq<byte>)
    requires Leads(m, 0x5BCE)
    ensures n == m + [0x34, 0x35, 0x36] && Leads(n, 0x2EF4)
  {
    DigitBytes2();
    DigitsOrbit2();
    DigitsOrbit3();
    n := m;
    n := Extended(n, 0x5BCE, 0x34, 0x34, 0x5349);
    n := Extended(n, 0x5349, 0x35, 0x35, 0x4560);
    n := Extended(n, 0x4560, 0x36, 0x36, 0x2EF4);
  }

  lemma Digits3(m: seq<byte>) returns (n: seq<byte>)
    requires Leads(m, 0x2EF4)
    ensures n == m + [0x37, 0x38, 0x39] && Leads(n, 0x29B1)
  {
    DigitBytes3();
    DigitsOrbit4();
    DigitsOrbit5();
    n := m;
    n := Extended(n, 0x2EF4, 0x37, 0x37, 0x7718);
    n := Extended(n, 0x7718, 0x38, 0x38, 0xA12B);
    n := Extended(n, 0xA12B, 0x39, 0x39, 0x29B1);
  }

  /** The nine digits in ASCII. */
  const CHECK_INPUT: seq<byte> := [0x31, 0x32, 0x33, 0x34, 0x35, 0x36, 0x37, 0x38, 0x39]

  lemma CheckRegister()
    ensures Reg(0x29B1) == Word(0x29B1)
  {
    WordBits(0x29, 0xB1);
    ByteIs(2, 9);
    ByteIs(11, 1);
  }

  /** The published check value. */
  lemma CheckValue()
    ensures Crc(INIT, CHECK_INPUT) == 0x29B1
  {
    Start();
    var m := Digits1([]);
    m := Digits2(m);
    m := Digits3(m);
    CheckRegister();
    RegInjective(Crc(INIT, m), 0x29B1);
    assert m == CHECK_INPUT;
  }

  // ----- the longest frame

  lemma SpecialBytes()
    ensures BitsOf(0x7D, 8) == Octet(0x7D)
    ensures BitsOf(0x7E, 8) == Octet(0x7E)
  {
    ByteIs(7, 13);
    ByteIs(7, 14);
  }

  lemma SpecialsOrbit1()
    ensures Take(0xFFFF, 0x7D, 8) == 0x4ECA
    ensures Take(0x4ECA, 0x7D, 8) == 0xCC30
  {}

  lemma SpecialsOrbit2()
    ensures Take(0xCC30, 0x7D, 8) == 0x87FA
    ensures Take(0x87FA, 0x7D, 8) == 0xB455
  {}

  lemma SpecialsOrbit3()
    ensures Take(0xB455, 0x7E, 8) == 0x2D06
    ensures Take(0x2D06, 0x7D, 8) == 0x5CF5
  {}

  lemma SpecialsOrbit4()
    ensures Take(0x5CF5, 0x7E, 8) == 0xF120
    ensures Take(0xF120, 0x7E, 8) == 0x4067
  {}

  lemma SpecialsOrbit5()
    ensures Take(0x4067, 0x7E, 8) == 0xB09D
    ensures Take(0xB09D, 0x7D, 8) == 0x95E1
  {}

  lemma SpecialsOrbit6()
    ensures Take(0x95E1, 0x7D, 8) == 0x9D26
    ensures Take(0x9D26, 0x7D, 8) == 0xDB2E
  {}

  lemma SpecialsOrbit7()
    ensures Take(0xDB2E, 0x7D, 8) == 0xFB2C
    ensures Take(0xFB2C, 0x7D, 8) == 0xDD4E
  {}

  lemma SpecialsOrbit8()
    ensures Take(0xDD4E, 0x7E, 8) == 0xCB89
    ensures Take(0xCB89, 0x7E, 8) == 0x7E7E
  {}

  lemma Specials1(m: seq<byte>) returns (n: seq<byte>)
    requires Leads(m, 0xFFFF)
    ensures n == m + [0x7D, 0x7D, 0x7D, 0x7D] && Leads(n, 0xB455)
  {
    SpecialBytes();
    SpecialsOrbit1();
    SpecialsOrbit2();
    n := m;
    n := Extended(n, 0xFFFF, 0x7D, 0x7D, 0x4ECA);
    n := Extended(n, 0x4ECA, 0x7D, 0x7D, 0xCC30);
    n := Extended(n, 0xCC30, 0x7D, 0x7D, 0x87FA);
    n := Extended(n, 0x87FA, 0x7D, 0x7D, 0xB455);
  }

  lemma Specials2(m: seq<byte>) returns (n: seq<byte>)
    requires Leads(m, 0xB455)
    ensures n == m + [0x7E, 0x7D, 0x7E, 0x7E] && Leads(n, 0x4067)
  {
    SpecialBytes();
    SpecialsOrbit3();
    SpecialsOrbit4();
    n := m;
    n := Extended(n, 0xB455, 0x7E, 0x7E, 0x2D06);
    n := Extended(n, 0x2D06, 0x7D, 0x7D, 0x5CF5);
    n := Extended(n, 0x5CF5, 0x7E, 0x7E, 0xF120);
    n := Extended(n, 0xF120, 0x7E, 0x7E, 0x4067);
  }

  lemma Specials3(m: seq<byte>) returns (n: seq<byte>)
    requires Leads(m, 0x4067)
    ensures n == m + [0x7E, 0x7D, 0x7D, 0x7D] && Leads(n, 0xDB2E)
  {
    SpecialBytes();
    SpecialsOrbit5();
    SpecialsOrbit6();
    n := m;
    n := Extended(n, 0x4067, 0x7E, 0x7E, 0xB09D);
    n := Extended(n, 0xB09D, 0x7D, 0x7D, 0x95E1);
    n := Extended(n, 0x95E1, 0x7D, 0x7D, 0x9D26);
    n := Extended(n, 0x9D26, 0x7D, 0x7D, 0xDB2E);
  }

  lemma Specials4(m: seq<byte>) returns (n: seq<byte>)
    requires Leads(m, 0xDB2E)
    ensures n == m + [0x7D, 0x7D, 0x7E, 0x7E] && Leads(n, 0x7E7E)
  {
    SpecialBytes();
    SpecialsOrbit7();
    SpecialsOrbit8();
    n := m;
    n := Extended(n, 0xDB2E, 0x7D, 0x7D, 0xFB2C);
    n := Extended(n, 0xFB2C, 0x7D, 0x7D, 0xDD4E);
    n := Extended(n, 0xDD4E, 0x7E, 0x7E, 0xCB89);
    n := Extended(n, 0xCB89, 0x7E, 0x7E, 0x7E7E);
  }

  lemma FlagsRegister()
    ensures Reg(0x7E7E) == Word(0x7E7E)
  {
    WordBits(0x7E, 0x7E);
    ByteIs(7, 14);
  }

  /** Some payload and its CRC are escaped from end to end: 38 bytes is the greatest length. */
  lemma LongestFrame() returns (p: seq<byte>)
    ensures |p| == 16 && |Frame(p)| == 38
  {
    Start();
    p := Specials1([]);
    p := Specials2(p);
    p := Specials3(p);
    p := Specials4(p);
    FlagsRegister();
    RegInjective(Crc(INIT, p), 0x7E7E);
    AllEscaped(Seal(p));
    FrameLength(p);
  }

  lemma {:induction false} AllEscaped(m: seq<byte>)
    requires forall i :: 0 <= i < |m| ==> m[i] == FLAG || m[i] == ESC
    ensures Escapes(m) == |m|
  {
    if m != [] {
      AllEscaped(m[1..]);
    }
  }
}
