/**
  * CRC-16/CCITT-FALSE: the bitwise loop of crc16_ccitt_false on a 16-bit register,
  * and the same register as a string of bits, on which its algebra is proved.
  */
module Crc16 {
  import opened Machine

  const POLY: word := 0x1021
  const INIT: word := 0xFFFF

  /** One pass of the inner loop: shift left, and reduce when the top bit falls out. */
  function Shift(c: word): word {
    if c >= 0x8000 then Xor16(c * 2 % 0x1_0000, POLY) else c * 2 % 0x1_0000
  }

  function Shifts(c: word, n: nat): word
    decreases n, c
  {
    if n == 0 then c else Shifts(Shift(c), n - 1)
  }

  /** A byte brought into the high half of a word. */
  function High(b: byte): word {
    Join(b, 0)
  }

  function CrcByte(c: word, b: byte): word {
    Shifts(Xor16(c, High(b)), 8)
  }

  /** The register after the bytes of m, starting from c. */
  function Crc(c: word, m: seq<byte>): word
    decreases m
  {
    if m == [] then c else Crc(CrcByte(c, m[0]), m[1..])
  }

  /** The nested bit loop; a NULL pointer yields the initial register. */
  method Crc16CcittFalse(data: array?<byte>, len: nat) returns (crc: word)
    requires data != null ==> len <= data.Length
    ensures crc == if data == null then INIT else Crc(INIT, data[..len])
  {
    crc := INIT;
    if data == null {
      return;
    }
    assert data[0..len] == data[..len];
    for i := 0 to len
      invariant Crc(crc, data[i..len]) == Crc(INIT, data[..len])
    {
      assert data[i..len][1..] == data[i + 1..len];
      ghost var after := CrcByte(crc, data[i]);
      crc := Xor16(crc, High(data[i]));
      for b := 0 to 8
        invariant Shifts(crc, 8 - b) == after
      {
        assert Shifts(Shift(crc), 7 - b) == after;
        if crc >= 0x8000 {
          crc := Xor16(crc * 2 % 0x1_0000, POLY);
        } else {
          crc := crc * 2 % 0x1_0000;
        }
      }
    }
    assert data[len..len] == [];
  }

  lemma {:induction false} CrcConcat(c: word, a: seq<byte>, b: seq<byte>)
    ensures Crc(c, a + b) == Crc(Crc(c, a), b)
    decreases a
  {
    if a == [] {
      assert a + b == b;
    } else {
      assert (a + b)[1..] == a[1..] + b;
      CrcConcat(CrcByte(c, a[0]), a[1..], b);
    }
  }

  // ----- the register as sixteen bits, fed one message bit at a time

  type Register = r: Bits | |r| == 16 witness Zeros(16)

  /** x^16 + x^12 + x^5 + 1 without its leading term. */
  const TAPS: Register := Zeros(3) + [true] + Zeros(6) + [true] + Zeros(4) + [true]

  function Reg(c: word): Register {
    BitsOf(c, 16)
  }

  /** Feed one message bit: it is compared with the bit leaving the register. */
  function Step(r: Register, b: bool): Register {
    var s := r[1..] + [false];
    if r[0] != b then Xor(s, TAPS) else s
  }

  function Feed(r: Register, m: Bits): Register
    decreases m
  {
    if m == [] then r else Feed(Step(r, m[0]), m[1..])
  }

  lemma {:induction false} FeedConcat(r: Register, a: Bits, b: Bits)
    ensures Feed(r, a + b) == Feed(Feed(r, a), b)
    decreases a
  {
    if a == [] {
      assert a + b == b;
    } else {
      assert (a + b)[1..] == a[1..] + b;
      FeedConcat(Step(r, a[0]), a[1..], b);
    }
  }

  lemma StepLinear(r: Register, s: Register, x: bool, y: bool)
    ensures Step(Xor(r, s), x != y) == Xor(Step(r, x), Step(s, y))
  {
    var left, right := Step(Xor(r, s), x != y), Xor(Step(r, x), Step(s, y));
    assert forall i :: 0 <= i < 16 ==> left[i] == right[i];
  }

  /** The register is linear over GF(2) in its start value and its message. */
  lemma {:induction false} FeedLinear(r: Register, s: Register, x: Bits, y: Bits)
    requires |x| == |y|
    ensures Feed(Xor(r, s), Xor(x, y)) == Xor(Feed(r, x), Feed(s, y))
    decreases x
  {
    if x != [] {
      StepLinear(r, s, x[0], y[0]);
      XorTail(x, y);
      FeedLinear(Step(r, x[0]), Step(s, y[0]), x[1..], y[1..]);
    }
  }

  lemma {:induction false} FeedZero(n: nat)
    ensures Feed(Zeros(16), Zeros(n)) == Zeros(16)
  {
    if n > 0 {
      assert Step(Zeros(16), false) == Zeros(16);
      assert Zeros(n)[1..] == Zeros(n - 1);
      FeedZero(n - 1);
    }
  }

  lemma AbsorbStep(r: Register, w: Register)
    ensures Step(Xor(r, w), false) == Xor(Step(r, w[0]), w[1..] + [false])
  {
    var left, right := Step(Xor(r, w), false), Xor(Step(r, w[0]), w[1..] + [false]);
    assert forall i :: 0 <= i < 16 ==> left[i] == right[i];
  }

  /** Xoring w into the register first is feeding its bits one at a time. */
  lemma {:induction false} Absorb(r: Register, w: Register, n: nat)
    requires n <= 16
    ensures Feed(Xor(r, w), Zeros(n)) == Xor(Feed(r, w[..n]), w[n..] + Zeros(n))
    decreases n
  {
    if n == 0 {
      assert w[0..] + Zeros(0) == w;
    } else {
      var w' := w[1..] + [false];
      AbsorbStep(r, w);
      assert Zeros(n)[1..] == Zeros(n - 1);
      Absorb(Step(r, w[0]), w', n - 1);
      assert w[..n][1..] == w'[..n - 1];
      assert w[n..] + Zeros(n) == w'[n - 1..] + Zeros(n - 1);
    }
  }

  /** The constant term of the polynomial: a step that leaves a zero last bit did not reduce. */
  lemma UndoStep(r: Register, b: bool, t: Bits)
    requires |t| == 15
    ensures Step(r, b) == t + [false] <==> r == [b] + t
  {
    var s := r[1..] + [false];
    assert r[0] != b ==> Step(r, b)[15];
    assert (t + [false])[15] == false;
    assert s == t + [false] <==> r[1..] == t by {
      assert s[..15] == r[1..] && (t + [false])[..15] == t;
    }
    assert r == [r[0]] + r[1..];
    assert ([b] + t)[1..] == t;
  }

  lemma ZerosAfter(w: Bits)
    requires 0 < |w| <= 16
    ensures w[1..] + Zeros(17 - |w|) == (w[1..] + Zeros(16 - |w|)) + [false]
    ensures w + Zeros(16 - |w|) == [w[0]] + (w[1..] + Zeros(16 - |w|))
  {}

  /** A register fed its own sixteen bits is cleared, and no other sixteen bits clear it. */
  lemma {:induction false} Cleared(r: Register, w: Bits)
    requires |w| <= 16
    ensures Feed(r, w) == Zeros(16) <==> r == w + Zeros(16 - |w|)
    decreases w
  {
    if w == [] {
      assert w + Zeros(16) == Zeros(16);
    } else {
      var t := w[1..] + Zeros(16 - |w|);
      Cleared(Step(r, w[0]), w[1..]);
      UndoStep(r, w[0], t);
      ZerosAfter(w);
    }
  }

  // ----- the C register and the bit register are one

  lemma ShiftIsStep(c: word)
    ensures Reg(Shift(c)) == Step(Reg(c), false)
  {
    Shl16Bits(c);
    TopBit(c);
    if c >= 0x8000 {
      Xor16Bits(c * 2 % 0x1_0000, POLY);
      TapBits();
    }
  }

  lemma OneBits(n: nat)
    ensures BitsOf(1, n + 1) == Zeros(n) + [true]
  {
    BitsOfHalf(1, n + 1);
    BitsOfZero(n);
  }

  lemma TapBits()
    ensures Reg(POLY) == TAPS
  {
    assert Pow2(5) == 32;
    Powers();
    assert Pow2(12) == 0x1000;
    BitsOfSum(1, 0x21, 4, 12);
    BitsOfSum(1, 1, 7, 5);
    OneBits(3);
    OneBits(6);
    OneBits(4);
    var high, middle, low := Zeros(3) + [true], Zeros(6) + [true], Zeros(4) + [true];
    assert TAPS == high + (middle + low);
  }

  lemma {:induction false} ShiftsAreSteps(c: word, n: nat)
    ensures Reg(Shifts(c, n)) == Feed(Reg(c), Zeros(n))
    decreases n
  {
    if n > 0 {
      ShiftIsStep(c);
      assert Zeros(n)[1..] == Zeros(n - 1);
      ShiftsAreSteps(Shift(c), n - 1);
    }
  }

  lemma HighBits(b: byte)
    ensures Reg(High(b)) == BitsOf(b, 8) + Zeros(8)
  {
    WordBits(b, 0);
    BitsOfZero(8);
  }

  lemma XorZeros(r: Bits)
    ensures Xor(r, Zeros(|r|)) == r
  {
    assert forall i :: 0 <= i < |r| ==> Xor(r, Zeros(|r|))[i] == r[i];
  }

  lemma AbsorbByte(r: Register, m: Bits)
    requires |m| == 8
    ensures Feed(Xor(r, m + Zeros(8)), Zeros(8)) == Feed(r, m)
  {
    var w := m + Zeros(8);
    Absorb(r, w, 8);
    assert w[..8] == m && w[8..] + Zeros(8) == Zeros(16);
    XorZeros(Feed(r, m));
  }

  lemma CrcByteIsFeed(c: word, b: byte)
    ensures Reg(CrcByte(c, b)) == Feed(Reg(c), BitsOf(b, 8))
  {
    var w := Reg(High(b));
    HighBits(b);
    Xor16Bits(c, High(b));
    ShiftsAreSteps(Xor16(c, High(b)), 8);
    Absorb(Reg(c), w, 8);
    assert w[..8] == BitsOf(b, 8) && w[8..] + Zeros(8) == Zeros(16);
    XorZeros(Feed(Reg(c), w[..8]));
  }

  /** The byte loop feeds the message's bits, most significant first. */
  lemma {:induction false} CrcIsFeed(c: word, m: seq<byte>)
    ensures Reg(Crc(c, m)) == Feed(Reg(c), BytesBits(m))
    decreases m
  {
    if m != [] {
      CrcByteIsFeed(c, m[0]);
      CrcIsFeed(CrcByte(c, m[0]), m[1..]);
      FeedConcat(Reg(c), BitsOf(m[0], 8), BytesBits(m[1..]));
    }
  }

  lemma RegInjective(a: word, b: word)
    requires Reg(a) == Reg(b)
    ensures a == b
  {
    Powers();
    BitsInjective(a, b, 16);
  }

  // ----- linearity, residue and parity of crc16_ccitt_false

  /** crc(c1 ^ c2, a ^ b) == crc(c1, a) ^ crc(c2, b) for messages of one length. */
  lemma CrcLinear(c1: word, c2: word, a: seq<byte>, b: seq<byte>, ab: seq<byte>)
    requires |a| == |b| == |ab|
    requires forall i :: 0 <= i < |a| ==> ab[i] == Xor8(a[i], b[i])
    ensures Crc(Xor16(c1, c2), ab) == Xor16(Crc(c1, a), Crc(c2, b))
  {
    XorBytesBits(a, b, ab);
    CrcIsFeed(Xor16(c1, c2), ab);
    CrcIsFeed(c1, a);
    CrcIsFeed(c2, b);
    Xor16Bits(c1, c2);
    FeedLinear(Reg(c1), Reg(c2), BytesBits(a), BytesBits(b));
    Xor16Bits(Crc(c1, a), Crc(c2, b));
    RegInjective(Crc(Xor16(c1, c2), ab), Xor16(Crc(c1, a), Crc(c2, b)));
  }

  lemma {:induction false} XorBytesBits(a: seq<byte>, b: seq<byte>, ab: seq<byte>)
    requires |a| == |b| == |ab|
    requires forall i :: 0 <= i < |a| ==> ab[i] == Xor8(a[i], b[i])
    ensures BytesBits(ab) == Xor(BytesBits(a), BytesBits(b))
  {
    if a != [] {
      Xor8Bits(a[0], b[0]);
      XorBytesBits(a[1..], b[1..], ab[1..]);
      var x, y := BytesBits(ab), Xor(BytesBits(a), BytesBits(b));
      assert forall i :: 0 <= i < |x| ==> x[i] == y[i];
    }
  }

  /**
    * The residue law: a message followed by two bytes leaves a zero register exactly
    * when those bytes are the message's CRC, high byte first.
    */
  lemma Residue(c: word, m: seq<byte>, hi: byte, lo: byte)
    ensures Crc(c, m + [hi, lo]) == 0 <==> Crc(c, m) == Join(hi, lo)
  {
    var r, w := Crc(c, m), Join(hi, lo);
    CrcConcat(c, m, [hi, lo]);
    CrcIsFeed(r, [hi, lo]);
    WordBits(hi, lo);
    assert [hi, lo][1..] == [lo] && [lo][1..] == [];
    assert BytesBits([hi, lo]) == Reg(w);
    Cleared(Reg(r), Reg(w));
    assert Reg(w) + Zeros(0) == Reg(w);
    ZeroRegister();
    if Crc(c, m + [hi, lo]) == 0 {
      RegInjective(r, w);
    }
    if r == w {
      RegInjective(Crc(c, m + [hi, lo]), 0);
    }
  }

  lemma ZeroRegister()
    ensures Reg(0) == Zeros(16)
  {
    BitsOfZero(16);
  }

  lemma TapsOdd()
    ensures Odd(TAPS)
  {
    var a := Zeros(3) + [true];
    var b := a + Zeros(6);
    var c := b + [true];
    var d := c + Zeros(4);
    OddZeros(3);
    OddZeros(4);
    OddZeros(6);
    OddConcat(Zeros(3), [true]);
    OddConcat(a, Zeros(6));
    OddConcat(b, [true]);
    OddConcat(c, Zeros(4));
    OddConcat(d, [true]);
  }

  lemma StepParity(r: Register, b: bool)
    ensures Odd(Step(r, b)) == (Odd(r) != b)
  {
    OddConcat(r[1..], [false]);
    OddXor(r[1..] + [false], TAPS);
    TapsOdd();
  }

  lemma {:induction false} FeedParity(r: Register, m: Bits)
    ensures Odd(Feed(r, m)) == (Odd(r) != Odd(m))
    decreases m
  {
    if m != [] {
      StepParity(r, m[0]);
      FeedParity(Step(r, m[0]), m[1..]);
    }
  }

  /** The CRC of a message has the message's own bit parity. */
  lemma CrcParity(m: seq<byte>)
    ensures Odd(Reg(Crc(INIT, m))) == Odd(BytesBits(m))
  {
    CrcIsFeed(INIT, m);
    FeedParity(Reg(INIT), BytesBits(m));
    WordBits(0xFF, 0xFF);
    OddConcat(BitsOf(0xFF, 8), BitsOf(0xFF, 8));
  }
}
