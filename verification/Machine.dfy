/**
  * The fixed-width integers of the C sources, their bits and their little-endian bytes.
  * Shifts and masks of an unsigned value are written as the multiplications,
  * divisions and remainders they stand for; exclusive or is defined bit by bit.
  */
module Machine {
  type byte = x: int | 0 <= x < 0x100
  type word = x: int | 0 <= x < 0x1_0000
  type uint32 = x: int | 0 <= x < 0x1_0000_0000
  type int16 = x: int | -0x8000 <= x < 0x8000
  type int32 = x: int | -0x8000_0000 <= x < 0x8000_0000

  /** A string of bits, most significant first; also a polynomial over GF(2). */
  type Bits = seq<bool>

  function Zeros(n: nat): (r: Bits)
    ensures |r| == n
    ensures forall i :: 0 <= i < n ==> !r[i]
  {
    seq(n, i => false)
  }

  /** Bitwise exclusive or of two strings of one length. */
  function Xor(a: Bits, b: Bits): (r: Bits)
    requires |a| == |b|
    ensures |r| == |a|
    ensures forall i :: 0 <= i < |a| ==> r[i] == (a[i] != b[i])
  {
    seq(|a|, i requires 0 <= i < |a| => a[i] != b[i])
  }

  function Pow2(n: nat): (r: nat)
    ensures r > 0
  {
    if n == 0 then 1 else 2 * Pow2(n - 1)
  }

  lemma Powers()
    ensures Pow2(1) == 2 && Pow2(8) == 0x100 && Pow2(15) == 0x8000 && Pow2(16) == 0x1_0000
  {
    assert Pow2(4) == 16;
    assert Pow2(12) == 0x1000;
  }

  /** Bit k of n. */
  predicate Bit(n: nat, k: nat)
    decreases k
  {
    if k == 0 then n % 2 == 1 else Bit(n / 2, k - 1)
  }

  /** The w low bits of n. */
  function BitsOf(n: nat, w: nat): (r: Bits)
    ensures |r| == w
  {
    seq(w, i requires 0 <= i < w => Bit(n, w - 1 - i))
  }

  lemma BitsOfHalf(n: nat, w: nat)
    requires w > 0
    ensures BitsOf(n, w) == BitsOf(n / 2, w - 1) + [n % 2 == 1]
  {
    var r, s := BitsOf(n, w), BitsOf(n / 2, w - 1) + [n % 2 == 1];
    forall i | 0 <= i < w
      ensures r[i] == s[i]
    {
      assert r[i] == Bit(n, w - 1 - i);
      if i < w - 1 {
        assert s[i] == Bit(n / 2, w - 2 - i);
      }
    }
  }

  /** The number that a bit string denotes. */
  function Value(b: Bits): (n: nat)
    ensures n < Pow2(|b|)
    decreases |b|
  {
    if b == [] then 0 else 2 * Value(b[..|b| - 1]) + (if b[|b| - 1] then 1 else 0)
  }

  lemma {:induction false} ValueOfBits(n: nat, w: nat)
    requires n < Pow2(w)
    ensures Value(BitsOf(n, w)) == n
    decreases w
  {
    if w > 0 {
      ValueOfBits(n / 2, w - 1);
      BitsOfHalf(n, w);
      assert BitsOf(n, w)[..w - 1] == BitsOf(n / 2, w - 1);
    }
  }

  lemma {:induction false} BitsOfValue(b: Bits)
    ensures BitsOf(Value(b), |b|) == b
    decreases |b|
  {
    if b != [] {
      BitsOfValue(b[..|b| - 1]);
      BitsOfHalf(Value(b), |b|);
      assert b == b[..|b| - 1] + [b[|b| - 1]];
    }
  }

  lemma HalfOfSum(hi: nat, p: nat, lo: nat)
    ensures (hi * (2 * p) + lo) / 2 == hi * p + lo / 2
    ensures (hi * (2 * p) + lo) % 2 == lo % 2
  {
    var x := hi * p;
    assert hi * (2 * p) == 2 * x;
  }

  lemma {:induction false} BitsOfSum(hi: nat, lo: nat, j: nat, k: nat)
    requires lo < Pow2(k)
    ensures BitsOf(hi * Pow2(k) + lo, j + k) == BitsOf(hi, j) + BitsOf(lo, k)
    decreases k
  {
    if k > 0 {
      var n := hi * Pow2(k) + lo;
      HalfOfSum(hi, Pow2(k - 1), lo);
      BitsOfSum(hi, lo / 2, j, k - 1);
      BitsOfHalf(n, j + k);
      BitsOfHalf(lo, k);
    } else {
      assert hi * Pow2(0) + lo == hi;
    }
  }

  lemma {:induction false} BitsOfZero(w: nat)
    ensures BitsOf(0, w) == Zeros(w)
  {
    if w > 0 {
      BitsOfZero(w - 1);
      BitsOfHalf(0, w);
    }
  }

  function Xor8(a: byte, b: byte): byte {
    Powers();
    Value(Xor(BitsOf(a, 8), BitsOf(b, 8)))
  }

  function Xor16(a: word, b: word): word {
    Powers();
    Value(Xor(BitsOf(a, 16), BitsOf(b, 16)))
  }

  lemma Xor16Bits(a: word, b: word)
    ensures BitsOf(Xor16(a, b), 16) == Xor(BitsOf(a, 16), BitsOf(b, 16))
  {
    BitsOfValue(Xor(BitsOf(a, 16), BitsOf(b, 16)));
  }

  lemma Xor8Bits(a: byte, b: byte)
    ensures BitsOf(Xor8(a, b), 8) == Xor(BitsOf(a, 8), BitsOf(b, 8))
  {
    BitsOfValue(Xor(BitsOf(a, 8), BitsOf(b, 8)));
  }

  /** Xor with one mask twice is the identity. */
  lemma Xor8Twice(a: byte, m: byte)
    ensures Xor8(Xor8(a, m), m) == a
  {
    Xor8Bits(a, m);
    Powers();
    assert Xor(Xor(BitsOf(a, 8), BitsOf(m, 8)), BitsOf(m, 8)) == BitsOf(a, 8);
    ValueOfBits(a, 8);
  }

  lemma BitsInjective(a: nat, b: nat, w: nat)
    requires a < Pow2(w) && b < Pow2(w) && BitsOf(a, w) == BitsOf(b, w)
    ensures a == b
  {
    ValueOfBits(a, w);
    ValueOfBits(b, w);
  }

  /** The 16-bit value of two bytes. */
  function Join(hi: byte, lo: byte): word {
    hi * 0x100 + lo
  }

  function Hi(c: word): byte {
    c / 0x100
  }

  function Lo(c: word): byte {
    c % 0x100
  }

  lemma Halves(hi: byte, lo: byte)
    ensures Hi(Join(hi, lo)) == hi && Lo(Join(hi, lo)) == lo
  {}

  lemma JoinHalves(c: word)
    ensures Join(Hi(c), Lo(c)) == c
  {}

  /** A 16-bit value is its high byte followed by its low byte. */
  lemma WordBits(hi: byte, lo: byte)
    ensures BitsOf(Join(hi, lo), 16) == BitsOf(hi, 8) + BitsOf(lo, 8)
  {
    Powers();
    BitsOfSum(hi, lo, 8, 8);
  }

  /** The top bit of a 16-bit value, and the fifteen below it. */
  lemma TopBit(c: word)
    ensures BitsOf(c, 16) == [c >= 0x8000] + BitsOf(c % 0x8000, 15)
  {
    var top, low := c / 0x8000, c % 0x8000;
    Powers();
    BitsOfSum(top, low, 1, 15);
    assert top * 0x8000 + low == c;
    BitsOfHalf(top, 1);
  }

  lemma BitsOfDouble(n: nat, w: nat)
    ensures BitsOf(2 * n, w + 1) == BitsOf(n, w) + [false]
  {
    BitsOfHalf(2 * n, w + 1);
  }

  lemma ShiftedOut(c: word)
    ensures c * 2 % 0x1_0000 == 2 * (c % 0x8000)
  {}

  /** A left shift of a 16-bit value drops the top bit and appends a zero. */
  lemma Shl16Bits(c: word)
    ensures BitsOf(c * 2 % 0x1_0000, 16) == BitsOf(c, 16)[1..] + [false]
  {
    ShiftedOut(c);
    BitsOfDouble(c % 0x8000, 15);
    TopBit(c);
    assert BitsOf(c, 16)[1..] == BitsOf(c % 0x8000, 15);
  }

  // ----- byte strings as bit strings

  function BytesBits(m: seq<byte>): (r: Bits)
    ensures |r| == 8 * |m|
  {
    if m == [] then [] else BitsOf(m[0], 8) + BytesBits(m[1..])
  }

  /** The number of one bits. */
  function Ones(a: Bits): nat {
    if a == [] then 0 else (if a[0] then 1 else 0) + Ones(a[1..])
  }

  /** The Hamming distance of two byte strings of one length. */
  function Distance(a: seq<byte>, b: seq<byte>): nat
    requires |a| == |b|
  {
    Ones(Xor(BytesBits(a), BytesBits(b)))
  }

  lemma XorTail(a: Bits, b: Bits)
    requires |a| == |b| > 0
    ensures Xor(a, b)[1..] == Xor(a[1..], b[1..])
  {
    assert forall i :: 0 <= i < |a| - 1 ==> Xor(a, b)[1..][i] == Xor(a, b)[i + 1];
  }

  /** The bit parity of a string. */
  predicate Odd(a: Bits) {
    a != [] && a[0] != Odd(a[1..])
  }

  lemma {:induction false} OddOnes(a: Bits)
    ensures Odd(a) <==> Ones(a) % 2 == 1
  {
    if a != [] {
      OddOnes(a[1..]);
    }
  }

  lemma {:induction false} OddConcat(a: Bits, b: Bits)
    ensures Odd(a + b) == (Odd(a) != Odd(b))
  {
    if a == [] {
      assert a + b == b;
    } else {
      assert (a + b)[1..] == a[1..] + b;
      OddConcat(a[1..], b);
    }
  }

  lemma {:induction false} OddXor(a: Bits, b: Bits)
    requires |a| == |b|
    ensures Odd(Xor(a, b)) == (Odd(a) != Odd(b))
  {
    if a != [] {
      XorTail(a, b);
      OddXor(a[1..], b[1..]);
    }
  }

  lemma {:induction false} OddZeros(n: nat)
    ensures !Odd(Zeros(n))
  {
    if n > 0 {
      assert Zeros(n)[1..] == Zeros(n - 1);
      OddZeros(n - 1);
    }
  }

  lemma {:induction false} NoOnes(a: Bits)
    ensures Ones(a) == 0 <==> a == Zeros(|a|)
  {
    if a != [] {
      NoOnes(a[1..]);
      assert a == [a[0]] + a[1..];
      assert Zeros(|a|) == [false] + Zeros(|a| - 1);
    }
  }

  lemma {:induction false} BytesBitsConcat(a: seq<byte>, b: seq<byte>)
    ensures BytesBits(a + b) == BytesBits(a) + BytesBits(b)
  {
    if a == [] {
      assert a + b == b;
    } else {
      assert (a + b)[1..] == a[1..] + b;
      BytesBitsConcat(a[1..], b);
    }
  }

  /** The bytes that a bit string spells. */
  function BytesOf(bits: Bits): (m: seq<byte>)
    requires |bits| % 8 == 0
    ensures 8 * |m| == |bits|
    decreases |bits|
  {
    if bits == [] then [] else Powers(); [Value(bits[..8])] + BytesOf(bits[8..])
  }

  lemma {:induction false} BytesOfBits(bits: Bits)
    requires |bits| % 8 == 0
    ensures BytesBits(BytesOf(bits)) == bits
    decreases |bits|
  {
    if bits != [] {
      BitsOfValue(bits[..8]);
      BytesOfBits(bits[8..]);
      assert BytesOf(bits)[1..] == BytesOf(bits[8..]);
    }
  }

  lemma {:induction false} OnesConcat(a: Bits, b: Bits)
    ensures Ones(a + b) == Ones(a) + Ones(b)
  {
    if a == [] {
      assert a + b == b;
    } else {
      assert (a + b)[1..] == a[1..] + b;
      OnesConcat(a[1..], b);
    }
  }

  lemma {:induction false} BytesBitsInjective(a: seq<byte>, b: seq<byte>)
    requires |a| == |b| && BytesBits(a) == BytesBits(b)
    ensures a == b
  {
    if a != [] {
      assert BitsOf(a[0], 8) == BytesBits(a)[..8] && BitsOf(b[0], 8) == BytesBits(b)[..8];
      assert BytesBits(a[1..]) == BytesBits(a)[8..] && BytesBits(b[1..]) == BytesBits(b)[8..];
      Powers();
      BitsInjective(a[0], b[0], 8);
      BytesBitsInjective(a[1..], b[1..]);
    }
  }

  /** Two byte strings are at distance zero only if they are one. */
  lemma DistanceZero(a: seq<byte>, b: seq<byte>)
    requires |a| == |b|
    ensures Distance(a, b) == 0 <==> a == b
  {
    var x, y := BytesBits(a), BytesBits(b);
    NoOnes(Xor(x, y));
    if Distance(a, b) == 0 {
      assert forall i :: 0 <= i < |x| ==> Xor(x, y)[i] == (x[i] != y[i]);
      assert x == y;
      BytesBitsInjective(a, b);
    }
    if a == b {
      assert forall i :: 0 <= i < |x| ==> Xor(x, y)[i] == Zeros(|x|)[i];
    }
  }

  lemma XorSelf(a: Bits)
    ensures Xor(a, a) == Zeros(|a|)
  {}

  lemma ByteBits(b: byte)
    ensures BytesBits([b]) == BitsOf(b, 8)
  {
    assert [b][1..] == [];
    assert BitsOf(b, 8) + [] == BitsOf(b, 8);
  }

  // ----- wrap-around

  /** Multiples of the modulus do not count. */
  lemma WordModulo(p: int, k: int, r: int)
    requires p == 0x1_0000 * k + r
    ensures p % 0x1_0000 == r % 0x1_0000
  {}

  lemma Uint32Modulo(p: int, k: int, r: int)
    requires p == 0x1_0000_0000 * k + r
    ensures p % 0x1_0000_0000 == r % 0x1_0000_0000
  {}

  // ----- two's complement and little-endian fields

  /** The C conversion from int16_t to uint16_t. */
  function U16(x: int16): word {
    x % 0x1_0000
  }

  function I16(u: word): int16 {
    if u >= 0x8000 then u - 0x1_0000 else u
  }

  /** The C conversion from int32_t to uint32_t. */
  function U32(x: int32): uint32 {
    x % 0x1_0000_0000
  }

  function I32(u: uint32): int32 {
    if u >= 0x8000_0000 then u - 0x1_0000_0000 else u
  }

  function Le16(u: word): (r: seq<byte>)
    ensures |r| == 2
  {
    [u % 0x100, u / 0x100 % 0x100]
  }

  function Le32(u: uint32): (r: seq<byte>)
    ensures |r| == 4
  {
    [u % 0x100, u / 0x100 % 0x100, u / 0x1_0000 % 0x100, u / 0x100_0000 % 0x100]
  }

  function FromLe16(b0: byte, b1: byte): word {
    b0 + 0x100 * b1
  }

  function FromLe32(b0: byte, b1: byte, b2: byte, b3: byte): uint32 {
    b0 + 0x100 * b1 + 0x1_0000 * b2 + 0x100_0000 * b3
  }

  lemma Le16Inverse(u: word)
    ensures FromLe16(Le16(u)[0], Le16(u)[1]) == u
  {}

  lemma FromLe16Inverse(b0: byte, b1: byte)
    ensures Le16(FromLe16(b0, b1)) == [b0, b1]
  {}

  lemma Le32Inverse(u: uint32)
    ensures FromLe32(Le32(u)[0], Le32(u)[1], Le32(u)[2], Le32(u)[3]) == u
  {
    var v, w := u / 0x100, u / 0x100 / 0x100;
    Quarters(u);
    LastByteOf(u);
    LastByteOf(v);
    LastByteOf(w);
  }

  lemma LastByteOf(u: nat)
    ensures u == 0x100 * (u / 0x100) + u % 0x100
  {}

  lemma LastByte(u: nat, rest: nat, b: byte)
    requires u == 0x100 * rest + b
    ensures u % 0x100 == b && u / 0x100 == rest
  {}

  lemma Quarters(u: nat)
    ensures u / 0x1_0000 == u / 0x100 / 0x100 && u / 0x100_0000 == u / 0x100 / 0x100 / 0x100
  {}

  lemma FromLe32Inverse(b0: byte, b1: byte, b2: byte, b3: byte)
    ensures Le32(FromLe32(b0, b1, b2, b3)) == [b0, b1, b2, b3]
  {
    var u := FromLe32(b0, b1, b2, b3);
    LastByte(u, b1 + 0x100 * b2 + 0x1_0000 * b3, b0);
    LastByte(u / 0x100, b2 + 0x100 * b3, b1);
    LastByte(u / 0x100 / 0x100, b3, b2);
    Quarters(u);
  }

  lemma Signed(x: int32, u: uint32)
    ensures I32(U32(x)) == x && U32(I32(u)) == u
  {}

  lemma Signed16(x: int16, u: word)
    ensures I16(U16(x)) == x && U16(I16(u)) == u
  {}

  /** Two's complement: a negative number stands 2^16 or 2^32 higher. */
  lemma TwosComplement(x: int16, y: int32)
    ensures U16(x) == if x < 0 then x + 0x1_0000 else x
    ensures U32(y) == if y < 0 then y + 0x1_0000_0000 else y
  {}

  // ----- buffers

  /** Writing a field after the bytes done extends them by that field. */
  lemma Splice(start: seq<byte>, done: seq<byte>, field: seq<byte>)
    requires |done| + |field| <= |start|
    ensures var before := done + start[|done|..];
      var n := |done| + |field|;
      before[..|done|] + field + before[n..] == done + field + start[n..]
  {}
}
