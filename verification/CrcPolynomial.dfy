/**
  * The CRC as polynomial division: bit strings are polynomials over GF(2), highest
  * power first, and the register holds the remainder by x^16 + x^12 + x^5 + 1.
  */
module CrcPolynomial {
  import opened Machine
  import opened Crc16

  /** x^16 + x^12 + x^5 + 1. */
  const GENERATOR: Bits := [true] + TAPS

  /** The product of two polynomials over GF(2). */
  function Mul(q: Bits, g: Bits): (r: Bits)
    requires |g| > 0
    ensures |r| == |q| + |g| - 1
  {
    if q == [] then Zeros(|g| - 1)
    else Xor((if q[0] then g else Zeros(|g|)) + Zeros(|q| - 1), [false] + Mul(q[1..], g))
  }

  /** The message times x^16, its leading sixteen bits adjusted by the start register. */
  function Dividend(r: Register, m: Bits): (d: Bits)
    ensures |d| == |m| + 16
  {
    Xor(m + Zeros(16), r + Zeros(|m|))
  }

  /** The bits in which the register reduced: the quotient of the long division. */
  function Quotient(r: Register, m: Bits): (q: Bits)
    ensures |q| == |m|
    decreases m
  {
    if m == [] then [] else [r[0] != m[0]] + Quotient(Step(r, m[0]), m[1..])
  }

  /** q times the generator plus s. */
  function Product(q: Bits, s: Register): (e: Bits)
    ensures |e| == |q| + 16
  {
    Xor(Mul(q, GENERATOR), Zeros(|q|) + s)
  }

  /** d divided by the generator is q with remainder s. */
  predicate Divides(d: Bits, q: Bits, s: Register) {
    d == Product(q, s)
  }

  lemma PeelDividend(r: Register, m: Bits, i: nat)
    requires m != [] && i < |m| + 15
    ensures Dividend(r, m)[0] == (r[0] != m[0])
    ensures Dividend(r, m)[i + 1] ==
      (Dividend(Step(r, m[0]), m[1..])[i] != (r[0] != m[0] && i < 16 && TAPS[i]))
  {
    var s, a, b := Step(r, m[0]), m + Zeros(16), r + Zeros(|m|);
    var a', b' := m[1..] + Zeros(16), s + Zeros(|m| - 1);
    assert a[i + 1] == a'[i];
    assert i < 15 ==> b[i + 1] == r[i + 1];
    assert i < 16 ==> b'[i] == s[i];
    assert i >= 15 ==> !b[i + 1];
    assert i >= 16 ==> !b'[i];
    assert i < 16 ==> (r[1..] + [false])[i] == (i < 15 && r[i + 1]);
  }

  lemma MulFirst(q: Bits, g: Bits)
    requires q != [] && |g| > 0
    ensures Mul(q, g)[0] == (q[0] && g[0])
  {
    var top := (if q[0] then g else Zeros(|g|)) + Zeros(|q| - 1);
    var rest := [false] + Mul(q[1..], g);
    assert top[0] == (q[0] && g[0]) && !rest[0];
    assert Mul(q, g) == Xor(top, rest);
  }

  lemma ShiftedXor(g: Bits, n: nat, p: Bits, i: nat)
    requires |p| + 1 == |g| + n && i < |p|
    ensures Xor(g + Zeros(n), [false] + p)[i + 1] == (p[i] != (i + 1 < |g| && g[i + 1]))
  {
    assert (g + Zeros(n))[i + 1] == (i + 1 < |g| && g[i + 1]);
    assert ([false] + p)[i + 1] == p[i];
  }

  lemma MulRest(q: Bits, g: Bits, i: nat)
    requires q != [] && |g| > 0 && i + 1 < |q| + |g| - 1
    ensures Mul(q, g)[i + 1] == (Mul(q[1..], g)[i] != (q[0] && i + 1 < |g| && g[i + 1]))
  {
    ShiftedXor(if q[0] then g else Zeros(|g|), |q| - 1, Mul(q[1..], g), i);
  }

  lemma MulHead(q: Bits, i: nat)
    requires q != [] && i < |q| + 15
    ensures Mul(q, GENERATOR)[0] == q[0]
    ensures Mul(q, GENERATOR)[i + 1] == (Mul(q[1..], GENERATOR)[i] != (q[0] && i < 16 && TAPS[i]))
  {
    MulFirst(q, GENERATOR);
    MulRest(q, GENERATOR, i);
    assert i < 16 ==> GENERATOR[i + 1] == TAPS[i];
  }

  lemma PeelProduct(q: Bits, s: Register, i: nat)
    requires q != [] && i < |q| + 15
    ensures Product(q, s)[0] == q[0]
    ensures Product(q, s)[i + 1] == (Product(q[1..], s)[i] != (q[0] && i < 16 && TAPS[i]))
  {
    MulHead(q, i);
    assert (Zeros(|q|) + s)[i + 1] == (Zeros(|q| - 1) + s)[i];
    assert !(Zeros(|q|) + s)[0];
  }

  /** Two strings that are each a head, and a tail toggled by the head under one mask. */
  lemma PeelEqual(d: Bits, e: Bits, d': Bits, e': Bits, mask: Bits)
    requires |d| == |e| == |d'| + 1 && |d'| == |e'| == |mask|
    requires forall k :: 1 <= k < |d| ==> d[k] == (d'[k - 1] != (d[0] && mask[k - 1]))
    requires forall k :: 1 <= k < |e| ==> e[k] == (e'[k - 1] != (e[0] && mask[k - 1]))
    ensures d == e <==> d[0] == e[0] && d' == e'
  {
    if d == e {
      forall i | 0 <= i < |mask|
        ensures d'[i] == e'[i]
      {
        assert d[i + 1] == e[i + 1];
      }
    }
  }

  lemma Peel(r: Register, m: Bits, q: Bits, s: Register)
    requires |q| == |m| > 0
    ensures Divides(Dividend(r, m), q, s) <==>
      q[0] == (r[0] != m[0]) && Divides(Dividend(Step(r, m[0]), m[1..]), q[1..], s)
  {
    var d, d' := Dividend(r, m), Dividend(Step(r, m[0]), m[1..]);
    var e, e' := Product(q, s), Product(q[1..], s);
    var mask := seq(|m| + 15, i requires 0 <= i => i < 16 && TAPS[i]);
    forall k | 1 <= k < |d|
      ensures d[k] == (d'[k - 1] != (d[0] && mask[k - 1]))
      ensures e[k] == (e'[k - 1] != (e[0] && mask[k - 1]))
    {
      PeelDividend(r, m, k - 1);
      PeelProduct(q, s, k - 1);
    }
    PeelDividend(r, m, 0);
    PeelProduct(q, s, 0);
    PeelEqual(d, e, d', e', mask);
  }

  /** Long division has one quotient and one remainder, and the register computes both. */
  lemma {:induction false} Division(r: Register, m: Bits, q: Bits, s: Register)
    requires |q| == |m|
    ensures Divides(Dividend(r, m), q, s) <==> q == Quotient(r, m) && s == Feed(r, m)
    decreases m
  {
    if m == [] {
      assert Dividend(r, m) == r;
      assert Product(q, s) == s;
    } else {
      Peel(r, m, q, s);
      Division(Step(r, m[0]), m[1..], q[1..], s);
      assert q == [q[0]] + q[1..];
      assert Quotient(r, m)[1..] == Quotient(Step(r, m[0]), m[1..]);
    }
  }

  /**
    * crc is the CRC of m exactly when it is the remainder of the init-adjusted message
    * times x^16, divided by x^16 + x^12 + x^5 + 1.
    */
  lemma CrcIsRemainder(m: seq<byte>, crc: word)
    ensures crc == Crc(INIT, m) <==>
      exists q: Bits :: |q| == 8 * |m| && Divides(Dividend(Reg(INIT), BytesBits(m)), q, Reg(crc))
  {
    var r, bits := Reg(INIT), BytesBits(m);
    CrcIsFeed(INIT, m);
    Division(r, bits, Quotient(r, bits), Reg(Crc(INIT, m)));
    if q: Bits :| |q| == 8 * |m| && Divides(Dividend(r, bits), q, Reg(crc)) {
      Division(r, bits, q, Reg(crc));
      RegInjective(crc, Crc(INIT, m));
    }
  }
}
