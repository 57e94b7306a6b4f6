/** Fixed-width integers and modular exponentiation by square-and-multiply. */
module Util {
  import opened Power

  /** Unsigned 32-bit integers. */
  newtype u32 = x: int | 0 <= x < 0x1_0000_0000

  /** Unsigned 64-bit integers, the width of the exponentiation accumulator. */
  newtype u64 = x: int | 0 <= x < 0x1_0000_0000_0000_0000

  /** Number of bits in a u32, the number of rounds of square-and-multiply. */
  const U32_BITS: u32 := 32

  /** The largest u32 value. */
  const U32_MAX: u32 := 0xFFFF_FFFF

  /** x^e mod n: the value modular exponentiation computes. */
  function ModExp(x: u32, e: u32, n: u32): (r: u32)
    requires n > 0
    ensures r < n
    ensures e == 0 ==> r as int == 1 % n as int
    ensures n == 1 ==> r == 0
  {
    (Pow(x as nat, e as nat) % n as nat) as u32
  }

  /** The bits of e from position i upwards, as a number: e >> i. */
  function TopBits(e: nat, i: nat): nat
  {
    e / Pow(2, i)
  }

  /** e >> i on a u32, for a shift amount below the width. */
  function ShiftRight(e: u32, i: u32): (r: u32)
    requires i < U32_BITS
    ensures r as nat == TopBits(e as nat, i as nat)
  {
    var w := Pow(2, i as nat);
    var s := e as nat / w;
    assert e as nat == s * w + e as nat % w;
    MulMono(s, 1, w);
    (e as nat / w) as u32
  }

  /** Shifting one place further halves the shifted value. */
  lemma TopBitsStep(e: nat, i: nat)
    ensures TopBits(e, i) == 2 * TopBits(e, i + 1) + TopBits(e, i) % 2
  {
    var w := Pow(2, i);
    var s := e / w;
    assert e == s * w + e % w;
    assert Pow(2, i + 1) == 2 * w;
    assert s == 2 * (s / 2) + s % 2;
    assert e == (s / 2) * (2 * w) + ((s % 2) * w + e % w);
    assert (s % 2) * w + e % w < 2 * w;
    DivModUnique(e, 2 * w, s / 2, (s % 2) * w + e % w);
  }

  /** All 32 bits shifted out leave nothing; none shifted out leave e. */
  lemma TopBitsEnds(e: u32)
    ensures TopBits(e as nat, 32) == 0 && TopBits(e as nat, 0) == e as nat
  {
    assert Pow(2, 32) == 0x1_0000_0000 by {
      PowMul(2, 8, 4);
      assert Pow(2, 8) == 256;
    }
    DivModUnique(e as nat, 0x1_0000_0000, 0, e as nat);
  }

  /** Products of two values below 2^32 fit in 64 bits. */
  lemma ProductFits(a: nat, b: nat)
    requires a < 0x1_0000_0000 && b < 0x1_0000_0000
    ensures a * b < 0x1_0000_0000_0000_0000
  {
    var m := 0xFFFF_FFFF;
    MulMono(a, b, m);
    MulMono(m, a, m);
    assert a * m == m * a;
    assert m * m < 0x1_0000_0000_0000_0000;
  }

  lemma SmallMod(y: nat, n: nat)
    requires y < n
    ensures y % n == y
  {
    DivModUnique(y, n, 0, y);
  }

  /** Squaring an accumulator that holds x^h mod n gives x^(2h) mod n. */
  lemma SquareStep(x: nat, h: nat, n: nat, acc: nat)
    requires n > 0 && acc % n == Pow(x, h) % n
    ensures (acc * acc) % n == Pow(x, 2 * h) % n
  {
    var y := Pow(x, h);
    PowAdd(x, h, h);
    assert h + h == 2 * h;
    MulMod(acc, acc, n);
    MulMod(y, y, n);
  }

  /** Multiplying an accumulator that holds x^k mod n by x gives x^(k+1) mod n. */
  lemma MultiplyStep(x: nat, k: nat, n: nat, acc: nat)
    requires n > 0 && acc % n == Pow(x, k) % n
    ensures (acc * x) % n == Pow(x, k + 1) % n
  {
    var y := Pow(x, k);
    MulModLeft(acc, x, n);
    MulModLeft(y, x, n);
    assert Pow(x, k + 1) == y * x;
  }

  /** modpow: scans the exponent from bit 31 down to bit 0, squaring the
      accumulator and then multiplying it by x when the bit is set, reducing
      modulo n after every product. The accumulator is 64 bits wide and the
      proof shows that no product overflows it. A zero modulus divides by zero. */
  method ModPow(x: u32, e: u32, n: u32) returns (r: u32)
    requires n > 0
    ensures r == ModExp(x, e, n)
  {
    var acc: u64 := 1;
    TopBitsEnds(e);
    for i := U32_BITS downto 0
      invariant i == U32_BITS ==> acc == 1
      invariant i < U32_BITS ==> acc < n as u64
      invariant acc as nat % n as nat == Pow(x as nat, TopBits(e as nat, i as nat)) % n as nat
    {
      ghost var h := TopBits(e as nat, i as nat + 1);
      TopBitsStep(e as nat, i as nat);
      var bi := ShiftRight(e, i) % 2;
      ProductFits(acc as nat, acc as nat);
      SquareStep(x as nat, h, n as nat, acc as nat);
      acc := acc * acc % n as u64;
      SmallMod(acc as nat, n as nat);
      if bi == 1 {
        ProductFits(acc as nat, x as nat);
        MultiplyStep(x as nat, 2 * h, n as nat, acc as nat);
        acc := acc * x as u64 % n as u64;
        SmallMod(acc as nat, n as nat);
      }
    }
    SmallMod(acc as nat, n as nat);
    r := acc as u32;
  }

  /** The worked example: 27^13 mod 16 == 11. */
  method ModPowCorrectness() returns (r: u32)
    ensures r == 11
  {
    r := ModPow(27, 13, 16);
  }
}
