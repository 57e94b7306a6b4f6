/** Primes, Euclid's lemma, Fermat's little theorem and the Chinese remainder
    step for two primes: the number theory that makes textbook RSA decryption
    undo encryption. */
module Primes {
  import opened Power

  /** n has no divisor strictly between 1 and itself. */
  predicate IsPrime(n: nat)
  {
    n >= 2 && forall d :: 2 <= d < n ==> n % d != 0
  }

  /** No number in [lo, hi) divides n. */
  predicate NoDivisorBetween(n: nat, lo: nat, hi: nat)
    requires lo > 0
    decreases hi - lo
  {
    lo >= hi || (n % lo != 0 && NoDivisorBetween(n, lo + 1, hi))
  }

  lemma {:induction false} NoDivisorBetweenAt(n: nat, lo: nat, hi: nat, d: nat)
    requires 0 < lo <= d < hi && NoDivisorBetween(n, lo, hi)
    ensures n % d != 0
    decreases d - lo
  {
    if lo < d {
      NoDivisorBetweenAt(n, lo + 1, hi, d);
    }
  }

  lemma {:induction false} NoDivisorBetweenJoin(n: nat, lo: nat, mid: nat, hi: nat)
    requires 0 < lo <= mid <= hi
    requires NoDivisorBetween(n, lo, mid) && NoDivisorBetween(n, mid, hi)
    ensures NoDivisorBetween(n, lo, hi)
    decreases mid - lo
  {
    if lo < mid {
      NoDivisorBetweenJoin(n, lo + 1, mid, hi);
    }
  }

  lemma MulBelow(k: nat, d: nat, s: nat)
    requires k >= s && d >= s
    ensures k * d >= s * s
  {
    assert k * d >= s * d;
  }

  /** Trial division by every number below s decides primality when s*s > n. */
  lemma PrimeByTrialDivision(n: nat, s: nat)
    requires n >= 2 && s >= 2 && n < s * s && NoDivisorBetween(n, 2, s)
    ensures IsPrime(n)
  {
    forall d | 2 <= d < n
      ensures n % d != 0
    {
      if n % d == 0 {
        var k := n / d;
        assert n == k * d;
        if d < s {
          NoDivisorBetweenAt(n, 2, s, d);
        } else {
          if k >= s {
            MulBelow(k, d, s);
          }
          DivModUnique(n, k, d, 0);
          NoDivisorBetweenAt(n, 2, s, k);
        }
      }
    }
  }

  lemma MultipleMod(p: nat, b: nat)
    requires p > 0
    ensures (p * b) % p == 0
  {
    DivModUnique(p * b, p, b, 0);
  }

  /** If p divides x*b and y*b, then p divides (x % y)*b. */
  lemma RemainderKeepsDivisibility(p: nat, b: nat, x: nat, y: nat)
    requires p > 0 && y > 0
    requires (x * b) % p == 0 && (y * b) % p == 0
    ensures ((x % y) * b) % p == 0
  {
    var s, t, k := (x * b) / p, (y * b) / p, x / y;
    assert x * b == s * p;
    assert y * b == t * p;
    assert x == k * y + x % y;
    assert x * b == k * (y * b) + (x % y) * b;
    assert (x % y) * b == (s - k * t) * p;
    DivModUnique((x % y) * b, p, s - k * t, 0);
  }

  /** Descent behind Euclid's lemma: from p | c*b with 0 < c < p, step to the
      smaller c' = p % c (still p | c'*b, and c' > 0 because p is prime) until c = 1. */
  lemma {:induction false} EuclidDescent(p: nat, b: nat, c: nat)
    requires IsPrime(p) && 0 < c < p && (c * b) % p == 0
    ensures b % p == 0
    decreases c
  {
    if c > 1 {
      assert p % c != 0;
      MultipleMod(p, b);
      RemainderKeepsDivisibility(p, b, p, c);
      EuclidDescent(p, b, p % c);
    }
  }

  /** Euclid's lemma: a prime that divides a product and not its first factor
      divides the second. */
  lemma Euclid(p: nat, a: nat, b: nat)
    requires IsPrime(p) && a % p != 0 && (a * b) % p == 0
    ensures b % p == 0
  {
    MultipleMod(p, b);
    RemainderKeepsDivisibility(p, b, a, p);
    EuclidDescent(p, b, a % p);
  }

  /** The binomial coefficient "n choose k", by Pascal's rule. */
  function Binom(n: nat, k: nat): nat
  {
    if k == 0 then 1 else if n == 0 then 0 else Binom(n - 1, k - 1) + Binom(n - 1, k)
  }

  lemma {:induction false} BinomOne(n: nat)
    ensures Binom(n, 1) == n
  {
    if n > 0 {
      BinomOne(n - 1);
    }
  }

  lemma {:induction false} BinomAbove(n: nat, k: nat)
    requires k > n
    ensures Binom(n, k) == 0
  {
    if n > 0 {
      BinomAbove(n - 1, k - 1);
      BinomAbove(n - 1, k);
    }
  }

  lemma {:induction false} BinomAll(n: nat)
    ensures Binom(n, n) == 1
  {
    if n > 0 {
      BinomAll(n - 1);
      BinomAbove(n - 1, n);
    }
  }

  lemma AbsorbArith(n: int, k: int, a: int, b: int, a0: int, a1: int)
    requires a == a0 + a1 && k * b == (n - 1) * a1 && (k - 1) * a == (n - 1) * a0
    ensures k * (a + b) == n * a
  {
    calc {
      k * (a + b);
      (k - 1) * a + a + k * b;
      (n - 1) * a0 + a + (n - 1) * a1;
      (n - 1) * (a0 + a1) + a;
    }
  }

  /** k * C(n, k) == n * C(n-1, k-1). */
  lemma {:induction false} BinomAbsorb(n: nat, k: nat)
    requires n >= 1 && k >= 1
    ensures k * Binom(n, k) == n * Binom(n - 1, k - 1)
    decreases n
  {
    if k == 1 {
      BinomOne(n);
    } else if n == 1 {
      assert Binom(0, k - 1) == 0 && Binom(0, k) == 0;
    } else {
      var a, b := Binom(n - 1, k - 1), Binom(n - 1, k);
      var a0, a1 := Binom(n - 2, k - 2), Binom(n - 2, k - 1);
      BinomAbsorb(n - 1, k);
      BinomAbsorb(n - 1, k - 1);
      assert Binom(n, k) == a + b;
      assert a == a0 + a1;
      AbsorbArith(n, k, a, b, a0, a1);
    }
  }

  /** A prime p divides C(p, k) for 0 < k < p. */
  lemma PrimeDividesBinom(p: nat, k: nat)
    requires IsPrime(p) && 0 < k < p
    ensures Binom(p, k) % p == 0
  {
    var c, c' := Binom(p, k), Binom(p - 1, k - 1);
    BinomAbsorb(p, k);
    assert k * c == p * c';
    MultipleMod(p, c');
    assert k % p == k by { DivModUnique(k, p, 0, k); }
    Euclid(p, k, c);
  }

  /** The partial binomial sum C(n,0) + C(n,1)*a + ... + C(n,k)*a^k. */
  function BinomSum(n: nat, a: nat, k: nat): nat
  {
    if k == 0 then 1 else BinomSum(n, a, k - 1) + Binom(n, k) * Pow(a, k)
  }

  lemma StepArith(a: int, s1: int, s0: int, t1: int, c0: int, c1: int, w: int)
    requires t1 == s1 + a * s0
    ensures t1 + (c0 + c1) * (a * w) == (s1 + c1 * (a * w)) + a * (s0 + c0 * w)
  {
  }

  /** Pascal's rule lifted to the partial sums. */
  lemma {:induction false} BinomSumStep(n: nat, a: nat, k: nat)
    requires k >= 1
    ensures BinomSum(n + 1, a, k) == BinomSum(n, a, k) + a * BinomSum(n, a, k - 1)
    decreases k
  {
    if k == 1 {
      assert Binom(n + 1, 1) == Binom(n, 0) + Binom(n, 1);
    } else {
      BinomSumStep(n, a, k - 1);
      var c0, c1, w := Binom(n, k - 1), Binom(n, k), Pow(a, k - 1);
      var s1, s0, t1 := BinomSum(n, a, k - 1), BinomSum(n, a, k - 2), BinomSum(n + 1, a, k - 1);
      assert Binom(n + 1, k) == c0 + c1;
      assert Pow(a, k) == a * w;
      assert BinomSum(n + 1, a, k) == t1 + (c0 + c1) * (a * w);
      assert BinomSum(n, a, k) == s1 + c1 * (a * w);
      assert BinomSum(n, a, k - 1) == s0 + c0 * w;
      StepArith(a, s1, s0, t1, c0, c1, w);
    }
  }

  lemma {:induction false} BinomSumBeyond(n: nat, a: nat, k: nat)
    requires k >= n
    ensures BinomSum(n, a, k) == BinomSum(n, a, n)
    decreases k
  {
    if k > n {
      BinomAbove(n, k);
      BinomSumBeyond(n, a, k - 1);
    }
  }

  /** The binomial theorem for (a + 1)^n. */
  lemma {:induction false} BinomialTheorem(n: nat, a: nat)
    ensures BinomSum(n, a, n) == Pow(a + 1, n)
  {
    if n > 0 {
      var m := n - 1;
      BinomialTheorem(m, a);
      BinomSumStep(m, a, n);
      BinomSumBeyond(m, a, n);
      assert BinomSum(n, a, n) == BinomSum(m, a, m) + a * BinomSum(m, a, m);
    }
  }

  /** The middle terms of (a + 1)^p are all multiples of p. */
  lemma {:induction false} MiddleTerms(p: nat, a: nat, k: nat)
    requires IsPrime(p) && k < p
    ensures BinomSum(p, a, k) % p == 1
    decreases k
  {
    if k == 0 {
      DivModUnique(1, p, 0, 1);
    } else {
      MiddleTerms(p, a, k - 1);
      PrimeDividesBinom(p, k);
      var b, w, s := Binom(p, k), Pow(a, k), BinomSum(p, a, k - 1);
      var c := b / p;
      DivModDef(b, p);
      var cw := c * w;
      assert b * w == cw * p by { Regroup(c, p, w); }
      assert BinomSum(p, a, k) == s + b * w;
      ModAddMultiple(cw, p, s);
    }
  }

  /** (a + 1)^p and a^p + 1 leave the same remainder modulo a prime p. */
  lemma FreshmansDream(p: nat, a: nat)
    requires IsPrime(p)
    ensures Pow(a + 1, p) % p == (Pow(a, p) + 1) % p
  {
    BinomialTheorem(p, a);
    BinomAll(p);
    MiddleTerms(p, a, p - 1);
    var s := BinomSum(p, a, p - 1);
    assert BinomSum(p, a, p) == s + Pow(a, p);
    AddMod(s, Pow(a, p), p);
    AddMod(1, Pow(a, p), p);
  }

  /** Fermat's little theorem: a^p and a leave the same remainder modulo a prime p. */
  lemma {:induction false} Fermat(p: nat, a: nat)
    requires IsPrime(p)
    ensures Pow(a, p) % p == a % p
    decreases a
  {
    if a == 0 {
      assert Pow(0, p) == 0 * Pow(0, p - 1);
    } else {
      Fermat(p, a - 1);
      FreshmansDream(p, a - 1);
      AddMod(Pow(a - 1, p), 1, p);
      AddMod(a - 1, 1, p);
    }
  }

  /** m^(1 + j(p-1)) and m leave the same remainder modulo a prime p. */
  lemma {:induction false} FermatPower(p: nat, m: nat, j: nat)
    requires IsPrime(p)
    ensures Pow(m, 1 + j * (p - 1)) % p == m % p
    decreases j
  {
    if j > 0 {
      var k := 1 + (j - 1) * (p - 1);
      FermatPower(p, m, j - 1);
      assert 1 + j * (p - 1) == k + (p - 1);
      PowAdd(m, k, p - 1);
      MulModLeft(Pow(m, k), Pow(m, p - 1), p);
      MulModLeft(m, Pow(m, p - 1), p);
      Fermat(p, m);
    }
  }

  /** Two different primes cannot divide one another. */
  lemma DistinctPrimes(p: nat, q: nat)
    requires IsPrime(p) && IsPrime(q) && p != q
    ensures p % q != 0
  {
    if p < q {
      DivModUnique(p, q, 0, p);
    }
  }

  /** The remainder modulo p*q determines the remainders modulo p and q. */
  lemma ModOfProduct(x: nat, p: nat, q: nat, n: nat)
    requires p > 0 && q > 0 && n == p * q
    ensures x % n % p == x % p && x % n % q == x % q
  {
    MulAtLeast(p, q);
    var k := x / n;
    DivModDef(x, n);
    Regroup(k, p, q);
    assert x == (k * q) * p + x % n;
    assert x == (k * p) * q + x % n;
    ModAddMultiple(k * q, p, x % n);
    ModAddMultiple(k * p, q, x % n);
  }

  lemma EqualModDiff(r: nat, s: nat, n: nat)
    requires n > 0 && r >= s && r % n == s % n
    ensures (r - s) % n == 0
  {
    DivModDef(r, n);
    DivModDef(s, n);
    assert r - s == (r / n - s / n) * n;
    DivModUnique(r - s, n, r / n - s / n, 0);
  }

  /** A number below p*q that both distinct primes p and q divide is 0. */
  lemma BothDivide(p: nat, q: nat, n: nat, z: nat)
    requires IsPrime(p) && IsPrime(q) && p != q && n == p * q
    requires z < n && z % p == 0 && z % q == 0
    ensures z == 0
  {
    var t := z / p;
    DivModDef(z, p);
    assert z == p * t;
    DistinctPrimes(p, q);
    Euclid(q, p, t);
    var u := t / q;
    DivModDef(t, q);
    assert t == u * q;
    Regroup(u, p, q);
    assert z == u * n;
    if u >= 1 {
      MulAtLeast(u, n);
    }
  }

  /** Chinese remainder step for two primes: agreeing modulo p and modulo q
      means agreeing modulo p*q. */
  lemma ChineseRemainder(p: nat, q: nat, x: nat, y: nat)
    requires IsPrime(p) && IsPrime(q) && p != q
    requires x % p == y % p && x % q == y % q
    ensures x % (p * q) == y % (p * q)
  {
    var n := p * q;
    MulAtLeast(p, q);
    var r, s := x % n, y % n;
    ModOfProduct(x, p, q, n);
    ModOfProduct(y, p, q, n);
    if r > s {
      EqualModDiff(r, s, p);
      EqualModDiff(r, s, q);
      BothDivide(p, q, n, r - s);
    } else if s > r {
      EqualModDiff(s, r, p);
      EqualModDiff(s, r, q);
      BothDivide(p, q, n, s - r);
    }
  }

  lemma Regroup(k: int, a: int, b: int)
    ensures k * (a * b) == (k * b) * a && k * (a * b) == (k * a) * b
  {
  }

  /** e*d = 1 + k*(p-1)*(q-1), written twice so that either prime's
      Fermat power applies. */
  lemma ExponentSplit(p: nat, q: nat, ed: nat) returns (j: nat, j': nat)
    requires p >= 2 && q >= 2
    requires ed % ((p - 1) * (q - 1)) == 1
    ensures ed == 1 + j * (p - 1) && ed == 1 + j' * (q - 1)
  {
    var a, b := p - 1, q - 1;
    var n := a * b;
    MulAtLeast(a, b);
    var k := ed / n;
    DivModDef(ed, n);
    assert ed == k * n + 1;
    j, j' := k * b, k * a;
    Regroup(k, a, b);
  }

  /** m^(ed) and m agree modulo p*q when ed = 1 (mod (p-1)(q-1)). */
  lemma RsaExponent(p: nat, q: nat, ed: nat, m: nat)
    requires IsPrime(p) && IsPrime(q) && p != q
    requires ed % ((p - 1) * (q - 1)) == 1
    ensures Pow(m, ed) % (p * q) == m % (p * q)
  {
    var j, j' := ExponentSplit(p, q, ed);
    FermatPower(p, m, j);
    FermatPower(q, m, j');
    ChineseRemainder(p, q, Pow(m, ed), m);
  }

  /** The RSA identity: for distinct primes p, q and exponents with
      e*d = 1 (mod (p-1)(q-1)), raising to e and then to d modulo p*q gives
      back every message modulo p*q. */
  lemma RsaIdentity(p: nat, q: nat, e: nat, d: nat, m: nat)
    requires IsPrime(p) && IsPrime(q) && p != q
    requires (e * d) % ((p - 1) * (q - 1)) == 1
    ensures Pow(Pow(m, e) % (p * q), d) % (p * q) == m % (p * q)
  {
    var n := p * q;
    RsaExponent(p, q, e * d, m);
    PowMul(m, e, d);
    PowMod(Pow(m, e), d, n);
  }
}
