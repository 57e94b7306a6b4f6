/** Natural-number powers and the facts about remainders that modular
    exponentiation relies on. */
module Power {

  /** b raised to the n-th power, over unbounded naturals. */
  function Pow(b: nat, n: nat): (r: nat)
    ensures b > 0 ==> r > 0
  {
    if n == 0 then 1 else b * Pow(b, n - 1)
  }

  /** The defining equation of division with remainder. */
  lemma DivModDef(x: int, n: int)
    requires n > 0
    ensures x == (x / n) * n + x % n && 0 <= x % n < n
  {
  }

  /** Division with remainder has exactly one quotient and one remainder. */
  lemma DivModUnique(x: int, n: int, q: int, r: int)
    requires n > 0 && 0 <= r < n && x == q * n + r
    ensures x % n == r && x / n == q
  {
    var q0, r0 := x / n, x % n;
    assert x == q0 * n + r0;
    assert (q - q0) * n == r0 - r;
    if q > q0 {
      assert (q - q0) * n >= n by { MulAtLeast(q - q0, n); }
    } else if q < q0 {
      assert (q0 - q) * n >= n by { MulAtLeast(q0 - q, n); }
    }
  }

  lemma MulMono(a: nat, b: nat, c: nat)
    requires b <= c
    ensures a * b <= a * c
  {
    assert a * c - a * b == a * (c - b);
  }

  lemma MulAtLeast(k: int, n: int)
    requires k >= 1 && n > 0
    ensures k * n >= n
  {
  }

  /** Adding a multiple of n does not change the remainder modulo n. */
  lemma ModAddMultiple(k: int, n: int, y: int)
    requires n > 0
    ensures (k * n + y) % n == y % n
  {
    var r := y % n;
    assert y == (y / n) * n + r;
    assert k * n + y == (k + y / n) * n + r;
    DivModUnique(k * n + y, n, k + y / n, r);
  }

  /** Reducing either summand first does not change the remainder of a sum. */
  lemma AddMod(x: int, y: int, n: int)
    requires n > 0
    ensures (x + y) % n == (x % n + y) % n
  {
    assert x == (x / n) * n + x % n;
    ModAddMultiple(x / n, n, x % n + y);
  }

  /** Reducing the left factor first does not change the remainder of a product. */
  lemma MulModLeft(a: int, b: int, n: int)
    requires n > 0
    ensures (a * b) % n == ((a % n) * b) % n
  {
    var q := a / n;
    assert a == q * n + a % n;
    assert a * b == (q * b) * n + (a % n) * b;
    ModAddMultiple(q * b, n, (a % n) * b);
  }

  /** Reducing the right factor first does not change the remainder of a product. */
  lemma MulModRight(a: int, b: int, n: int)
    requires n > 0
    ensures (a * b) % n == (a * (b % n)) % n
  {
    MulModLeft(b, a, n);
    assert a * b == b * a && a * (b % n) == (b % n) * a;
  }

  /** Reducing both factors first does not change the remainder of a product. */
  lemma MulMod(a: int, b: int, n: int)
    requires n > 0
    ensures (a * b) % n == ((a % n) * (b % n)) % n
  {
    MulModLeft(a, b, n);
    MulModLeft(b, a % n, n);
    assert (a % n) * b == b * (a % n);
    assert (b % n) * (a % n) == (a % n) * (b % n);
  }

  lemma {:induction false} PowAdd(b: nat, m: nat, n: nat)
    ensures Pow(b, m + n) == Pow(b, m) * Pow(b, n)
    decreases n
  {
    if n > 0 {
      PowAdd(b, m, n - 1);
      assert Pow(b, m + n) == b * Pow(b, m + (n - 1));
      assert b * (Pow(b, m) * Pow(b, n - 1)) == Pow(b, m) * (b * Pow(b, n - 1));
    }
  }

  lemma {:induction false} PowMul(b: nat, m: nat, n: nat)
    ensures Pow(b, m * n) == Pow(Pow(b, m), n)
    decreases n
  {
    if n > 0 {
      PowMul(b, m, n - 1);
      assert m * n == m * (n - 1) + m;
      PowAdd(b, m * (n - 1), m);
      assert Pow(b, m * n) == Pow(b, m * (n - 1)) * Pow(b, m);
    }
  }

  /** The base may be reduced modulo n before exponentiating. */
  lemma {:induction false} PowMod(b: nat, k: nat, n: nat)
    requires n > 0
    ensures Pow(b % n, k) % n == Pow(b, k) % n
    decreases k
  {
    if k > 0 {
      var r := b % n;
      var x, y := Pow(r, k - 1), Pow(b, k - 1);
      PowMod(b, k - 1, n);
      assert Pow(r, k) == r * x;
      assert Pow(b, k) == b * y;
      MulModRight(r, x, n);
      MulModRight(r, y, n);
      MulModLeft(b, y, n);
      assert (r * x) % n == (r * y) % n;
    }
  }
}
