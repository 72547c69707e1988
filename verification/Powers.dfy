/** Natural powers, and the one inequality lemma the decimal power table needs. */
module Powers {

  function Pow(b: nat, e: nat): nat
  {
    if e == 0 then 1 else b * Pow(b, e - 1)
  }

  lemma {:induction false} PowPositive(b: nat, e: nat)
    requires b > 0
    ensures Pow(b, e) > 0
  {
    if e > 0 {
      PowPositive(b, e - 1);
    }
  }

  lemma {:induction false} PowAdd(b: nat, m: nat, n: nat)
    ensures Pow(b, m + n) == Pow(b, m) * Pow(b, n)
  {
    if m > 0 {
      PowAdd(b, m - 1, n);
      assert Pow(b, m + n) == b * Pow(b, m - 1 + n);
      Associate(b, Pow(b, m - 1), Pow(b, n));
    }
  }

  lemma {:induction false} PowTimes(b: nat, m: nat, n: nat)
    ensures Pow(Pow(b, m), n) == Pow(b, m * n)
  {
    if n > 0 {
      PowTimes(b, m, n - 1);
      PowAdd(b, m, m * (n - 1));
      assert m * n == m + m * (n - 1);
    } else {
      assert m * n == 0;
    }
  }

  lemma Exchange(a: int, b: int, x: int, y: int)
    ensures (a * b) * (x * y) == (a * x) * (b * y)
  {
    calc {
      (a * b) * (x * y);
      a * (b * (x * y));
      { assert b * (x * y) == x * (b * y); }
      a * (x * (b * y));
      (a * x) * (b * y);
    }
  }

  lemma {:induction false} PowProduct(a: nat, b: nat, n: nat)
    ensures Pow(a * b, n) == Pow(a, n) * Pow(b, n)
  {
    if n > 0 {
      PowProduct(a, b, n - 1);
      Exchange(a, b, Pow(a, n - 1), Pow(b, n - 1));
    }
  }

  lemma ProductMonotone(a: nat, b: nat, c: nat, d: nat)
    requires a <= b && c <= d
    ensures a * c <= b * d
  {
    assert b * d - a * c == (b - a) * d + a * (d - c);
  }

  lemma ScaleOrder(a: int, c: int, b: int)
    requires b > 0
    ensures a * b <= c * b <==> a <= c
  {
    if a <= c {
      assert (c - a) * b >= 0;
    } else {
      assert (a - c) * b > 0;
    }
  }

  lemma {:induction false} PowBaseMonotone(a: nat, b: nat, n: nat)
    requires a <= b
    ensures Pow(a, n) <= Pow(b, n)
  {
    if n > 0 {
      PowBaseMonotone(a, b, n - 1);
      ProductMonotone(a, b, Pow(a, n - 1), Pow(b, n - 1));
    }
  }

  lemma {:induction false} PowBaseStrict(a: nat, b: nat, n: nat)
    requires a < b && n > 0
    ensures Pow(a, n) < Pow(b, n)
  {
    var x, y := Pow(a, n - 1), Pow(b, n - 1);
    PowBaseMonotone(a, b, n - 1);
    PowPositive(b, n - 1);
    ProductMonotone(a, a, x, y);
    ScaleOrder(b, a, y);
  }

  lemma {:induction false} PowExponentMonotone(b: nat, m: nat, n: nat)
    requires b > 0 && m <= n
    ensures Pow(b, m) <= Pow(b, n)
  {
    PowAdd(b, m, n - m);
    PowPositive(b, n - m);
    PowPositive(b, m);
    assert Pow(b, m) * 1 <= Pow(b, m) * Pow(b, n - m);
  }

  lemma Associate(a: int, b: int, c: int)
    ensures a * (b * c) == (a * b) * c
  {
  }

  /** Bernoulli's inequality without division: (1 - 1/b)^k >= 1 - k/b. */
  lemma {:induction false} Bernoulli(b: nat, k: nat)
    requires k <= b && b > 0
    ensures Pow(b - 1, k) * b >= (b - k) * Pow(b, k)
  {
    if k > 0 {
      Bernoulli(b, k - 1);
      var x, y := Pow(b - 1, k - 1), Pow(b, k - 1);
      BernoulliStep(b, k, x, y);
    }
  }

  lemma BernoulliStep(b: nat, k: nat, x: nat, y: nat)
    requires 0 < k <= b && x * b >= (b - (k - 1)) * y
    ensures ((b - 1) * x) * b >= (b - k) * (b * y)
  {
    var c := b - k + 1;
    calc {
      ((b - 1) * x) * b;
    == { Associate(b - 1, x, b); }
      (b - 1) * (x * b);
    >= { ProductMonotone(b - 1, b - 1, c * y, x * b); }
      (b - 1) * (c * y);
    == { Associate(b - 1, c, y); }
      ((b - 1) * c) * y;
    >= { assert (b - 1) * c == (b - k) * b + (k - 1); ProductMonotone((b - k) * b, (b - 1) * c, y, y); }
      ((b - k) * b) * y;
    == { Associate(b - k, b, y); }
      (b - k) * (b * y);
    }
  }

  /**
   * A relative gap between two k-th powers survives taking the k-th root. If x^k <= u^p and v^p <= y^k, and u falls
   * short of v by the factor (b - k)/b, then x falls short of y by the factor (b - 1)/b.
   */
  lemma {:induction false} RootGap(x: nat, y: nat, k: nat, u: nat, v: nat, p: nat, b: nat)
    requires 0 < k < b && p > 0
    requires Pow(x, k) <= Pow(u, p)
    requires Pow(v, p) <= Pow(y, k)
    requires u * b <= (b - k) * v
    ensures x * b <= (b - 1) * y
  {
    if x * b > (b - 1) * y {
      PowBaseStrict((b - 1) * y, x * b, k);
      PowProduct(b - 1, y, k);
      PowProduct(x, b, k);
      Bernoulli(b, k);
      Smaller(u, v, b, k);
      PowBaseMonotone(u, v, p - 1);
      GapChain(Pow(x, k), Pow(y, k), Pow(b, k), Pow(b - 1, k), b, b - k, u, v, Pow(u, p - 1), Pow(v, p - 1));
      ScaleOrder(Pow(x, k) * Pow(b, k), Pow(b - 1, k) * Pow(y, k), b);
    }
  }

  lemma Smaller(u: nat, v: nat, b: nat, k: nat)
    requires k < b && u * b <= (b - k) * v
    ensures u <= v
  {
    ProductMonotone(b - k, b, v, v);
    if v < u {
      ProductMonotone(v + 1, u, b, b);
    }
  }

  lemma GapChain(xk: nat, yk: nat, bk: nat, ck: nat, b: nat, d: nat, u: nat, v: nat, us: nat, vs: nat)
    requires xk <= u * us && v * vs <= yk && us <= vs
    requires u * b <= d * v && d * bk <= ck * b
    ensures (xk * bk) * b <= (ck * yk) * b
  {
    calc {
      (xk * bk) * b;
    == { Associate(xk, bk, b); }
      xk * (bk * b);
    <= { ProductMonotone(xk, u * us, bk * b, bk * b); }
      (u * us) * (bk * b);
    == { assert bk * b == b * bk; Exchange(u, us, b, bk); }
      (u * b) * (us * bk);
    <= { ProductMonotone(us, vs, bk, bk); ProductMonotone(u * b, d * v, us * bk, vs * bk); }
      (d * v) * (vs * bk);
    == { assert vs * bk == bk * vs; Exchange(d, v, bk, vs); }
      (d * bk) * (v * vs);
    <= { ProductMonotone(d * bk, ck * b, v * vs, yk); }
      (ck * b) * yk;
    == { Associate(ck, b, yk); Associate(ck, yk, b); assert b * yk == yk * b; }
      (ck * yk) * b;
    }
  }
}
