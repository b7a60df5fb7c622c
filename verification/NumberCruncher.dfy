/** `number_cruncher`: which numbers its strict root bound lets through, exactly. */
module NumberCruncher {

  // ---------- Primes ----------

  predicate Divides(d: int, n: int)
    requires d > 0
  {
    n % d == 0
  }

  predicate IsPrime(p: nat) {
    p >= 2 && forall d :: 2 <= d < p ==> !Divides(d, p)
  }

  lemma MultipleDivides(d: int, k: int)
    requires d > 0
    ensures Divides(d, d * k) && Divides(d, k * d)
    decreases if k < 0 then -k else k
  {
    if k > 0 {
      MultipleDivides(d, k - 1);
      assert d * k == d * (k - 1) + d;
      AddMultiple(d * (k - 1), d);
    } else if k < 0 {
      MultipleDivides(d, k + 1);
      assert d * (k + 1) == d * k + d;
      AddMultiple(d * k, d);
    }
  }

  lemma AddMultiple(n: int, d: int)
    requires d > 0
    ensures (n + d) % d == n % d
  {
    var q := (n + d) / d - n / d - 1;
    assert d * q == n % d - (n + d) % d;
    ProductOrder(d, 1, d, q);
    ProductOrder(d, 1, d, -q);
  }

  lemma ProductOrder(a: int, b: int, c: int, d: int)
    ensures 0 <= a <= c && 0 <= b <= d ==> a * b <= c * d
  {
  }

  /** A divisor of a divisor divides. */
  lemma DividesThrough(e: int, d: int, n: int)
    requires e > 0 && d > 0 && Divides(e, d) && Divides(d, n)
    ensures Divides(e, n)
  {
    assert n == (e * (d / e)) * (n / d) == e * ((d / e) * (n / d));
    MultipleDivides(e, (d / e) * (n / d));
  }

  lemma LeastDivisor(n: nat) returns (d: nat)
    requires n >= 2
    ensures 2 <= d <= n && Divides(d, n) && IsPrime(d)
    ensures forall e :: 2 <= e < d ==> !Divides(e, n)
  {
    d := 2;
    while !Divides(d, n)
      invariant 2 <= d <= n
      invariant forall e :: 2 <= e < d ==> !Divides(e, n)
      decreases n - d
    {
      d := d + 1;
    }
    forall e | 2 <= e < d ensures !Divides(e, d) {
      if Divides(e, d) {
        DividesThrough(e, d, n);
      }
    }
  }

  lemma {:induction false} EuclidBelow(p: nat, a: nat, b: int, k: int)
    requires IsPrime(p) && 0 < a < p && a * b == k * p
    ensures Divides(p, b)
    decreases a
  {
    if a == 1 {
      MultipleDivides(p, k);
    } else {
      var q, r := p / a, p % a;
      assert !Divides(a, p);
      assert r * b == p * b - q * (a * b) by {
        assert p == q * a + r;
        assert p * b == q * a * b + r * b;
      }
      assert r * b == (b - q * k) * p by {
        assert q * (k * p) == q * k * p;
      }
      EuclidBelow(p, r, b, b - q * k);
    }
  }

  /** Euclid's lemma. */
  lemma Euclid(p: nat, a: nat, b: nat)
    requires IsPrime(p) && Divides(p, a * b)
    ensures Divides(p, a) || Divides(p, b)
  {
    var r, k := a % p, a * b / p;
    if r != 0 {
      var q := a / p;
      assert r * b == (k - q * b) * p by {
        assert a == q * p + r;
        assert a * b == q * p * b + r * b;
        assert a * b == k * p;
        assert q * p * b == q * b * p;
      }
      EuclidBelow(p, r, b, k - q * b);
    }
  }

  // ---------- The numbers that are counted ----------

  /** The integer part of the square root. */
  function Root(i: nat): (r: nat)
    ensures r * r <= i < (r + 1) * (r + 1)
  {
    if i == 0 then 0 else
    var r := Root(i - 1);
    if (r + 1) * (r + 1) <= i then r + 1 else r
  }

  lemma RootIsUnique(i: nat, r: nat)
    requires r * r <= i < (r + 1) * (r + 1)
    ensures Root(i) == r
  {
    var s := Root(i);
    ProductOrder(s + 1, s + 1, r, r);
    ProductOrder(r + 1, r + 1, s, s);
  }

  /** No number from 2 to strictly below the root divides `i`. */
  predicate PassesTrial(i: nat) {
    forall n :: 2 <= n < Root(i) ==> !Divides(n, i)
  }

  ghost predicate IsPrimeSquare(i: nat) {
    exists p: nat :: IsPrime(p) && i == p * p
  }

  ghost predicate IsTwinProduct(i: nat) {
    exists p: nat :: IsPrime(p) && IsPrime(p + 2) && i == p * (p + 2)
  }

  ghost predicate IsCounted(i: nat) {
    IsPrime(i) || IsPrimeSquare(i) || IsTwinProduct(i) || i == 6 || i == 8
  }

  /** A product of primes has no divisor below all of them. */
  lemma NoSmallDivisor(p: nat, q: nat, n: nat)
    requires IsPrime(p) && IsPrime(q) && p <= q && 2 <= n < p
    ensures !Divides(n, p * q)
  {
    if Divides(n, p * q) {
      var d := LeastDivisor(n);
      DividesThrough(d, n, p * q);
      Euclid(d, p, q);
      assert false;
    }
  }

  lemma ProductPasses(p: nat, q: nat)
    requires IsPrime(p) && IsPrime(q) && (q == p || q == p + 2)
    ensures PassesTrial(p * q)
  {
    assert p * p <= p * q <= p * (p + 2) == p * p + 2 * p < (p + 1) * (p + 1);
    RootIsUnique(p * q, p);
    forall n | 2 <= n < p ensures !Divides(n, p * q) {
      NoSmallDivisor(p, q, n);
    }
  }

  lemma PrimePasses(i: nat)
    requires IsPrime(i)
    ensures PassesTrial(i)
  {
    ProductOrder(i, i, Root(i), Root(i));
    ProductOrder(2, i, i, i);
  }

  lemma CountedPasses(i: nat)
    requires IsCounted(i)
    ensures PassesTrial(i)
  {
    if IsPrime(i) {
      PrimePasses(i);
    } else if IsPrimeSquare(i) {
      var p: nat :| IsPrime(p) && i == p * p;
      ProductPasses(p, p);
    } else if IsTwinProduct(i) {
      var p: nat :| IsPrime(p) && IsPrime(p + 2) && i == p * (p + 2);
      ProductPasses(p, p + 2);
    } else {
      RootIsUnique(i, 2);
    }
  }

  /** A composite number that passes is its root times that root or one of the next two numbers. */
  lemma CompositeShape(i: nat) returns (d: nat, q: nat)
    requires i >= 3 && !IsPrime(i) && PassesTrial(i)
    ensures IsPrime(d) && Root(i) == d && i == d * q && d <= q <= d + 2
    ensures forall e :: 2 <= e < d ==> !Divides(e, i)
  {
    d := LeastDivisor(i);
    q := Cofactor(d, i);
    MultipleDivides(q, d);
    assert Divides(q, i) && q >= d;
    RootOfProduct(i, d, q);
  }

  lemma Cofactor(d: nat, n: nat) returns (q: nat)
    requires 0 < d < n && Divides(d, n)
    ensures n == d * q && q >= 2
  {
    q := n / d;
    ProductOrder(d, q, d, 1);
  }

  lemma RootOfProduct(i: nat, d: nat, q: nat)
    requires i == d * q && 2 <= d <= q && !(d < Root(i))
    ensures Root(i) == d && q <= d + 2
  {
    var r := Root(i);
    ProductOrder(r + 1, r + 1, d, q);
    ProductOrder(d, d + 3, d, q);
    assert d * (d + 3) == d * d + 3 * d;
    assert (d + 1) * (d + 1) == d * d + 2 * d + 1;
  }

  lemma CofactorIsPrime(i: nat, d: nat)
    requires d >= 3 && i == d * (d + 2)
    requires forall e :: 2 <= e < d ==> !Divides(e, i)
    ensures IsPrime(d + 2)
  {
    var q := d + 2;
    MultipleDivides(q, d);
    forall e | 2 <= e < q ensures !Divides(e, q) {
      if Divides(e, q) {
        DividesThrough(e, q, i);
        var f := Cofactor(e, q);
        MultipleDivides(f, e);
        DividesThrough(f, q, i);
        ProductOrder(d, d, e, f);
        ProductOrder(3, d, d, d);
      }
    }
  }

  /** One of two successive numbers is even. */
  lemma SuccessiveFactors(i: nat, d: nat)
    requires d >= 1 && i == d * (d + 1)
    ensures Divides(2, i)
  {
    if d % 2 == 0 {
      MultipleDivides(d, d + 1);
      DividesThrough(2, d, i);
    } else {
      MultipleDivides(d + 1, d);
      DividesThrough(2, d + 1, i);
    }
  }

  lemma CompositeIsCounted(i: nat, d: nat, q: nat)
    requires IsPrime(d) && i == d * q && d <= q <= d + 2
    requires forall e :: 2 <= e < d ==> !Divides(e, i)
    ensures IsCounted(i)
  {
    if q == d {
      assert IsPrimeSquare(i);
    } else if d == 2 {
      assert i == 6 || i == 8;
    } else if q == d + 1 {
      SuccessiveFactors(i, d);
      assert false;
    } else {
      CofactorIsPrime(i, d);
      assert IsTwinProduct(i);
    }
  }

  lemma PassesIsCounted(i: nat)
    requires i >= 3 && PassesTrial(i)
    ensures IsCounted(i)
  {
    if !IsPrime(i) {
      var d, q := CompositeShape(i);
      CompositeIsCounted(i, d, q);
    }
  }

  /** The trial division lets through exactly the primes, their squares, twin products, 6 and 8. */
  lemma PassesIffCounted(i: nat)
    requires i >= 3
    ensures PassesTrial(i) <==> IsCounted(i)
  {
    if PassesTrial(i) {
      PassesIsCounted(i);
    } else if IsCounted(i) {
      CountedPasses(i);
    }
  }

  // ---------- The loop ----------

  ghost function CountedBelow(maximum: nat): set<nat> {
    set i: nat | 3 <= i < maximum && IsCounted(i)
  }

  lemma CountedNext(i: nat)
    requires i >= 3
    ensures |CountedBelow(i + 1)| == |CountedBelow(i)| + if PassesTrial(i) then 1 else 0
  {
    PassesIffCounted(i);
    assert CountedBelow(i + 1) == CountedBelow(i) + if IsCounted(i) then {i} else {};
    assert i !in CountedBelow(i);
  }

  method Crunch(maximum: nat) returns (count: nat)
    ensures count == |set i: nat | 3 <= i < maximum && IsCounted(i)|
  {
    count := 0;
    var i := 3;
    assert CountedBelow(3) == {};
    assert maximum <= 3 ==> CountedBelow(maximum) == {};
    while i < maximum
      invariant 3 <= i && (i == 3 || i <= maximum)
      invariant count == |CountedBelow(i)|
    {
      var root := Root(i);
      var isPrime := true;
      var n := 2;
      while n < root
        invariant 2 <= n
        invariant isPrime ==> forall m :: 2 <= m < n ==> !Divides(m, i)
        invariant !isPrime ==> !PassesTrial(i)
      {
        if i % n == 0 {
          assert Divides(n, i);
          isPrime := false;
          break;
        }
        n := n + 1;
      }
      CountedNext(i);
      if isPrime {
        count := count + 1;
      }
      i := i + 1;
    }
  }
}
