/** Arithmetic modulo the prime group order, which the Identity Mixer protocol uses for its exponents. */
module Field {

  ghost predicate IsPrime(q: nat) {
    q > 1 && forall d: nat {:trigger q % d} :: 1 < d < q ==> q % d != 0
  }

  /** Reduction modulo q. */
  function Mod(x: int, q: nat): (r: nat)
    requires q > 0
    ensures r < q
  {
    x % q
  }

  /** a and b are the same element of Z_q. */
  predicate Same(q: nat, a: int, b: int)
    requires q > 0
  {
    Mod(a, q) == Mod(b, q)
  }

  lemma ModUnique(q: nat, x: int, k: int, r: int)
    requires 0 <= r < q && x == k * q + r
    ensures x % q == r
  {
    var k', r' := x / q, x % q;
    assert (k - k') * q == r' - r;
    NonzeroMultiple(q, k - k');
  }

  lemma NonzeroMultiple(q: nat, m: int)
    ensures m >= 1 ==> m * q >= q
    ensures m <= -1 ==> m * q <= -(q as int)
  {
    if m >= 1 {
      assert m * q == q + (m - 1) * q;
    } else if m <= -1 {
      assert m * q == -(q as int) + (m + 1) * q;
    }
  }

  /** Adding a multiple of q does not change the element. */
  lemma AddMultiple(q: nat, x: int, y: int, k: int)
    requires q > 0 && x == y + k * q
    ensures Same(q, x, y)
  {
    var d, r := y / q, y % q;
    assert x == (d + k) * q + r;
    ModUnique(q, x, d + k, r);
  }

  /** The multiple of q by which two representatives of one element differ. */
  lemma Multiple(q: nat, x: int, y: int) returns (k: int)
    requires q > 0 && Same(q, x, y)
    ensures x == y + k * q
  {
    k := x / q - y / q;
    assert x == (x / q) * q + x % q;
    assert y == (y / q) * q + y % q;
  }

  lemma Canonical(q: nat, x: int)
    requires 0 <= x < q
    ensures Mod(x, q) == x
  {
  }

  lemma Reduced(q: nat, x: int)
    requires q > 0
    ensures Same(q, Mod(x, q), x)
  {
    AddMultiple(q, Mod(x, q), x, -(x / q));
  }

  lemma SumSame(q: nat, a: int, a': int, b: int, b': int)
    requires q > 0 && Same(q, a, a') && Same(q, b, b')
    ensures Same(q, a + b, a' + b') && Same(q, a - b, a' - b')
  {
    var k := Multiple(q, a, a');
    var l := Multiple(q, b, b');
    assert a + b == (a' + b') + (k + l) * q;
    assert a - b == (a' - b') + (k - l) * q;
    AddMultiple(q, a + b, a' + b', k + l);
    AddMultiple(q, a - b, a' - b', k - l);
  }

  lemma ProductSame(q: nat, a: int, a': int, b: int, b': int)
    requires q > 0 && Same(q, a, a') && Same(q, b, b')
    ensures Same(q, a * b, a' * b')
  {
    var k := Multiple(q, a, a');
    var l := Multiple(q, b, b');
    ProductOfShifted(a', k, b', l, q);
    AddMultiple(q, a * b, a' * b', a' * l + k * b' + k * (l * q));
  }

  lemma ProductOfShifted(a: int, k: int, b: int, l: int, q: int)
    ensures (a + k * q) * (b + l * q) == a * b + (a * l + k * b + k * (l * q)) * q
  {
    var t := l * q;
    assert (a + k * q) * (b + t) == a * b + a * t + (k * q) * b + (k * q) * t;
    assert (k * q) * t == (k * t) * q;
  }

  /** Extended Euclid, with the cofactors that witness that the result divides both inputs. */
  datatype Gcd = Gcd(g: nat, x: int, y: int, cofactorA: nat, cofactorB: nat)

  function Euclid(a: nat, b: nat): (r: Gcd)
    requires a > 0
    ensures r.g > 0
    ensures a * r.x + b * r.y == r.g
    ensures a == r.g * r.cofactorA && b == r.g * r.cofactorB
    decreases b
  {
    if b == 0 then
      Gcd(a, 1, 0, 1, 0)
    else
      var d := a / b;
      var s := Euclid(b, a % b);
      DivisionLaw(a, b);
      EuclidStep(a, b, d, a % b, s);
      Gcd(s.g, s.y, s.x - d * s.y, d * s.cofactorA + s.cofactorB, s.cofactorA)
  }

  lemma DivisionLaw(a: nat, b: nat)
    requires b > 0
    ensures a == b * (a / b) + a % b && a % b < b
  {
  }

  lemma EuclidStep(a: nat, b: nat, d: nat, m: nat, s: Gcd)
    requires a == b * d + m
    requires b * s.x + m * s.y == s.g
    requires b == s.g * s.cofactorA && m == s.g * s.cofactorB
    ensures a * s.y + b * (s.x - d * s.y) == s.g
    ensures a == s.g * (d * s.cofactorA + s.cofactorB)
  {
    calc {
      a * s.y + b * (s.x - d * s.y);
      (b * d + m) * s.y + b * s.x - b * d * s.y;
      m * s.y + b * s.x;
    }
  }

  /** The inverse modulo q: what `Invmodp` leaves in its receiver for a nonzero element. */
  function Inverse(q: nat, a: int): (r: nat)
    requires q > 1 && !Same(q, a, 0)
    ensures r < q
  {
    Mod(Euclid(Mod(a, q), q).x, q)
  }

  lemma InverseInverts(q: nat, a: int)
    requires IsPrime(q) && !Same(q, a, 0)
    ensures Same(q, a * Inverse(q, a), 1)
  {
    Canonical(q, 0);
    var e := Euclid(Mod(a, q), q);
    PrimeGcd(q, Mod(a, q));
    Reduced(q, a);
    Reduced(q, e.x);
    assert Mod(a, q) * e.x == 1 + (-e.y) * q;
    AddMultiple(q, Mod(a, q) * e.x, 1, -e.y);
    ProductSame(q, a, Mod(a, q), Inverse(q, a), e.x);
  }

  lemma PrimeGcd(q: nat, a: nat)
    requires IsPrime(q) && 0 < a < q
    ensures Euclid(a, q).g == 1
  {
    var e := Euclid(a, q);
    if e.g != 1 {
      assert e.cofactorA >= 1;
      assert e.g <= e.g * e.cofactorA;
      ModUnique(e.g, q, e.cofactorB, 0);
      assert false;
    }
  }

  /** A nonzero factor can be cancelled. */
  lemma Cancel(q: nat, a: int, x: int, y: int)
    requires IsPrime(q) && !Same(q, a, 0)
    requires Same(q, a * x, a * y)
    ensures Same(q, x, y)
  {
    hide Mod;
    var i := Inverse(q, a);
    InverseInverts(q, a);
    ProductSame(q, i, i, a * x, a * y);
    assert i * (a * x) == (a * i) * x && i * (a * y) == (a * i) * y;
    ProductSame(q, a * i, 1, x, x);
    ProductSame(q, a * i, 1, y, y);
  }

  /** Inner product over the integers: what a multi-exponentiation computes before reduction. */
  ghost function Dot(xs: seq<int>, ys: seq<int>): int
    requires |xs| == |ys|
  {
    if |xs| == 0 then 0 else Dot(xs[..|xs| - 1], ys[..|xs| - 1]) + xs[|xs| - 1] * ys[|xs| - 1]
  }
}
