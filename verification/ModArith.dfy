/** Arithmetic modulo a prime, as far as the threshold signature scheme needs it:
    congruence, and inverses by the extended Euclidean algorithm. */
module ModArith {

  ghost predicate IsPrime(q: int) {
    q > 1 && forall d :: 1 < d < q ==> q % d != 0
  }

  /** The canonical residue of `a` modulo `q`. */
  function Mod(q: int, a: int): (r: int)
    requires q > 0
    ensures 0 <= r < q
  {
    a % q
  }

  /** `a` and `b` denote the same residue modulo `q`. */
  ghost predicate Cong(q: int, a: int, b: int)
    requires q > 0
  {
    Mod(q, a) == Mod(q, b)
  }

  // ---------------------------------------------------------------------
  // Congruence is compatible with the ring operations
  // ---------------------------------------------------------------------

  lemma ModUnique(q: int, a: int, k: int, r: int)
    requires q > 0 && a == k * q + r && 0 <= r < q
    ensures Mod(q, a) == r
  {
    var k' := a / q;
    var r' := a % q;
    assert a == k' * q + r';
    assert (k - k') * q == r' - r;
    if k > k' {
      assert (k - k') * q >= q by { MulGe(k - k', q); }
    } else if k < k' {
      assert (k - k') * q == -((k' - k) * q);
      assert (k' - k) * q >= q by { MulGe(k' - k, q); }
    }
  }

  /** Adding a multiple of the modulus does not change the residue. */
  lemma ModShift(q: int, a: int, k: int)
    requires q > 0
    ensures Mod(q, a + k * q) == Mod(q, a)
  {
    var d, r := a / q, a % q;
    assert a + k * q == (d + k) * q + r;
    ModUnique(q, a + k * q, d + k, r);
  }

  lemma MulGe(k: int, q: int)
    requires k >= 1 && q > 0
    ensures k * q >= q
  {
    if k > 1 {
      MulGe(k - 1, q);
      assert k * q == (k - 1) * q + q;
    }
  }

  lemma CongByMultiple(q: int, a: int, b: int, k: int)
    requires q > 0 && a - b == k * q
    ensures Cong(q, a, b)
  {
    ModShift(q, b, k);
    assert a == b + k * q;
  }

  lemma CongMultiple(q: int, a: int, b: int) returns (k: int)
    requires q > 0 && Cong(q, a, b)
    ensures a - b == k * q
  {
    k := a / q - b / q;
    assert a == a / q * q + a % q;
    assert b == b / q * q + b % q;
  }

  lemma CongRefl(q: int, a: int)
    requires q > 0
    ensures Cong(q, a, a)
  {
  }

  lemma CongSym(q: int, a: int, b: int)
    requires q > 0 && Cong(q, a, b)
    ensures Cong(q, b, a)
  {
  }

  lemma CongTrans(q: int, a: int, b: int, c: int)
    requires q > 0 && Cong(q, a, b) && Cong(q, b, c)
    ensures Cong(q, a, c)
  {
  }

  lemma CongMod(q: int, a: int)
    requires q > 0
    ensures Cong(q, Mod(q, a), a)
  {
    CongByMultiple(q, a % q, a, -(a / q));
  }

  lemma CongAdd(q: int, a: int, b: int, c: int, d: int)
    requires q > 0 && Cong(q, a, b) && Cong(q, c, d)
    ensures Cong(q, a + c, b + d)
  {
    var k := CongMultiple(q, a, b);
    var l := CongMultiple(q, c, d);
    assert (a + c) - (b + d) == (k + l) * q;
    CongByMultiple(q, a + c, b + d, k + l);
  }

  /** Multiply both sides by the same number. */
  lemma CongScale(q: int, a: int, c: int, d: int)
    requires q > 0 && Cong(q, c, d)
    ensures Cong(q, a * c, a * d)
  {
    CongMul(q, a, a, c, d);
  }

  lemma CongSub(q: int, a: int, b: int, c: int, d: int)
    requires q > 0 && Cong(q, a, b) && Cong(q, c, d)
    ensures Cong(q, a - c, b - d)
  {
    CongNeg(q, c, d);
    CongAdd(q, a, b, -c, -d);
  }

  lemma CongNeg(q: int, a: int, b: int)
    requires q > 0 && Cong(q, a, b)
    ensures Cong(q, -a, -b)
  {
    var k := CongMultiple(q, a, b);
    assert -a - -b == (-k) * q;
    CongByMultiple(q, -a, -b, -k);
  }

  lemma CongMul(q: int, a: int, b: int, c: int, d: int)
    requires q > 0 && Cong(q, a, b) && Cong(q, c, d)
    ensures Cong(q, a * c, b * d)
  {
    var k := CongMultiple(q, a, b);
    var l := CongMultiple(q, c, d);
    MulStep(q, a, b, c, d, k, l);
    CongByMultiple(q, a * c, b * d, k * c + b * l);
  }

  lemma MulStep(q: int, a: int, b: int, c: int, d: int, k: int, l: int)
    requires a - b == k * q && c - d == l * q
    ensures a * c - b * d == (k * c + b * l) * q
  {
    calc {
      a * c - b * d;
      (a - b) * c + b * (c - d);
      (k * q) * c + b * (l * q);
      { assert (k * q) * c == (k * c) * q; assert b * (l * q) == (b * l) * q; }
      (k * c) * q + (b * l) * q;
      (k * c + b * l) * q;
    }
  }

  /** Two congruent residues in canonical form are equal. */
  lemma CongCanonical(q: int, a: int, b: int)
    requires q > 0 && 0 <= a < q && 0 <= b < q && Cong(q, a, b)
    ensures a == b
  {
    ModUnique(q, a, 0, a);
    ModUnique(q, b, 0, b);
  }

  // ---------------------------------------------------------------------
  // Quotients
  // ---------------------------------------------------------------------

  lemma QuotientUnique(a: int, w: int, d: int, r: int)
    requires a == w * d + r && 0 <= r < w
    ensures a / w == d
  {
    var e, t := a / w, a % w;
    assert w * e + t == w * d + r;
    NextMultiple(w, d, e);
    NextMultiple(w, e, d);
  }

  lemma NextMultiple(w: int, x: int, y: int)
    requires w > 0
    ensures x < y ==> w * x + w <= w * y
  {
    if x < y {
      MulGe(y - x, w);
      assert (y - x) * w == w * y - w * x;
    }
  }

  /** Dividing by a product is dividing twice. */
  lemma DivTwice(a: int, c: int, p: int)
    requires c > 0 && p > 0
    ensures c * p > 0 && a / (c * p) == a / c / p
  {
    var m := a / c;
    var d, r := m / p, m % p;
    var t := a % c;
    assert a == c * m + t && m == p * d + r;
    assert c * (p * d + r) == (c * p) * d + c * r;
    MulGe(p - r, c);
    assert (p - r) * c == c * p - c * r;
    NonPositiveProduct(-r, c);
    QuotientUnique(a, c * p, d, c * r + t);
  }

  // ---------------------------------------------------------------------
  // Inverses
  // ---------------------------------------------------------------------

  /** Bezout coefficients: `a * x + b * y` divides both `a` and `b`. */
  function Bezout(a: nat, b: nat): (r: (int, int))
    decreases b
  {
    if b == 0 then (1, 0)
    else
      var (x, y) := Bezout(b, a % b);
      (y, x - a / b * y)
  }

  ghost predicate Divides(d: int, a: int) {
    exists k: int {:trigger k * d} :: a == k * d
  }

  lemma {:induction false} BezoutDivides(a: nat, b: nat)
    requires a > 0 || b > 0
    ensures var (x, y) := Bezout(a, b); a * x + b * y > 0 && Divides(a * x + b * y, a) && Divides(a * x + b * y, b)
    decreases b
  {
    if b == 0 {
      assert a == 1 * a && 0 == 0 * a;
    } else {
      hide Divides;
      BezoutDivides(b, a % b);
      var (x, y) := Bezout(b, a % b);
      BezoutStep(a, b, a / b, a % b, x, y);
    }
  }

  lemma DividesSum(g: int, a: int, b: int, m: int, r: int)
    requires a == m * b + r && Divides(g, b) && Divides(g, r)
    ensures Divides(g, a)
  {
    var kb :| b == kb * g;
    var kr :| r == kr * g;
    calc {
      a;
      m * (kb * g) + kr * g;
      { assert m * (kb * g) == (m * kb) * g; }
      (m * kb) * g + kr * g;
      (m * kb + kr) * g;
    }
  }

  lemma BezoutStep(a: int, b: int, m: int, r: int, x: int, y: int)
    requires a == m * b + r
    requires Divides(b * x + r * y, b) && Divides(b * x + r * y, r)
    ensures a * y + b * (x - m * y) == b * x + r * y
    ensures Divides(b * x + r * y, a)
  {
    calc {
      a * y + b * (x - m * y);
      (m * b + r) * y + b * (x - m * y);
      { assert (m * b + r) * y == (m * b) * y + r * y; assert b * (x - m * y) == b * x - b * (m * y); }
      (m * b) * y + r * y + b * x - b * (m * y);
      { assert (m * b) * y == b * (m * y); }
      b * x + r * y;
    }
    DividesSum(b * x + r * y, a, b, m, r);
  }

  /** The inverse of a non-zero residue; any value for zero. */
  function Inv(q: int, a: int): (r: int)
    requires q > 1
    ensures 0 <= r < q
  {
    Mod(q, Bezout(Mod(q, a), q).0)
  }

  lemma InvCorrect(q: int, a: int)
    requires IsPrime(q) && Mod(q, a) != 0
    ensures Cong(q, a * Inv(q, a), 1)
  {
    var b := Mod(q, a);
    var (x, y) := Bezout(b, q);
    BezoutDivides(b, q);
    var g := b * x + q * y;
    PrimeDivisor(q, b, g);
    assert b * x - 1 == (-y) * q;
    CongByMultiple(q, b * x, 1, -y);
    CongMod(q, a);
    CongMod(q, x);
    CongMul(q, a, b, Inv(q, a), x);
  }

  /** A factor that is not zero can be cancelled. */
  lemma CancelNonZero(q: int, a: int, x: int, y: int)
    requires IsPrime(q) && Mod(q, a) != 0 && Cong(q, a * x, a * y)
    ensures Cong(q, x, y)
  {
    hide IsPrime;
    InvCorrect(q, a);
    var inv := Inv(q, a);
    CongScale(q, inv, a * x, a * y);
    CongMul(q, a * inv, 1, x, x);
    CongMul(q, a * inv, 1, y, y);
    assert inv * (a * x) == a * inv * x && inv * (a * y) == a * inv * y;
  }

  lemma PrimeDivisor(q: int, b: int, g: int)
    requires IsPrime(q) && 0 < b < q && g > 0 && Divides(g, b) && Divides(g, q)
    ensures g == 1
  {
    var kb :| b == kb * g;
    var kq :| q == kq * g;
    if kb <= 0 {
      NonPositiveProduct(kb, g);
      assert false;
    }
    MulGe(kb, g);
    assert q % g == 0 by {
      ModUnique(g, q, kq, 0);
    }
  }

  lemma NonPositiveProduct(k: int, g: int)
    requires k <= 0 && g > 0
    ensures k * g <= 0
  {
    if k < 0 { MulGe(-k, g); assert (-k) * g == -(k * g); }
  }

  // ---------------------------------------------------------------------
  // Primes without bound
  // ---------------------------------------------------------------------

  function Factorial(n: nat): (r: nat)
    ensures r > 0
  {
    if n == 0 then 1 else n * Factorial(n - 1)
  }

  lemma {:induction false} FactorialDivides(n: nat, d: int)
    requires 1 <= d <= n
    ensures Divides(d, Factorial(n))
  {
    if d == n {
      assert Factorial(n) == Factorial(n - 1) * d;
    } else {
      FactorialDivides(n - 1, d);
      var k :| Factorial(n - 1) == k * d;
      assert Factorial(n) == n * (k * d) == (n * k) * d;
    }
  }

  lemma DividesMod(d: int, m: int)
    requires d > 0
    ensures Divides(d, m) <==> m % d == 0
  {
    if Divides(d, m) {
      var k :| m == k * d;
      ModUnique(d, m, k, 0);
    }
    if m % d == 0 {
      assert m == (m / d) * d;
    }
  }

  lemma DividesThrough(e: int, p: int, m: int)
    requires Divides(e, p) && Divides(p, m)
    ensures Divides(e, m)
  {
    var k :| p == k * e;
    var l :| m == l * p;
    assert m == l * (k * e) == (l * k) * e;
  }

  /** The least divisor above one is prime. */
  lemma LeastDivisor(m: int) returns (p: int)
    requires m > 1
    ensures IsPrime(p) && Divides(p, m)
  {
    hide Divides;
    p := 2;
    assert m % m == 0;
    while m % p != 0
      invariant 2 <= p <= m && forall d :: 1 < d < p ==> m % d != 0
      decreases m - p
    {
      p := p + 1;
    }
    DividesMod(p, m);
    forall d | 1 < d < p ensures p % d != 0 {
      NoDivisor(d, p, m);
    }
  }

  lemma NoDivisor(d: int, p: int, m: int)
    requires d > 0 && Divides(p, m) && m % d != 0
    ensures p % d != 0
  {
    hide Divides;
    DividesMod(d, p);
    DividesMod(d, m);
    if p % d == 0 {
      DividesThrough(d, p, m);
    }
  }

  lemma PrimeAbove(n: nat) returns (p: int)
    ensures IsPrime(p) && p > n
  {
    p := LeastDivisor(Factorial(n) + 1);
    if p <= n {
      FactorialDivides(n, p);
      var k :| Factorial(n) == k * p;
      var l :| Factorial(n) + 1 == l * p;
      assert (l - k) * p == 1;
      ModUnique(p, 1, l - k, 0);
      ModUnique(p, 1, 0, 1);
    }
  }
}
