/** Go's int64: 64-bit two's complement, wrapping on overflow, division truncating toward zero. */
module Int64 {

  const MIN: int := -0x8000_0000_0000_0000
  const MAX: int := 0x7FFF_FFFF_FFFF_FFFF
  const MODULUS: int := 0x1_0000_0000_0000_0000

  type int64 = n: int | MIN <= n <= MAX witness 0

  predicate Fits(n: int) {
    MIN <= n <= MAX
  }

  /** The int64 that equals n modulo 2^64. */
  function Wrap(n: int): (r: int64)
    ensures Fits(n) ==> r == n
    ensures exists k: int :: r == n - k * MODULUS
  {
    var k := (n - MIN) / MODULUS;
    assert (n - MIN) % MODULUS + MIN == n - k * MODULUS;
    (n - MIN) % MODULUS + MIN
  }

  /** Go's -n: MIN is its own negation. */
  function Neg(n: int64): (r: int64)
    ensures r == if n == MIN then MIN else 0 - n
  {
    Wrap(0 - n)
  }

  function Magnitude(n: int): nat {
    if n < 0 then -n else n
  }

  /** Mathematical division truncating toward zero. */
  function Quotient(a: int, b: int): (q: int)
    requires b != 0
  {
    var m := Magnitude(a) / Magnitude(b);
    if (a < 0) == (b < 0) then m else -m
  }

  /** The remainder of truncating division: it has the sign of the dividend. */
  function Remainder(a: int, b: int): (r: int)
    requires b != 0
  {
    var m := Magnitude(a) % Magnitude(b);
    if a < 0 then -m else m
  }

  /** Truncating division undone: the parts rebuild the dividend, neither exceeds it, both keep its sign. */
  lemma {:induction false} QuotientRemainder(a: int, b: int)
    requires b > 0
    ensures a == Quotient(a, b) * b + Remainder(a, b)
    ensures Magnitude(Remainder(a, b)) < b
    ensures a >= 0 ==> Quotient(a, b) >= 0 && Remainder(a, b) >= 0 && 0 <= Quotient(a, b) * b <= a
    ensures a <= 0 ==> Quotient(a, b) <= 0 && Remainder(a, b) <= 0 && a <= Quotient(a, b) * b <= 0
  {
    var q, r := Euclid(Magnitude(a), b);
    ProductNeg(q, b);
    NatProductAtLeast(q, b);
  }

  lemma NatProductAtLeast(a: nat, b: nat)
    ensures 0 <= a * b
  {
  }

  /** Go's a / b on int64: MIN / -1 wraps to MIN. */
  function Div(a: int64, b: int64): (q: int64)
    requires b != 0
  {
    Wrap(Quotient(a, b))
  }

  /** Go's a % b on int64. */
  function Mod(a: int64, b: int64): (r: int64)
    requires b > 0
    ensures r == Remainder(a, b)
  {
    QuotientRemainder(a, b);
    Remainder(a, b)
  }

  /** checkedAdd: the wrapped sum, and whether it is the true one. */
  function CheckedAdd(a: int64, b: int64): (r: (int64, bool))
    ensures r.1 <==> Fits(a + b)
    ensures r.1 ==> r.0 == a + b
  {
    var sum := Wrap(a + b);
    (sum, (b >= 0) == (sum >= a))
  }

  /** checkedMul: the wrapped product, and whether it is the true one. */
  function CheckedMul(a: int64, b: int64): (r: (int64, bool))
    ensures r.1 <==> Fits(a * b)
    ensures r.1 ==> r.0 == a * b
  {
    if a == 0 || b == 0 then (0, true)
    else
      var product := Wrap(a * b);
      DivisionTest(a, b);
      (product, Div(product, b) == a && !(a == -1 && b == MIN) && !(b == -1 && a == MIN))
  }

  /** Dividing the wrapped product back gives the first factor exactly when nothing wrapped,
      except for the two products by -1 that the code rules out by name. */
  lemma {:induction false} DivisionTest(a: int64, b: int64)
    requires a != 0 && b != 0
    ensures Fits(a * b) <==>
            Div(Wrap(a * b), b) == a && !(a == -1 && b == MIN) && !(b == -1 && a == MIN)
  {
    var product := Wrap(a * b);
    ExactQuotient(a, b);
    NearMultiple(product, b);
    if !(product == MIN && b == -1) {
      SmallQuotient(product, b);
      var k :| product == a * b - k * MODULUS;
      if Quotient(product, b) == a {
        assert Magnitude(k * MODULUS) < Magnitude(b);
      }
    }
  }

  // ---- products and quotients

  lemma ProductAssoc(a: int, b: int, c: int)
    ensures a * (b * c) == (a * b) * c
  {
  }

  lemma ProductSum(a: int, b: int, c: int)
    ensures (a + b) * c == a * c + b * c
  {
  }

  lemma ProductNeg(a: int, b: int)
    ensures (-a) * b == -(a * b) && a * (-b) == -(a * b)
  {
  }

  /** Quotient and remainder of a natural number, as numbers of their own. */
  lemma Euclid(x: nat, y: nat) returns (q: nat, r: nat)
    requires y > 0
    ensures q == x / y && r == x % y && x == q * y + r && r < y
  {
    q, r := x / y, x % y;
  }

  lemma MulBounds(d: int, y: int)
    requires y > 0
    ensures d >= 1 ==> d * y >= y
    ensures d <= -1 ==> d * y <= -y
  {
  }

  lemma MulMagnitude(a: int, b: int)
    ensures Magnitude(a * b) == Magnitude(a) * Magnitude(b)
    ensures a != 0 && b != 0 ==> a * b != 0 && ((a * b < 0) <==> (a < 0) != (b < 0))
  {
    ProductNeg(a, b);
    ProductNeg(Magnitude(a), b);
    if a != 0 && b != 0 { MulBounds(Magnitude(a), Magnitude(b)); }
  }

  lemma {:induction false} ExactQuotient(a: int, b: int)
    requires b != 0
    ensures Quotient(a * b, b) == a
  {
    MulMagnitude(a, b);
    DivideProduct(Magnitude(a), Magnitude(b));
  }

  lemma DivideProduct(x: nat, y: nat)
    requires y > 0
    ensures (x * y) / y == x
  {
    NatProductAtLeast(x, y);
    RemainderUnique(x * y, y, x, 0);
  }

  lemma HalfQuotient(x: nat, y: nat)
    requires y > 0
    ensures x / y <= x
    ensures y > 1 ==> 2 * (x / y) <= x
  {
    var q, r := Euclid(x, y);
    ProductSum(1, y - 1, q);
    if q >= 1 && y > 1 { MulBounds(y - 1, q); }
    if y == 1 { assert q * 1 == q; }
  }

  lemma SmallQuotient(p: int64, b: int64)
    requires b != 0 && !(p == MIN && b == -1)
    ensures Fits(Quotient(p, b))
  {
    HalfQuotient(Magnitude(p), Magnitude(b));
    if Magnitude(b) == 1 {
      assert Magnitude(p) / 1 == Magnitude(p);
    }
  }

  /** A dividend lies within one divisor of its truncated multiple. */
  lemma NearMultiple(p: int, b: int)
    requires b != 0
    ensures Magnitude(p - Quotient(p, b) * b) < Magnitude(b)
  {
    var q, r := Euclid(Magnitude(p), Magnitude(b));
    ProductNeg(q, b);
  }

  lemma RemainderUnique(a: nat, b: nat, q: int, r: nat)
    requires a == q * b + r && r < b
    ensures a % b == r && a / b == q
  {
    var p, t := Euclid(a, b);
    ProductSum(q - p, p, b);
    MulBounds(q - p, b);
  }

  /** The remainder by a unit is the remainder by it of the remainder by a multiple of the unit. */
  lemma RemainderTwice(a: int, b: nat, k: nat)
    requires b > 0 && k > 0
    ensures k * b > 0 && Remainder(Remainder(a, k * b), b) == Remainder(a, b)
  {
    MulBounds(k, b);
    var m := Magnitude(a);
    var u, r := Euclid(m, k * b);
    var v, t := Euclid(r, b);
    ProductAssoc(u, k, b);
    ProductSum(u * k, v, b);
    RemainderUnique(m, b, u * k + v, t);
  }
}
