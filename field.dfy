/** The scalar field of BLS12-381: integers modulo the prime R.  Every
    polynomial and verifier formula of the model computes with these
    operations; the ring laws they obey are proved below once. */
module Field {

  /** The order of the BLS12-381 scalar field. */
  const R: int := 0x73eda753299d7d483339d80809a1d80553bda402fffe5bfeffffffff00000001

  /** A field element in canonical form. */
  type Scalar = x: int | 0 <= x < R

  function Add(a: Scalar, b: Scalar): Scalar { (a + b) % R }

  function Sub(a: Scalar, b: Scalar): Scalar { (a - b) % R }

  function Neg(a: Scalar): Scalar { (0 - a) % R }

  function Mul(a: Scalar, b: Scalar): Scalar { Product(a, b) % R }

  /** The integer product `a * b`, as `|b|`-fold addition (subtraction for
      negative `b`) of `a`.  Written as a recursion so that the solver
      unfolds a product one step at a time instead of reasoning about it as
      non-linear arithmetic; `ProductIsMul` proves it is the ordinary
      product. */
  function Product(a: int, b: int): int
    decreases if b < 0 then -b else b
  {
    if b == 0 then 0
    else if b > 0 then Product(a, b - 1) + a
    else Product(a, b + 1) - a
  }

  /** The square-and-multiply `pow` of the field, by its defining recursion. */
  function Pow(x: Scalar, n: nat): Scalar
  {
    if n == 0 then 1 else Mul(x, Pow(x, n - 1))
  }

  datatype Option<T> = None | Some(value: T)

  lemma {:induction false} ProductIsMul(a: int, b: int)
    ensures Product(a, b) == a * b
    decreases if b < 0 then -b else b
  {
    if b > 0 {
      ProductIsMul(a, b - 1);
      assert a * b == a * (b - 1) + a;
    } else if b < 0 {
      ProductIsMul(a, b + 1);
      assert a * b == a * (b + 1) - a;
    }
  }

  lemma {:induction false} ProductAssoc(a: int, b: int, c: int)
    ensures Product(Product(a, b), c) == Product(a, Product(b, c))
  {
    ProductIsMul(a, b);
    ProductIsMul(b, c);
    ProductIsMul(a * b, c);
    ProductIsMul(a, b * c);
    assert (a * b) * c == a * (b * c);
  }

  lemma {:induction false} ProductDistrib(a: int, b: int, c: int)
    ensures Product(a, b + c) == Product(a, b) + Product(a, c)
    ensures Product(a, b - c) == Product(a, b) - Product(a, c)
  {
    ProductIsMul(a, b);
    ProductIsMul(a, c);
    ProductIsMul(a, b + c);
    ProductIsMul(a, b - c);
    assert a * (b + c) == a * b + a * c && a * (b - c) == a * b - a * c;
  }

  // ---------------------------------------------------------------------
  // Reduction modulo R

  /** Division by R is unique: a decomposition `R * q + r` with `r` in
      range is the one `%` finds. */
  lemma ModUnique(x: int, q: int, r: int)
    requires x == R * q + r && 0 <= r < R
    ensures x % R == r
  {
    var q', r' := x / R, x % R;
    assert R * (q - q') == r' - r;
    if q - q' >= 1 {
      assert false;
    } else if q - q' <= -1 {
      assert false;
    }
  }

  /** A canonical element is its own residue. */
  lemma ModSmall(a: Scalar)
    ensures a % R == a
  {
    ModUnique(a, 0, a);
  }

  lemma ModShift(x: int, k: int)
    ensures (x + R * k) % R == x % R
  {
    var q, r := x / R, x % R;
    assert x + R * k == R * (q + k) + r;
    ModUnique(x + R * k, q + k, r);
  }

  lemma MulModLeft(x: int, y: int)
    ensures ((x % R) * y) % R == (x * y) % R
  {
    var q := x / R;
    var m := x % R;
    assert x == R * q + m;
    calc {
      x * y;
      (R * q + m) * y;
      R * q * y + m * y;
      m * y + R * (q * y);
    }
    ModShift(m * y, q * y);
  }

  lemma MulModRight(x: int, y: int)
    ensures (x * (y % R)) % R == (x * y) % R
  {
    MulModLeft(y, x);
    assert x * (y % R) == (y % R) * x && x * y == y * x;
  }

  /** Reducing both factors first gives the same product. */
  lemma MulOfMods(x: int, y: int)
    ensures ((x % R) * (y % R)) % R == (x * y) % R
  {
    MulModLeft(x, y % R);
    MulModRight(x, y);
  }

  /** Reducing both summands first gives the same sum. */
  lemma AddOfMods(x: int, y: int)
    ensures ((x % R) + (y % R)) % R == (x + y) % R
  {
    assert x == R * (x / R) + x % R && y == R * (y / R) + y % R;
    assert x % R + y % R + R * (x / R + y / R) == x + y;
    ModShift(x % R + y % R, x / R + y / R);
  }

  /** Reducing both operands first gives the same difference. */
  lemma SubOfMods(x: int, y: int)
    ensures ((x % R) - (y % R)) % R == (x - y) % R
  {
    assert x == R * (x / R) + x % R && y == R * (y / R) + y % R;
    assert x % R - y % R + R * (x / R - y / R) == x - y;
    ModShift(x % R - y % R, x / R - y / R);
  }

  /** The field operations on representatives: if `x` and `y` stand for
      the integers `xi` and `yi` modulo R, so do their sum, difference and
      product for `xi + yi`, `xi - yi` and `xi * yi`. */
  lemma AddRep(x: Scalar, y: Scalar, xi: int, yi: int)
    requires x == xi % R && y == yi % R
    ensures Add(x, y) == (xi + yi) % R
  {
    AddOfMods(xi, yi);
  }

  lemma SubRep(x: Scalar, y: Scalar, xi: int, yi: int)
    requires x == xi % R && y == yi % R
    ensures Sub(x, y) == (xi - yi) % R
  {
    SubOfMods(xi, yi);
  }

  lemma {:induction false} MulRep(x: Scalar, y: Scalar, xi: int, yi: int)
    requires x == xi % R && y == yi % R
    ensures Mul(x, y) == Product(xi, yi) % R
  {
    ProductIsMul(x, y);
    ProductIsMul(xi, yi);
    MulOfMods(xi, yi);
  }

  // ---------------------------------------------------------------------
  // Ring laws

  lemma MulOne(a: Scalar)
    ensures Mul(a, 1) == a && Mul(1, a) == a
  {
    ProductIsMul(a, 1);
    ProductIsMul(1, a);
    ModSmall(a);
  }

  lemma MulZero(a: Scalar)
    ensures Mul(a, 0) == 0 && Mul(0, a) == 0
  {
    ProductIsMul(0, a);
  }

  lemma AddZero(a: Scalar)
    ensures Add(a, 0) == a && Add(0, a) == a
  {
    ModSmall(a);
  }

  lemma SubZero(a: Scalar)
    ensures Sub(a, 0) == a
  {
    ModSmall(a);
  }

  lemma MulComm(a: Scalar, b: Scalar)
    ensures Mul(a, b) == Mul(b, a)
  {
    ProductIsMul(a, b);
    ProductIsMul(b, a);
    assert a * b == b * a;
  }

  lemma AddAssoc(a: Scalar, b: Scalar, c: Scalar)
    ensures Add(Add(a, b), c) == Add(a, Add(b, c))
  {
    ModSmall(a);
    ModSmall(c);
    AddRep(Add(a, b), c, a + b, c);
    AddRep(a, Add(b, c), a, b + c);
    assert (a + b) + c == a + (b + c);
  }

  lemma MulAssoc(a: Scalar, b: Scalar, c: Scalar)
    ensures Mul(Mul(a, b), c) == Mul(a, Mul(b, c))
  {
    ModSmall(a);
    ModSmall(c);
    MulRep(Mul(a, b), c, Product(a, b), c);
    MulRep(a, Mul(b, c), a, Product(b, c));
    ProductAssoc(a, b, c);
  }

  lemma MulDistrib(a: Scalar, b: Scalar, c: Scalar)
    ensures Mul(a, Add(b, c)) == Add(Mul(a, b), Mul(a, c))
  {
    ModSmall(a);
    MulRep(a, Add(b, c), a, b + c);
    AddRep(Mul(a, b), Mul(a, c), Product(a, b), Product(a, c));
    ProductDistrib(a, b, c);
  }

  lemma MulDistribSub(a: Scalar, b: Scalar, c: Scalar)
    ensures Mul(a, Sub(b, c)) == Sub(Mul(a, b), Mul(a, c))
  {
    ModSmall(a);
    MulRep(a, Sub(b, c), a, b - c);
    SubRep(Mul(a, b), Mul(a, c), Product(a, b), Product(a, c));
    ProductDistrib(a, b, c);
  }

  lemma MulNegRight(a: Scalar, b: Scalar)
    ensures Mul(a, Neg(b)) == Neg(Mul(a, b))
  {
    ModSmall(a);
    MulRep(a, Neg(b), a, 0 - b);
    SubRep(0, Mul(a, b), 0, Product(a, b));
    ProductDistrib(a, 0, b);
    ProductIsMul(a, 0);
  }

  lemma NegNeg(a: Scalar)
    ensures Neg(Neg(a)) == a
  {
    ModSmall(a);
    SubRep(0, Neg(a), 0, 0 - a);
    assert 0 - (0 - a) == a;
  }

  lemma SubIsAddNeg(a: Scalar, b: Scalar)
    ensures Sub(a, b) == Add(a, Neg(b))
  {
    ModSmall(a);
    AddRep(a, Neg(b), a, 0 - b);
  }

  lemma MulMinusOne(b: Scalar)
    ensures Mul(R - 1, b) == Neg(b)
  {
    ModSmall(b);
    ModShift(-1, 1);
    MulRep(R - 1, b, -1, b);
    ProductIsMul(-1, b);
  }

  lemma AddSubCancel(a: Scalar, b: Scalar)
    ensures Sub(Add(a, b), b) == a
  {
    ModSmall(a);
    ModSmall(b);
    SubRep(Add(a, b), b, a + b, b);
  }

  lemma AddSwap(p: Scalar, q: Scalar, r: Scalar, s: Scalar)
    ensures Add(Add(p, q), Add(r, s)) == Add(Add(p, r), Add(q, s))
  {
    AddRep(Add(p, q), Add(r, s), p + q, r + s);
    AddRep(Add(p, r), Add(q, s), p + r, q + s);
    assert (p + q) + (r + s) == (p + r) + (q + s);
  }

  lemma MulLeftComm(x: Scalar, f: Scalar, h: Scalar)
    ensures Mul(x, Mul(f, h)) == Mul(f, Mul(x, h))
  {
    ModSmall(x);
    ModSmall(f);
    MulRep(x, Mul(f, h), x, Product(f, h));
    MulRep(f, Mul(x, h), f, Product(x, h));
    ProductAssoc(x, f, h);
    ProductAssoc(f, x, h);
    ProductIsMul(x, f);
    ProductIsMul(f, x);
  }

  // ---------------------------------------------------------------------
  // Inversion

  /** Extended Euclid: `(g, x, y)` with `a*x + b*y == g`, where `g` divides
      both `a` and `b`. */
  function ExtGcd(a: nat, b: nat): (r: (nat, int, int))
    ensures a * r.1 + b * r.2 == r.0
    ensures b > 0 ==> r.0 > 0 && a % r.0 == 0 && b % r.0 == 0
    decreases a
  {
    if a == 0 then (b, 0, 1)
    else
      var rec := ExtGcd(b % a, a);
      var (g, x, y) := rec;
      ExtGcdStep(a, b, x, y);
      DividesSum(g, a, b / a, b % a);
      (g, y - (b / a) * x, x)
  }

  /** The Bezout coefficients of `(b % a, a)` give those of `(a, b)`. */
  lemma ExtGcdStep(a: nat, b: nat, x: int, y: int)
    requires a > 0
    ensures b == a * (b / a) + b % a
    ensures a * (y - (b / a) * x) + b * x == (b % a) * x + a * y
  {
    var q, r := b / a, b % a;
    assert b == a * q + r;
    assert a * (y - q * x) == a * y - (a * q) * x;
    assert b * x == (a * q) * x + r * x;
  }

  lemma DividesSum(g: int, a: int, k: int, m: int)
    requires g > 0 && a % g == 0 && m % g == 0
    ensures (a * k + m) % g == 0
  {
    var s, t := a / g, m / g;
    assert a == g * s;
    assert m == g * t;
    assert a * k + m == g * (s * k + t);
    MultipleMod(g, s * k + t);
  }

  lemma MultipleMod(g: int, w: int)
    requires g > 0
    ensures (g * w) % g == 0
  {
    var q, r := (g * w) / g, (g * w) % g;
    assert g * (w - q) == r;
    if w - q >= 1 {
      assert false;
    } else if w - q <= -1 {
      assert false;
    }
  }

  /** `invert` of the field: `None` exactly when no inverse exists. */
  function Invert(a: Scalar): (r: Option<Scalar>)
    ensures r.Some? ==> Mul(a, r.value) == 1
    ensures a == 0 ==> r.None?
  {
    var (g, x, y) := ExtGcd(a, R);
    if g == 1 then
      BezoutInverse(a, x, y);
      Some(x % R)
    else None
  }

  /** A Bezout identity `a x + R y == 1` makes `x` an inverse of `a`. */
  lemma BezoutInverse(a: Scalar, x: int, y: int)
    requires a * x + R * y == 1
    ensures Mul(a, x % R) == 1
  {
    ProductIsMul(a, x % R);
    MulModRight(a, x);
    ModShift(a * x, y);
  }

  /** Inversion fails only where no element is an inverse. */
  lemma InvertComplete(a: Scalar, b: Scalar)
    requires Mul(a, b) == 1
    ensures Invert(a).Some?
  {
    ProductIsMul(a, b);
    var (g, x, y) := ExtGcd(a, R);
    assert a * b == R * ((a * b) / R) + 1;
    DividesSum(g, a, b, 0);
    DividesSum(g, R, -((a * b) / R), 0);
    assert (a * b + R * (-((a * b) / R))) == 1;
    DividesSum(g, a * b, 1, R * (-((a * b) / R)));
  }
}
