/** The coefficient-form `Polynomial` of the FFT module: a vector of field
    coefficients updated in place.  Every method is proved against the
    value-level specifications of `PolynomialSpec`. */
module Polynomials {
  import opened Field
  import opened PolynomialSpec

  class Polynomial {
    /** The coefficient of `x^i` is `coeffs[i]`. */
    var coeffs: Coeffs

    /** `zero`: the empty coefficient vector. */
    constructor Zero()
      ensures coeffs == []
    {
      coeffs := [];
    }

    /** `from_coefficients_vec` / `from_coefficients_slice`: the input with
        its trailing zeros popped; the assertion that follows always holds. */
    constructor FromCoefficients(c: Coeffs)
      ensures coeffs == Trim(c)
      ensures Normalized(coeffs)
    {
      coeffs := c;
      new;
      TruncateLeadingZeros();
      assert Normalized(coeffs) by {
        TrimSpec(c);
      }
    }

    /** The derived `clone`. */
    constructor Clone(other: Polynomial)
      ensures coeffs == other.coeffs
    {
      coeffs := other.coeffs;
    }

    /** `truncate_leading_zeros`: pop while the last coefficient is zero. */
    method TruncateLeadingZeros()
      modifies this
      ensures coeffs == Trim(old(coeffs))
    {
      while coeffs != [] && coeffs[|coeffs| - 1] == 0
        invariant Trim(coeffs) == Trim(old(coeffs))
        decreases |coeffs|
      {
        coeffs := coeffs[..|coeffs| - 1];
      }
    }

    /** `evaluate`: zero for the zero polynomial, otherwise the running sum
        of `powers[i] * coeffs[i]`. */
    method Evaluate(point: Scalar) returns (s: Scalar)
      ensures s == EvalSum(coeffs, point)
    {
      if PolynomialSpec.IsZero(coeffs) {
        EvalZero(coeffs, point);
        return 0;
      }
      var c := coeffs;
      var powers := PowersOf(point, |c|);
      s := 0;
      var i := 0;
      while i < |c|
        invariant 0 <= i <= |c|
        invariant s == EvalSum(c[..i], point)
      {
        var term := Mul(powers[i], c[i]);
        EvalSumStep(c, i, point);
        s := Add(s, term);
        i := i + 1;
      }
      assert c[..i] == c;
    }

    /** `*a += b` over `zip(self.coeffs, other)`, where `other` is no longer. */
    method AddZipped(b: Coeffs)
      requires |b| <= |coeffs|
      modifies this
      ensures coeffs == AddPadded(old(coeffs), b)
    {
      ghost var a := coeffs;
      var i := 0;
      while i < |b|
        invariant 0 <= i <= |b| && |coeffs| == |a|
        invariant forall j | 0 <= j < i :: coeffs[j] == Add(a[j], b[j])
        invariant forall j | i <= j < |a| :: coeffs[j] == a[j]
      {
        coeffs := coeffs[i := Add(coeffs[i], b[i])];
        i := i + 1;
      }
    }

    /** `*a += &(f * b)` over `zip(self.coeffs, other)`. */
    method AddScaledZipped(f: Scalar, b: Coeffs)
      requires |b| <= |coeffs|
      modifies this
      ensures coeffs == AddScaledPadded(old(coeffs), f, b)
    {
      ghost var a := coeffs;
      var i := 0;
      while i < |b|
        invariant 0 <= i <= |b| && |coeffs| == |a|
        invariant forall j | 0 <= j < i :: coeffs[j] == Add(a[j], Mul(f, b[j]))
        invariant forall j | i <= j < |a| :: coeffs[j] == a[j]
      {
        coeffs := coeffs[i := Add(coeffs[i], Mul(f, b[i]))];
        i := i + 1;
      }
    }

    /** `*a -= b` over `zip(self.coeffs, other)`. */
    method SubZipped(b: Coeffs)
      requires |b| <= |coeffs|
      modifies this
      ensures coeffs == SubPadded(old(coeffs), b)
    {
      ghost var a := coeffs;
      var i := 0;
      while i < |b|
        invariant 0 <= i <= |b| && |coeffs| == |a|
        invariant forall j | 0 <= j < i :: coeffs[j] == Sub(a[j], b[j])
        invariant forall j | i <= j < |a| :: coeffs[j] == a[j]
      {
        coeffs := coeffs[i := Sub(coeffs[i], b[i])];
        i := i + 1;
      }
    }

    /** `*c *= &f` for every coefficient. */
    method ScaleInPlace(f: Scalar)
      modifies this
      ensures coeffs == Scale(old(coeffs), f)
    {
      ghost var a := coeffs;
      var i := 0;
      while i < |coeffs|
        invariant 0 <= i <= |coeffs| && |coeffs| == |a|
        invariant forall j | 0 <= j < i :: coeffs[j] == Mul(a[j], f)
        invariant forall j | i <= j < |a| :: coeffs[j] == a[j]
      {
        coeffs := coeffs[i := Mul(coeffs[i], f)];
        i := i + 1;
      }
    }

    /** `neg`: every coefficient negated in place, the length kept. */
    method Neg()
      modifies this
      ensures coeffs == Negated(old(coeffs))
    {
      ghost var a := coeffs;
      var i := 0;
      while i < |coeffs|
        invariant 0 <= i <= |coeffs| && |coeffs| == |a|
        invariant forall j | 0 <= j < i :: coeffs[j] == Field.Neg(a[j])
        invariant forall j | i <= j < |a| :: coeffs[j] == a[j]
      {
        coeffs := coeffs[i := Field.Neg(coeffs[i])];
        i := i + 1;
      }
    }

    /** `self += &other`. */
    method AddAssign(other: Polynomial)
      requires other != this
      requires DegreesDefined(coeffs, other.coeffs)
      modifies this
      ensures coeffs == AddAssignResult(old(coeffs), other.coeffs)
    {
      var b := other.coeffs;
      if PolynomialSpec.IsZero(coeffs) {
        coeffs := b;
      } else if PolynomialSpec.IsZero(b) {
      } else if Degree(coeffs) >= Degree(b) {
        AddZipped(b);
      } else {
        ghost var a := coeffs;
        coeffs := Resized(coeffs, |b|);
        AddZipped(b);
        assert coeffs == AddPadded(a, b);
        TruncateLeadingZeros();
      }
    }

    /** `self += (f, &other)`. */
    method AddAssignScaled(f: Scalar, other: Polynomial)
      requires other != this
      requires DegreesDefined(coeffs, other.coeffs)
      modifies this
      ensures coeffs == AddAssignScaledResult(old(coeffs), f, other.coeffs)
    {
      var b := other.coeffs;
      if PolynomialSpec.IsZero(coeffs) {
        coeffs := b;
        ScaleInPlace(f);
      } else if PolynomialSpec.IsZero(b) {
      } else if Degree(coeffs) >= Degree(b) {
        AddScaledZipped(f, b);
      } else {
        ghost var a := coeffs;
        coeffs := Resized(coeffs, |b|);
        AddScaledZipped(f, b);
        assert coeffs == AddScaledPadded(a, f, b);
        TruncateLeadingZeros();
      }
    }

    /** `self -= &other`. */
    method SubAssign(other: Polynomial)
      requires other != this
      requires DegreesDefined(coeffs, other.coeffs)
      modifies this
      ensures coeffs == SubAssignResult(old(coeffs), other.coeffs)
    {
      var b := other.coeffs;
      if PolynomialSpec.IsZero(coeffs) {
        SubFromZero(coeffs, b);
        coeffs := Resized(coeffs, |b|);
        SubZipped(b);
      } else if PolynomialSpec.IsZero(b) {
      } else if Degree(coeffs) >= Degree(b) {
        SubZipped(b);
      } else {
        ghost var a := coeffs;
        coeffs := Resized(coeffs, |b|);
        SubZipped(b);
        assert coeffs == SubPadded(a, b);
        TruncateLeadingZeros();
      }
    }

    /** `&self + &other`: every branch ends normalised, so the result is the
        normal form of the padded sum. */
    method Plus(other: Polynomial) returns (r: Polynomial)
      requires DegreesDefined(coeffs, other.coeffs)
      ensures fresh(r)
      ensures r.coeffs == Trim(AddPadded(coeffs, other.coeffs))
    {
      var a, b := coeffs, other.coeffs;
      if PolynomialSpec.IsZero(a) {
        r := new Polynomial.Clone(other);
        ZeroCoeff(a);
        TrimDeterminedByCoeffs(b, AddPadded(a, b));
      } else if PolynomialSpec.IsZero(b) {
        r := new Polynomial.Clone(this);
        ZeroCoeff(b);
        TrimDeterminedByCoeffs(a, AddPadded(a, b));
      } else if Degree(a) >= Degree(b) {
        r := new Polynomial.Clone(this);
        r.AddZipped(b);
      } else {
        r := new Polynomial.Clone(other);
        r.AddZipped(a);
        AddPaddedCommutes(b, a);
      }
      r.TruncateLeadingZeros();
    }

    /** `&self - &other`: every branch ends normalised, so the result is the
        normal form of the padded difference. */
    method Minus(other: Polynomial) returns (r: Polynomial)
      requires DegreesDefined(coeffs, other.coeffs)
      ensures fresh(r)
      ensures r.coeffs == Trim(SubPadded(coeffs, other.coeffs))
    {
      var a, b := coeffs, other.coeffs;
      if PolynomialSpec.IsZero(a) {
        r := new Polynomial.Clone(other);
        r.Neg();
        ZeroCoeff(a);
        SubFromZero(a, b);
        TrimDeterminedByCoeffs(SubPadded(Resized(a, |b|), b), SubPadded(a, b));
      } else if PolynomialSpec.IsZero(b) {
        r := new Polynomial.Clone(this);
        ZeroCoeff(b);
        TrimDeterminedByCoeffs(a, SubPadded(a, b));
      } else if Degree(a) >= Degree(b) {
        r := new Polynomial.Clone(this);
        r.SubZipped(b);
      } else {
        r := new Polynomial.Clone(this);
        r.coeffs := Resized(r.coeffs, |b|);
        r.SubZipped(b);
        assert r.coeffs == SubPadded(a, b);
      }
      r.TruncateLeadingZeros();
    }

    /** `&self * &constant`. */
    method MulScalar(constant: Scalar) returns (r: Polynomial)
      ensures fresh(r)
      ensures r.coeffs == MulConstant(coeffs, constant)
    {
      if PolynomialSpec.IsZero(coeffs) || constant == 0 {
        r := new Polynomial.Zero();
        return;
      }
      var scaled := Scale(coeffs, constant);
      r := new Polynomial.FromCoefficients(scaled);
    }

    /** `&self + &constant`. */
    method AddScalar(constant: Scalar) returns (r: Polynomial)
      ensures fresh(r)
      ensures r.coeffs == AddConstant(coeffs, constant)
    {
      if PolynomialSpec.IsZero(coeffs) {
        r := new Polynomial.FromCoefficients([constant]);
        return;
      }
      r := new Polynomial.Clone(this);
      if constant == 0 {
        return;
      }
      r.coeffs := r.coeffs[0 := Add(r.coeffs[0], constant)];
    }

    /** `&self - &constant`, delegating to the addition of `-constant`. */
    method SubScalar(constant: Scalar) returns (r: Polynomial)
      ensures fresh(r)
      ensures r.coeffs == SubConstant(coeffs, constant)
    {
      var negated := Field.Neg(constant);
      r := AddScalar(negated);
    }

    /** `ruffini(z)`: Horner's rule from the leading coefficient down,
        pushing each running value; the last one pushed (the remainder) is
        popped and the rest reversed. */
    method Ruffini(z: Scalar) returns (q: Polynomial)
      requires HasDegree(coeffs)
      ensures fresh(q)
      ensures q.coeffs == RuffiniQuotient(coeffs, z)
    {
      var p := coeffs;
      var capacity := Degree(p);
      var quotient: Coeffs := [];
      var k: Scalar := 0;
      var i := |p|;
      while i > 0
        invariant 0 <= i <= |p|
        invariant quotient == Reversed(RuffiniTable(p[i..], z))
        invariant k == Mul(z, Coeff(RuffiniTable(p[i..], z), 0))
      {
        i := i - 1;
        assert p[i..][1..] == p[i + 1..];
        var t := Add(p[i], k);
        quotient := quotient + [t];
        k := Mul(z, t);
      }
      assert p[0..] == p;
      ghost var table := RuffiniTable(p, z);
      if |quotient| > 0 {
        quotient := quotient[..|quotient| - 1];
      }
      quotient := Reversed(quotient);
      assert quotient == if p == [] then [] else table[1..];
      q := new Polynomial.FromCoefficients(quotient);
    }
  }

  /** `util::powers_of(x, n)`: `[1, x, ..., x^(n-1)]`. */
  function PowersOf(x: Scalar, n: nat): (r: seq<Scalar>)
    ensures |r| == n && forall i | 0 <= i < n :: r[i] == Pow(x, i)
  {
    seq<Scalar>(n, i requires 0 <= i < n => Pow(x, i))
  }

  /** The running-product form of `powers_of`: the vector starts at one and
      each entry is the previous one times `x`. */
  lemma PowersOfRecurrence(x: Scalar, n: nat)
    ensures n > 0 ==> PowersOf(x, n)[0] == 1
    ensures forall i | 0 <= i < n - 1 :: PowersOf(x, n)[i + 1] == Mul(PowersOf(x, n)[i], x)
  {
    forall i | 0 <= i < n - 1
      ensures PowersOf(x, n)[i + 1] == Mul(PowersOf(x, n)[i], x)
    {
      MulComm(x, Pow(x, i));
    }
  }

  /** The coefficient vectors of a sequence of polynomials. */
  function CoeffsOf(items: seq<Polynomial>): (cs: seq<Coeffs>)
    reads set p | p in items
    ensures |cs| == |items| && forall k | 0 <= k < |items| :: cs[k] == items[k].coeffs
    decreases |items|
  {
    if items == [] then [] else CoeffsOf(items[..|items| - 1]) + [items[|items| - 1].coeffs]
  }

  /** `Sum`: fold `&res + &val` over the items, starting from `zero()`. */
  method Sum(items: seq<Polynomial>) returns (r: Polynomial)
    requires SumDefined(CoeffsOf(items))
    ensures fresh(r)
    ensures r.coeffs == SumOf(CoeffsOf(items))
  {
    ghost var cs := CoeffsOf(items);
    r := new Polynomial.Zero();
    assert cs[..0] == [];
    var k := 0;
    while k < |items|
      invariant 0 <= k <= |items|
      invariant fresh(r)
      invariant CoeffsOf(items) == cs
      invariant r.coeffs == SumOf(cs[..k])
    {
      r := AddNext(r, items[k], cs, k);
      k := k + 1;
    }
    assert cs[..k] == cs;
  }

  /** One step of the fold in `Sum`: `&res + &val`. */
  method AddNext(acc: Polynomial, val: Polynomial, ghost cs: seq<Coeffs>, ghost k: nat)
    returns (r: Polynomial)
    requires k < |cs| && SumDefined(cs)
    requires acc.coeffs == SumOf(cs[..k]) && val.coeffs == cs[k]
    ensures fresh(r)
    ensures r.coeffs == SumOf(cs[..k + 1])
  {
    SumStep(cs, k);
    r := acc.Plus(val);
  }

  lemma SumStep(cs: seq<Coeffs>, k: nat)
    requires k < |cs| && SumDefined(cs)
    ensures DegreesDefined(SumOf(cs[..k]), cs[k])
    ensures SumOf(cs[..k + 1]) == Trim(AddPadded(SumOf(cs[..k]), cs[k]))
  {
    SumOfCoeffwise(cs[..k]);
    NormalizedHasDegree(SumOf(cs[..k]));
    assert cs[..k + 1][..k] == cs[..k];
  }

  /** `iter_add`: the zipped sums, then the rest of the longer operand, then
      the normal form. */
  method IterAdd(a: Polynomial, b: Polynomial) returns (r: Polynomial)
    ensures fresh(r)
    ensures r.coeffs == IterAddResult(a.coeffs, b.coeffs)
  {
    if |a.coeffs| == 0 {
      r := new Polynomial.Clone(b);
      return;
    }
    if |b.coeffs| == 0 {
      r := new Polynomial.Clone(a);
      return;
    }
    var x, y := a.coeffs, b.coeffs;
    var maxLen := Max(|x|, |y|);
    var minLen := if |x| <= |y| then |x| else |y|;
    var data: Coeffs := [];
    var i := 0;
    while i < minLen
      invariant 0 <= i <= minLen
      invariant data == AddPadded(x, y)[..i]
    {
      data := data + [Add(x[i], y[i])];
      i := i + 1;
    }
    data := data + x[minLen..];
    data := data + y[minLen..];
    assert |data| == maxLen;
    assert data == AddPadded(x, y);
    r := new Polynomial.FromCoefficients(data);
    r.TruncateLeadingZeros();
    TrimSpec(data);
    TrimNormalized(Trim(data));
  }
}
