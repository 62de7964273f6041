/** Value-level meaning of a coefficient vector: index `i` holds the
    coefficient of `x^i`.  The functions here are the specifications the
    in-place and by-value operations of `Polynomial` are proved against, and
    the lemmas say what those specifications mean algebraically. */
module PolynomialSpec {
  import opened Field

  type Coeffs = seq<Scalar>

  /** Coefficient `i`, reading past either end as zero. */
  function Coeff(c: Coeffs, i: int): Scalar
  {
    if 0 <= i < |c| then c[i] else 0
  }

  /** `is_zero`: the vector is empty or every coefficient is zero. */
  predicate IsZero(c: Coeffs)
  {
    c == [] || forall i | 0 <= i < |c| :: c[i] == 0
  }

  /** The form `from_coefficients_vec` asserts: empty or a non-zero last entry. */
  predicate Normalized(c: Coeffs)
  {
    c == [] || c[|c| - 1] != 0
  }

  /** The inputs on which `degree` does not fail its assertion. */
  predicate HasDegree(c: Coeffs)
  {
    IsZero(c) || c[|c| - 1] != 0
  }

  /** `degree`: the index of the highest non-zero coefficient, 0 for zero. */
  function Degree(c: Coeffs): (d: nat)
    requires HasDegree(c)
    ensures !IsZero(c) ==> d < |c| && c[d] != 0 && forall i | d < i < |c| :: c[i] == 0
    ensures IsZero(c) ==> d == 0
  {
    if IsZero(c) then 0 else |c| - 1
  }

  /** The effect of `truncate_leading_zeros`: trailing zero entries removed. */
  function Trim(c: Coeffs): Coeffs
    decreases |c|
  {
    if c != [] && c[|c| - 1] == 0 then Trim(c[..|c| - 1]) else c
  }

  function Zeros(n: nat): (z: Coeffs)
    ensures |z| == n && IsZero(z)
  {
    seq<Scalar>(n, _ => 0)
  }

  /** `Vec::resize(n, zero)`: cut to `n` entries or pad with zeros. */
  function Resized(c: Coeffs, n: nat): (r: Coeffs)
    ensures |r| == n
    ensures forall i | 0 <= i < n :: r[i] == Coeff(c, i)
  {
    if n <= |c| then c[..n] else c + Zeros(n - |c|)
  }

  function Max(a: nat, b: nat): nat { if a >= b then a else b }

  /** Coefficient-wise sum, the shorter operand padded with zeros. */
  function AddPadded(a: Coeffs, b: Coeffs): (r: Coeffs)
    ensures |r| == Max(|a|, |b|)
  {
    seq<Scalar>(Max(|a|, |b|), i => Add(Coeff(a, i), Coeff(b, i)))
  }

  /** Coefficient-wise difference, the shorter operand padded with zeros. */
  function SubPadded(a: Coeffs, b: Coeffs): (r: Coeffs)
    ensures |r| == Max(|a|, |b|)
  {
    seq<Scalar>(Max(|a|, |b|), i => Sub(Coeff(a, i), Coeff(b, i)))
  }

  /** Coefficient-wise `a + f * b`, the shorter operand padded with zeros. */
  function AddScaledPadded(a: Coeffs, f: Scalar, b: Coeffs): (r: Coeffs)
    ensures |r| == Max(|a|, |b|)
  {
    seq<Scalar>(Max(|a|, |b|), i => Add(Coeff(a, i), Mul(f, Coeff(b, i))))
  }

  /** Every coefficient multiplied by `f`, length kept. */
  function Scale(c: Coeffs, f: Scalar): (r: Coeffs)
    ensures |r| == |c|
  {
    seq<Scalar>(|c|, i requires 0 <= i < |c| => Mul(c[i], f))
  }

  /** Every coefficient negated, length kept. */
  function Negated(c: Coeffs): (r: Coeffs)
    ensures |r| == |c|
  {
    seq<Scalar>(|c|, i requires 0 <= i < |c| => Neg(c[i]))
  }

  /** The reference meaning of evaluation: the sum of `c[i] * x^i`. */
  function EvalSum(c: Coeffs, x: Scalar): Scalar
    decreases |c|
  {
    if c == [] then 0
    else Add(EvalSum(c[..|c| - 1], x), Mul(c[|c| - 1], Pow(x, |c| - 1)))
  }

  /** Horner's rule, from the leading coefficient down. */
  function Horner(c: Coeffs, x: Scalar): Scalar
    decreases |c|
  {
    if c == [] then 0 else Add(c[0], Mul(x, Horner(c[1..], x)))
  }

  /** Coefficients of `(X - z) * q`. */
  function MulByLinear(q: Coeffs, z: Scalar): (r: Coeffs)
    ensures |r| == |q| + 1
  {
    seq<Scalar>(|q| + 1, j => Sub(Coeff(q, j - 1), Mul(z, Coeff(q, j))))
  }

  /** The running values of Ruffini's rule: entry `j` is
      `c[j] + z * (entry j + 1)`, the last one being the leading coefficient. */
  function RuffiniTable(p: Coeffs, z: Scalar): (t: Coeffs)
    ensures |t| == |p|
    decreases |p|
  {
    if p == [] then []
    else
      var rest := RuffiniTable(p[1..], z);
      [Add(p[0], Mul(z, Coeff(rest, 0)))] + rest
  }

  /** The quotient `ruffini` returns: the table without its remainder entry,
      normalised. */
  function RuffiniQuotient(p: Coeffs, z: Scalar): Coeffs
  {
    if p == [] then [] else Trim(RuffiniTable(p, z)[1..])
  }

  /** `&p + &c` for a constant `c`. */
  function AddConstant(p: Coeffs, c: Scalar): Coeffs
  {
    if IsZero(p) then Trim([c])
    else if c == 0 then p
    else p[0 := Add(p[0], c)]
  }

  /** `&p - &c`, delegating to the addition of `-c`. */
  function SubConstant(p: Coeffs, c: Scalar): Coeffs
  {
    AddConstant(p, Neg(c))
  }

  /** `&p * &c` for a constant `c`. */
  function MulConstant(p: Coeffs, c: Scalar): Coeffs
  {
    if IsZero(p) || c == 0 then [] else Trim(Scale(p, c))
  }

  // ---------------------------------------------------------------------
  // Normalisation

  lemma {:induction false} TrimSpec(c: Coeffs)
    ensures |Trim(c)| <= |c| && Trim(c) == c[..|Trim(c)|]
    ensures Normalized(Trim(c))
    ensures forall i | |Trim(c)| <= i < |c| :: c[i] == 0
    decreases |c|
  {
    if c != [] && c[|c| - 1] == 0 {
      var init := c[..|c| - 1];
      TrimSpec(init);
      assert Trim(c) == Trim(init);
    }
  }

  /** The normal form is unique: any normalised prefix followed only by zeros
      is what `Trim` returns. */
  lemma {:induction false} TrimUnique(c: Coeffs, k: nat)
    requires k <= |c| && Normalized(c[..k])
    requires forall i | k <= i < |c| :: c[i] == 0
    ensures Trim(c) == c[..k]
    decreases |c|
  {
    if |c| == k {
      assert c[..k] == c;
    } else {
      var init := c[..|c| - 1];
      assert init[..k] == c[..k];
      TrimUnique(init, k);
    }
  }

  lemma TrimCoeff(c: Coeffs)
    ensures forall i :: Coeff(Trim(c), i) == Coeff(c, i)
  {
    TrimSpec(c);
  }

  lemma TrimNormalized(c: Coeffs)
    requires Normalized(c)
    ensures Trim(c) == c
  {
    TrimUnique(c, |c|);
  }

  /** `is_zero` holds exactly when normalisation leaves nothing. */
  lemma ZeroIffTrimEmpty(c: Coeffs)
    ensures IsZero(c) <==> Trim(c) == []
  {
    TrimSpec(c);
    if IsZero(c) {
      TrimUnique(c, 0);
    }
  }

  lemma NormalizedHasDegree(c: Coeffs)
    requires Normalized(c)
    ensures HasDegree(c)
  {
  }

  /** For a polynomial that has a degree, it is one less than the length of
      the normal form (and 0 for the zero polynomial). */
  lemma DegreeOfNormalForm(c: Coeffs)
    requires HasDegree(c)
    ensures Degree(c) == if IsZero(c) then 0 else |Trim(c)| - 1
  {
    if !IsZero(c) {
      TrimNormalized(c);
    }
  }

  // ---------------------------------------------------------------------
  // Coefficient-wise operations

  lemma AddPaddedCoeff(a: Coeffs, b: Coeffs)
    ensures forall i :: Coeff(AddPadded(a, b), i) == Add(Coeff(a, i), Coeff(b, i))
  {
  }

  lemma AddScaledPaddedCoeff(a: Coeffs, f: Scalar, b: Coeffs)
    ensures forall i :: Coeff(AddScaledPadded(a, f, b), i) == Add(Coeff(a, i), Mul(f, Coeff(b, i)))
  {
    forall i
      ensures Coeff(AddScaledPadded(a, f, b), i) == Add(Coeff(a, i), Mul(f, Coeff(b, i)))
    {
      if !(0 <= i < |AddScaledPadded(a, f, b)|) {
        MulZero(f);
        AddZero(0);
      }
    }
  }

  lemma SubPaddedCoeff(a: Coeffs, b: Coeffs)
    ensures forall i :: Coeff(SubPadded(a, b), i) == Sub(Coeff(a, i), Coeff(b, i))
  {
  }

  /** `&a + &b` is normalised and is coefficient-wise the sum. */
  lemma SumOfPolynomials(a: Coeffs, b: Coeffs)
    ensures Normalized(Trim(AddPadded(a, b)))
    ensures forall i :: Coeff(Trim(AddPadded(a, b)), i) == Add(Coeff(a, i), Coeff(b, i))
  {
    TrimSpec(AddPadded(a, b));
    TrimCoeff(AddPadded(a, b));
  }

  /** `&a - &b` is normalised and is coefficient-wise the difference. */
  lemma DifferenceOfPolynomials(a: Coeffs, b: Coeffs)
    ensures Normalized(Trim(SubPadded(a, b)))
    ensures forall i :: Coeff(Trim(SubPadded(a, b)), i) == Sub(Coeff(a, i), Coeff(b, i))
  {
    TrimSpec(SubPadded(a, b));
    TrimCoeff(SubPadded(a, b));
  }

  /** Subtraction is addition of the negation. */
  lemma SubIsAddNegated(a: Coeffs, b: Coeffs)
    ensures SubPadded(a, b) == AddPadded(a, Negated(b))
  {
    var l, r := SubPadded(a, b), AddPadded(a, Negated(b));
    forall i | 0 <= i < |l|
      ensures l[i] == r[i]
    {
      assert Coeff(Negated(b), i) == Neg(Coeff(b, i));
      SubIsAddNeg(Coeff(a, i), Coeff(b, i));
    }
  }

  /** Negation keeps the length and is undone by a second negation. */
  lemma NegatedInvolution(c: Coeffs)
    ensures |Negated(c)| == |c|
    ensures Negated(Negated(c)) == c
  {
    forall i | 0 <= i < |c|
      ensures Negated(Negated(c))[i] == c[i]
    {
      NegNeg(c[i]);
    }
  }

  /** A polynomial plus its negation is the zero polynomial. */
  lemma NegatedCancels(c: Coeffs)
    ensures IsZero(AddPadded(c, Negated(c)))
  {
    var s := AddPadded(c, Negated(c));
    forall i | 0 <= i < |s|
      ensures s[i] == 0
    {
      assert s[i] == Add(c[i], Neg(c[i]));
      SubIsAddNeg(c[i], c[i]);
    }
  }

  // ---------------------------------------------------------------------
  // Evaluation

  function Tail(c: Coeffs): Coeffs
  {
    if c == [] then [] else c[1..]
  }

  lemma HornerUnfold(c: Coeffs, x: Scalar)
    ensures Horner(c, x) == Add(Coeff(c, 0), Mul(x, Horner(Tail(c), x)))
  {
  }

  /** One more coefficient adds one more weighted term. */
  lemma EvalSumStep(s: Coeffs, i: nat, x: Scalar)
    requires i < |s|
    ensures EvalSum(s[..i + 1], x) == Add(EvalSum(s[..i], x), Mul(Pow(x, i), s[i]))
  {
    assert s[..i + 1][..i] == s[..i];
    MulComm(s[i], Pow(x, i));
  }

  /** Peeling the constant coefficient off the power sum. */
  lemma {:induction false} EvalSumFront(c: Coeffs, x: Scalar)
    requires c != []
    ensures EvalSum(c, x) == Add(c[0], Mul(x, EvalSum(c[1..], x)))
    decreases |c|
  {
    var n := |c|;
    if n == 1 {
      assert c[..0] == [] && c[1..] == [];
      assert EvalSum(c, x) == Add(0, Mul(c[0], Pow(x, 0)));
      MulOne(c[0]);
      AddZero(c[0]);
      MulZero(x);
    } else {
      var init, tail := c[..n - 1], c[1..];
      EvalSumFront(init, x);
      assert init[0] == c[0];
      assert init[1..] == tail[..n - 2];
      assert tail[|tail| - 1] == c[n - 1];
      var e', last, p := EvalSum(init[1..], x), c[n - 1], Pow(x, n - 2);
      assert Pow(x, n - 1) == Mul(x, p);
      assert EvalSum(c, x) == Add(EvalSum(init, x), Mul(last, Mul(x, p)));
      assert EvalSum(tail, x) == Add(e', Mul(last, p));
      MulDistrib(x, e', Mul(last, p));
      MulLeftComm(x, last, p);
      AddAssoc(c[0], Mul(x, e'), Mul(last, Mul(x, p)));
    }
  }

  /** Horner's rule computes the power sum. */
  lemma {:induction false} HornerIsEvalSum(c: Coeffs, x: Scalar)
    ensures Horner(c, x) == EvalSum(c, x)
    decreases |c|
  {
    if c != [] {
      HornerIsEvalSum(c[1..], x);
      EvalSumFront(c, x);
    }
  }

  lemma AddScaledTail(a: Coeffs, f: Scalar, b: Coeffs)
    requires AddScaledPadded(a, f, b) != []
    ensures AddScaledPadded(a, f, b)[0] == Add(Coeff(a, 0), Mul(f, Coeff(b, 0)))
    ensures AddScaledPadded(a, f, b)[1..] == AddScaledPadded(Tail(a), f, Tail(b))
  {
    var s, t := AddScaledPadded(a, f, b), AddScaledPadded(Tail(a), f, Tail(b));
    assert |t| == |s| - 1;
    forall i | 0 <= i < |t|
      ensures s[i + 1] == t[i]
    {
      assert Coeff(Tail(a), i) == Coeff(a, i + 1);
      assert Coeff(Tail(b), i) == Coeff(b, i + 1);
    }
  }

  /** The step of the linearity proof, on field elements only. */
  lemma AddScaledStep(a0: Scalar, b0: Scalar, ha: Scalar, hb: Scalar, f: Scalar, x: Scalar)
    ensures Add(Add(a0, Mul(f, b0)), Mul(x, Add(ha, Mul(f, hb))))
         == Add(Add(a0, Mul(x, ha)), Mul(f, Add(b0, Mul(x, hb))))
  {
    MulDistrib(x, ha, Mul(f, hb));
    MulLeftComm(x, f, hb);
    MulDistrib(f, b0, Mul(x, hb));
    AddSwap(a0, Mul(f, b0), Mul(x, ha), Mul(f, Mul(x, hb)));
  }

  /** Evaluation is linear: `(a + f*b)(x) == a(x) + f * b(x)`. */
  lemma {:induction false} HornerAddScaled(a: Coeffs, f: Scalar, b: Coeffs, x: Scalar)
    ensures Horner(AddScaledPadded(a, f, b), x) == Add(Horner(a, x), Mul(f, Horner(b, x)))
    decreases |a| + |b|
  {
    var s := AddScaledPadded(a, f, b);
    if s == [] {
      assert a == [] && b == [];
    } else {
      AddScaledTail(a, f, b);
      HornerAddScaled(Tail(a), f, Tail(b), x);
      HornerUnfold(a, x);
      HornerUnfold(b, x);
      AddScaledStep(Coeff(a, 0), Coeff(b, 0), Horner(Tail(a), x), Horner(Tail(b), x), f, x);
    }
  }

  lemma EvalAddScaled(a: Coeffs, f: Scalar, b: Coeffs, x: Scalar)
    ensures EvalSum(AddScaledPadded(a, f, b), x) == Add(EvalSum(a, x), Mul(f, EvalSum(b, x)))
  {
    HornerAddScaled(a, f, b, x);
    HornerIsEvalSum(a, x);
    HornerIsEvalSum(b, x);
    HornerIsEvalSum(AddScaledPadded(a, f, b), x);
  }

  /** Trailing zeros do not change the value. */
  lemma {:induction false} EvalTrim(c: Coeffs, x: Scalar)
    ensures EvalSum(Trim(c), x) == EvalSum(c, x)
    decreases |c|
  {
    if c != [] && c[|c| - 1] == 0 {
      var init := c[..|c| - 1];
      EvalTrim(init, x);
      MulZero(Pow(x, |c| - 1));
      AddZero(EvalSum(init, x));
    }
  }

  lemma {:induction false} EvalZero(c: Coeffs, x: Scalar)
    requires IsZero(c)
    ensures EvalSum(c, x) == 0
    decreases |c|
  {
    if c != [] {
      var init := c[..|c| - 1];
      EvalZero(init, x);
      MulZero(Pow(x, |c| - 1));
      AddZero(0);
    }
  }

  /** Evaluating `&a + &b` gives `a(x) + b(x)`. */
  lemma EvalOfSum(a: Coeffs, b: Coeffs, x: Scalar)
    ensures EvalSum(Trim(AddPadded(a, b)), x) == Add(EvalSum(a, x), EvalSum(b, x))
  {
    AddIsAddScaledByOne(a, b);
    EvalAddScaled(a, 1, b, x);
    MulOne(EvalSum(b, x));
    EvalTrim(AddPadded(a, b), x);
  }

  lemma AddIsAddScaledByOne(a: Coeffs, b: Coeffs)
    ensures AddPadded(a, b) == AddScaledPadded(a, 1, b)
  {
    var l, r := AddPadded(a, b), AddScaledPadded(a, 1, b);
    forall i | 0 <= i < |l|
      ensures l[i] == r[i]
    {
      MulOne(Coeff(b, i));
    }
  }

  lemma SubIsAddScaledByMinusOne(a: Coeffs, b: Coeffs)
    ensures SubPadded(a, b) == AddScaledPadded(a, R - 1, b)
  {
    var l, r := SubPadded(a, b), AddScaledPadded(a, R - 1, b);
    forall i | 0 <= i < |l|
      ensures l[i] == r[i]
    {
      MulMinusOne(Coeff(b, i));
      SubIsAddNeg(Coeff(a, i), Coeff(b, i));
    }
  }

  /** Evaluating `&a - &b` gives `a(x) - b(x)`. */
  lemma EvalOfDifference(a: Coeffs, b: Coeffs, x: Scalar)
    ensures EvalSum(Trim(SubPadded(a, b)), x) == Sub(EvalSum(a, x), EvalSum(b, x))
  {
    var m1: Scalar := R - 1;
    var d := SubPadded(a, b);
    SubIsAddScaledByMinusOne(a, b);
    EvalAddScaled(a, m1, b, x);
    MulMinusOne(EvalSum(b, x));
    SubIsAddNeg(EvalSum(a, x), EvalSum(b, x));
    EvalTrim(d, x);
  }

  /** Evaluating a negated polynomial gives the negated value. */
  lemma EvalOfNegated(c: Coeffs, x: Scalar)
    ensures EvalSum(Negated(c), x) == Neg(EvalSum(c, x))
  {
    SubIsAddNegated([], c);
    assert SubPadded([], c) == Negated(c);
    EvalOfDifference([], c, x);
    EvalTrim(Negated(c), x);
  }

  /** Evaluating `&p * &c` gives `p(x) * c`. */
  lemma EvalOfMulConstant(p: Coeffs, c: Scalar, x: Scalar)
    ensures EvalSum(MulConstant(p, c), x) == Mul(EvalSum(p, x), c)
  {
    if IsZero(p) {
      EvalZero(p, x);
      MulZero(c);
    } else if c == 0 {
      MulZero(EvalSum(p, x));
    } else {
      ScaleIsAddScaledToZero(p, c);
      EvalAddScaled([], c, p, x);
      AddZero(Mul(c, EvalSum(p, x)));
      MulComm(c, EvalSum(p, x));
      EvalTrim(Scale(p, c), x);
    }
  }

  lemma ScaleIsAddScaledToZero(p: Coeffs, c: Scalar)
    ensures Scale(p, c) == AddScaledPadded([], c, p)
  {
    var l, r := Scale(p, c), AddScaledPadded([], c, p);
    forall i | 0 <= i < |l|
      ensures l[i] == r[i]
    {
      MulComm(p[i], c);
      AddZero(Mul(c, p[i]));
    }
  }

  lemma EvalSingleton(c: Scalar, x: Scalar)
    ensures EvalSum([c], x) == c
  {
    assert [c][..0] == [];
    assert Pow(x, 0) == 1;
    MulOne(c);
    AddZero(c);
  }

  /** Evaluating `&p + &c` gives `p(x) + c`. */
  lemma EvalOfAddConstant(p: Coeffs, c: Scalar, x: Scalar)
    ensures EvalSum(AddConstant(p, c), x) == Add(EvalSum(p, x), c)
  {
    EvalSingleton(c, x);
    if IsZero(p) {
      EvalZero(p, x);
      EvalTrim([c], x);
      AddZero(c);
    } else if c != 0 {
      AddToConstantCoeff(p, c);
      EvalAddScaled(p, 1, [c], x);
      MulOne(c);
    } else {
      AddZero(EvalSum(p, x));
    }
  }

  lemma AddToConstantCoeff(p: Coeffs, c: Scalar)
    requires p != []
    ensures p[0 := Add(p[0], c)] == AddScaledPadded(p, 1, [c])
  {
    var q, e := p[0 := Add(p[0], c)], AddScaledPadded(p, 1, [c]);
    forall i | 0 <= i < |q|
      ensures q[i] == e[i]
    {
      if i == 0 {
        MulOne(c);
      } else {
        MulZero(1);
        AddZero(p[i]);
      }
    }
  }

  /** Splitting a coefficient vector: `(a ++ b)(x) == a(x) + x^|a| * b(x)`. */
  lemma {:induction false} HornerConcat(a: Coeffs, b: Coeffs, x: Scalar)
    ensures Horner(a + b, x) == Add(Horner(a, x), Mul(Pow(x, |a|), Horner(b, x)))
    decreases |a|
  {
    if a == [] {
      assert a + b == b;
      MulOne(Horner(b, x));
      AddZero(Mul(1, Horner(b, x)));
    } else {
      var a' := a[1..];
      assert (a + b)[1..] == a' + b;
      HornerConcat(a', b, x);
      var ha, hb, pw := Horner(a', x), Horner(b, x), Pow(x, |a'|);
      assert Horner(a + b, x) == Add(a[0], Mul(x, Add(ha, Mul(pw, hb))));
      assert Horner(a, x) == Add(a[0], Mul(x, ha));
      assert Pow(x, |a|) == Mul(x, pw);
      MulDistrib(x, ha, Mul(pw, hb));
      MulAssoc(x, pw, hb);
      AddAssoc(a[0], Mul(x, ha), Mul(x, Mul(pw, hb)));
    }
  }

  lemma EvalConcat(a: Coeffs, b: Coeffs, x: Scalar)
    ensures EvalSum(a + b, x) == Add(EvalSum(a, x), Mul(Pow(x, |a|), EvalSum(b, x)))
  {
    HornerConcat(a, b, x);
    HornerIsEvalSum(a + b, x);
    HornerIsEvalSum(a, x);
    HornerIsEvalSum(b, x);
  }

  // ---------------------------------------------------------------------
  // Ruffini's rule

  lemma {:induction false} RuffiniTableSuffix(p: Coeffs, z: Scalar, j: nat)
    requires j <= |p|
    ensures RuffiniTable(p, z)[j..] == RuffiniTable(p[j..], z)
    decreases j
  {
    if j > 0 {
      RuffiniTableSuffix(p[1..], z, j - 1);
      assert p[1..][j - 1..] == p[j..];
      assert RuffiniTable(p, z)[j..] == RuffiniTable(p, z)[1..][j - 1..];
    }
  }

  /** Each running value is the coefficient plus `z` times the next one. */
  lemma RuffiniTableStep(p: Coeffs, z: Scalar, i: nat)
    requires i < |p|
    ensures RuffiniTable(p, z)[i] == Add(p[i], Mul(z, Coeff(RuffiniTable(p, z), i + 1)))
  {
    var t := RuffiniTable(p, z);
    RuffiniTableSuffix(p, z, i);
    RuffiniTableSuffix(p, z, i + 1);
    assert p[i..][1..] == p[i + 1..];
    assert t[i] == t[i..][0];
    assert Coeff(t, i + 1) == Coeff(t[i + 1..], 0);
  }

  /** The first running value, the one `ruffini` pops off, is `p(z)`. */
  lemma {:induction false} RuffiniRemainder(p: Coeffs, z: Scalar)
    ensures Coeff(RuffiniTable(p, z), 0) == EvalSum(p, z)
    decreases |p|
  {
    if p != [] {
      RuffiniRemainder(p[1..], z);
      HornerIsEvalSum(p[1..], z);
    }
    HornerIsEvalSum(p, z);
  }

  /** Coefficient `i` of `(X - z) q` is `q[i-1] - z q[i]`, at every index. */
  lemma MulByLinearCoeff(q: Coeffs, z: Scalar, i: int)
    ensures Coeff(MulByLinear(q, z), i) == Sub(Coeff(q, i - 1), Mul(z, Coeff(q, i)))
  {
    if !(0 <= i < |q| + 1) {
      MulZero(z);
      assert Sub(0, 0) == 0;
    }
  }

  lemma MulByLinearTrimAt(q: Coeffs, z: Scalar, i: int)
    ensures Coeff(MulByLinear(Trim(q), z), i) == Coeff(MulByLinear(q, z), i)
  {
    var t := Trim(q);
    TrimCoeff(q);
    MulByLinearCoeff(t, z, i);
    MulByLinearCoeff(q, z, i);
  }

  /** One coefficient of the division identity, for the untrimmed quotient. */
  lemma RuffiniCoeff(p: Coeffs, z: Scalar, i: nat)
    requires p != []
    ensures Coeff(p, i) == Add(Coeff(MulByLinear(RuffiniTable(p, z)[1..], z), i),
                               if i == 0 then EvalSum(p, z) else 0)
  {
    var m := MulByLinear(RuffiniTable(p, z)[1..], z);
    if i >= |p| {
      assert Coeff(m, i) == 0 && Coeff(p, i) == 0;
      AddZero(0);
    } else if i == 0 {
      RuffiniConstantCoeff(p, z);
    } else {
      RuffiniInnerCoeff(p, z, i);
      AddZero(p[i]);
    }
  }

  lemma RuffiniConstantCoeff(p: Coeffs, z: Scalar)
    requires p != []
    ensures Add(MulByLinear(RuffiniTable(p, z)[1..], z)[0], EvalSum(p, z)) == p[0]
  {
    var t := RuffiniTable(p, z);
    var q0 := t[1..];
    RuffiniTableStep(p, z, 0);
    RuffiniRemainder(p, z);
    var k := Mul(z, Coeff(t, 1));
    assert Coeff(q0, 0) == Coeff(t, 1) && Coeff(q0, -1) == 0;
    assert MulByLinear(q0, z)[0] == Sub(0, k);
    RemainderCancels(p[0], k);
  }

  lemma RuffiniInnerCoeff(p: Coeffs, z: Scalar, i: nat)
    requires 0 < i < |p|
    ensures MulByLinear(RuffiniTable(p, z)[1..], z)[i] == p[i]
  {
    var t := RuffiniTable(p, z);
    var q0 := t[1..];
    var k := Mul(z, Coeff(t, i + 1));
    RuffiniTableStep(p, z, i);
    assert Coeff(q0, i - 1) == t[i];
    assert Coeff(q0, i) == Coeff(t, i + 1);
    assert MulByLinear(q0, z)[i] == Sub(t[i], k);
    AddSubCancel(p[i], k);
  }

  lemma RemainderCancels(a: Scalar, k: Scalar)
    ensures Add(Sub(0, k), Add(a, k)) == a
  {
    ModSmall(a);
    ModSmall(k);
    AddRep(Sub(0, k), Add(a, k), 0 - k, a + k);
    assert (0 - k) + (a + k) == a;
  }

  /** The division identity `p = (X - z) * q + p(z)`, coefficient by
      coefficient, where `q` is the quotient `ruffini` returns; when `z` is a
      root, `p` is exactly `(X - z) * q`. */
  lemma RuffiniDivision(p: Coeffs, z: Scalar)
    ensures forall i: nat ::
      Coeff(p, i) == Add(Coeff(MulByLinear(RuffiniQuotient(p, z), z), i), (if i == 0 then EvalSum(p, z) else 0))
    ensures EvalSum(p, z) == 0 ==>
      forall i: nat :: Coeff(p, i) == Coeff(MulByLinear(RuffiniQuotient(p, z), z), i)
  {
    var q0 := if p == [] then [] else RuffiniTable(p, z)[1..];
    var q := RuffiniQuotient(p, z);
    assert q == Trim(q0);
    var e := EvalSum(p, z);
    forall i: nat
      ensures Coeff(p, i) == Add(Coeff(MulByLinear(q, z), i), (if i == 0 then e else 0))
    {
      MulByLinearTrimAt(q0, z, i);
      if p != [] {
        RuffiniCoeff(p, z, i);
      } else {
        assert Coeff(MulByLinear(q0, z), i) == 0;
      }
    }
    if e == 0 {
      forall i: nat
        ensures Coeff(p, i) == Coeff(MulByLinear(q, z), i)
      {
        AddZero(Coeff(MulByLinear(q, z), i));
      }
    }
  }

  lemma {:induction false} RuffiniTableOfZero(p: Coeffs, z: Scalar)
    requires IsZero(p)
    ensures IsZero(RuffiniTable(p, z))
    decreases |p|
  {
    if p != [] {
      RuffiniTableOfZero(p[1..], z);
    }
  }

  /** Dividing the zero polynomial gives the zero polynomial, for any `z`. */
  lemma RuffiniOfZero(p: Coeffs, z: Scalar)
    requires IsZero(p)
    ensures RuffiniQuotient(p, z) == []
  {
    if p != [] {
      RuffiniTableOfZero(p, z);
      ZeroIffTrimEmpty(RuffiniTable(p, z)[1..]);
    }
  }

  /** `(X^2 + 4X + 4) / (X + 2) == X + 2` and `(X^2 + X) / X == X + 1`. */
  lemma RuffiniExamples()
    ensures RuffiniQuotient([4, 4, 1], R - 2) == [2, 1]
    ensures RuffiniQuotient([0, 1, 1], 0) == [1, 1]
  {
    assert RuffiniTable([1], R - 2) == [1];
    assert RuffiniTable([4, 1], R - 2) == [2, 1] by {
      assert [4, 1][1..] == [1];
    }
    assert RuffiniTable([4, 4, 1], R - 2) == [0, 2, 1] by {
      assert [4, 4, 1][1..] == [4, 1];
    }
    assert [0, 2, 1][1..] == [2, 1];
    assert RuffiniTable([1], 0) == [1];
    assert RuffiniTable([1, 1], 0) == [1, 1] by {
      assert [1, 1][1..] == [1];
    }
    assert RuffiniTable([0, 1, 1], 0) == [0, 1, 1] by {
      assert [0, 1, 1][1..] == [1, 1];
    }
    assert [0, 1, 1][1..] == [1, 1];
  }

  // ---------------------------------------------------------------------
  // In-place operations, branch by branch

  predicate DegreesDefined(a: Coeffs, b: Coeffs)
  {
    !IsZero(a) && !IsZero(b) ==> HasDegree(a) && HasDegree(b)
  }

  /** The state `add_assign(&other)` leaves in `self`. */
  function AddAssignResult(a: Coeffs, b: Coeffs): Coeffs
    requires DegreesDefined(a, b)
  {
    if IsZero(a) then b
    else if IsZero(b) then a
    else if Degree(a) >= Degree(b) then AddPadded(a, b)
    else Trim(AddPadded(a, b))
  }

  /** The state `add_assign((f, &other))` leaves in `self`. */
  function AddAssignScaledResult(a: Coeffs, f: Scalar, b: Coeffs): Coeffs
    requires DegreesDefined(a, b)
  {
    if IsZero(a) then Scale(b, f)
    else if IsZero(b) then a
    else if Degree(a) >= Degree(b) then AddScaledPadded(a, f, b)
    else Trim(AddScaledPadded(a, f, b))
  }

  /** The state `sub_assign(&other)` leaves in `self`. */
  function SubAssignResult(a: Coeffs, b: Coeffs): Coeffs
    requires DegreesDefined(a, b)
  {
    if IsZero(a) then Negated(b)
    else if IsZero(b) then a
    else if Degree(a) >= Degree(b) then SubPadded(a, b)
    else Trim(SubPadded(a, b))
  }

  lemma ZeroCoeff(c: Coeffs)
    requires IsZero(c)
    ensures forall i :: Coeff(c, i) == 0
  {
  }

  /** `self += &other` leaves `self` coefficient-wise equal to `self + other`. */
  lemma AddAssignCoeffwise(a: Coeffs, b: Coeffs)
    requires DegreesDefined(a, b)
    ensures forall i :: Coeff(AddAssignResult(a, b), i) == Add(Coeff(a, i), Coeff(b, i))
  {
    if IsZero(a) {
      ZeroCoeff(a);
      forall i
        ensures Coeff(b, i) == Add(Coeff(a, i), Coeff(b, i))
      {
        AddZero(Coeff(b, i));
      }
    } else if IsZero(b) {
      ZeroCoeff(b);
      forall i
        ensures Coeff(a, i) == Add(Coeff(a, i), Coeff(b, i))
      {
        AddZero(Coeff(a, i));
      }
    } else if Degree(a) >= Degree(b) {
      AddPaddedCoeff(a, b);
    } else {
      TrimCoeff(AddPadded(a, b));
      AddPaddedCoeff(a, b);
    }
  }

  /** `self += (f, &other)` leaves `self` coefficient-wise equal to `self + f * other`. */
  lemma AddAssignScaledCoeffwise(a: Coeffs, f: Scalar, b: Coeffs)
    requires DegreesDefined(a, b)
    ensures forall i :: Coeff(AddAssignScaledResult(a, f, b), i) == Add(Coeff(a, i), Mul(f, Coeff(b, i)))
  {
    if IsZero(a) {
      ZeroCoeff(a);
      forall i
        ensures Coeff(Scale(b, f), i) == Add(Coeff(a, i), Mul(f, Coeff(b, i)))
      {
        MulComm(f, Coeff(b, i));
        MulZero(f);
        AddZero(Mul(f, Coeff(b, i)));
      }
    } else if IsZero(b) {
      ZeroCoeff(b);
      forall i
        ensures Coeff(a, i) == Add(Coeff(a, i), Mul(f, Coeff(b, i)))
      {
        MulZero(f);
        AddZero(Coeff(a, i));
      }
    } else if Degree(a) >= Degree(b) {
      AddScaledPaddedCoeff(a, f, b);
    } else {
      TrimCoeff(AddScaledPadded(a, f, b));
      AddScaledPaddedCoeff(a, f, b);
    }
  }

  /** `self -= &other` leaves `self` coefficient-wise equal to `self - other`. */
  lemma SubAssignCoeffwise(a: Coeffs, b: Coeffs)
    requires DegreesDefined(a, b)
    ensures forall i :: Coeff(SubAssignResult(a, b), i) == Sub(Coeff(a, i), Coeff(b, i))
  {
    if IsZero(a) {
      ZeroCoeff(a);
      forall i
        ensures Coeff(Negated(b), i) == Sub(Coeff(a, i), Coeff(b, i))
      {
        assert Sub(0, 0) == 0;
      }
    } else if IsZero(b) {
      ZeroCoeff(b);
      forall i
        ensures Coeff(a, i) == Sub(Coeff(a, i), Coeff(b, i))
      {
        SubZero(Coeff(a, i));
      }
    } else if Degree(a) >= Degree(b) {
      SubPaddedCoeff(a, b);
    } else {
      TrimCoeff(SubPadded(a, b));
      SubPaddedCoeff(a, b);
    }
  }

  /** Only the branch where `self` has the smaller degree re-normalises: there
      the result is normalised, in the other branch the length of `self` is
      kept whatever cancels. */
  lemma InPlaceNormalisation(a: Coeffs, f: Scalar, b: Coeffs)
    requires !IsZero(a) && !IsZero(b) && HasDegree(a) && HasDegree(b)
    ensures Degree(a) < Degree(b) ==>
      Normalized(AddAssignResult(a, b)) && Normalized(SubAssignResult(a, b))
      && Normalized(AddAssignScaledResult(a, f, b))
    ensures Degree(a) >= Degree(b) ==>
      |AddAssignResult(a, b)| == |a| && |SubAssignResult(a, b)| == |a|
      && |AddAssignScaledResult(a, f, b)| == |a|
  {
    TrimSpec(AddPadded(a, b));
    TrimSpec(SubPadded(a, b));
    TrimSpec(AddScaledPadded(a, f, b));
  }

  /** Cancelling leading terms: `(X + 1) - X` leaves `[1, 0]` in `self`, a
      vector `degree` refuses. */
  lemma SubAssignLeavesTrailingZero()
    ensures DegreesDefined([1, 1], [0, 1])
    ensures SubAssignResult([1, 1], [0, 1]) == [1, 0]
    ensures !HasDegree(SubAssignResult([1, 1], [0, 1]))
  {
    assert [1, 1][1] != 0 && [0, 1][1] != 0;
    var d := SubPadded([1, 1], [0, 1]);
    assert d[0] == Sub(1, 0) == 1;
    assert d[1] == Sub(1, 1) == 0;
    assert d == [1, 0];
    assert [1, 0][0] != 0;
  }

  /** The same for addition: `(X + 1) + (-X)` leaves `[1, 0]` in `self`. */
  lemma AddAssignLeavesTrailingZero()
    ensures DegreesDefined([1, 1], [0, R - 1])
    ensures AddAssignResult([1, 1], [0, R - 1]) == [1, 0]
    ensures !HasDegree(AddAssignResult([1, 1], [0, R - 1]))
  {
    assert [1, 1][1] != 0 && [0, R - 1][1] != 0;
    var s := AddPadded([1, 1], [0, R - 1]);
    assert s[0] == Add(1, 0) == 1;
    assert s[1] == Add(1, R - 1) == 0;
    assert s == [1, 0];
    assert [1, 0][0] != 0;
  }

  // ---------------------------------------------------------------------
  // Sum and iter_add

  /** `Sum`: a left fold of `&res + &val` starting from the zero polynomial. */
  function SumOf(cs: seq<Coeffs>): Coeffs
    decreases |cs|
  {
    if cs == [] then [] else Trim(AddPadded(SumOf(cs[..|cs| - 1]), cs[|cs| - 1]))
  }

  /** The fold never asks `degree` of a summand that has none. */
  predicate SumDefined(cs: seq<Coeffs>)
  {
    forall k | 0 <= k < |cs| :: !IsZero(SumOf(cs[..k])) && !IsZero(cs[k]) ==> HasDegree(cs[k])
  }

  /** Coefficient `i` of the sum of the first `k` summands, added field-wise. */
  function ColumnSum(cs: seq<Coeffs>, i: int): Scalar
    decreases |cs|
  {
    if cs == [] then 0 else Add(ColumnSum(cs[..|cs| - 1], i), Coeff(cs[|cs| - 1], i))
  }

  /** The sum is normalised and coefficient-wise the sum of the summands. */
  lemma {:induction false} SumOfCoeffwise(cs: seq<Coeffs>)
    ensures Normalized(SumOf(cs))
    ensures forall i :: Coeff(SumOf(cs), i) == ColumnSum(cs, i)
    decreases |cs|
  {
    if cs != [] {
      SumOfCoeffwise(cs[..|cs| - 1]);
      SumOfPolynomials(SumOf(cs[..|cs| - 1]), cs[|cs| - 1]);
    }
  }

  /** `iter_add`: empty operands are returned as they are; otherwise the
      padded coefficient-wise sum, normalised. */
  function IterAddResult(a: Coeffs, b: Coeffs): Coeffs
  {
    if |a| == 0 then b else if |b| == 0 then a else Trim(AddPadded(a, b))
  }

  /** On normalised operands `iter_add` agrees with `&a + &b`. */
  lemma IterAddAgreesWithAdd(a: Coeffs, b: Coeffs)
    requires Normalized(a) && Normalized(b)
    ensures IterAddResult(a, b) == Trim(AddPadded(a, b))
  {
    if |a| == 0 {
      assert AddPadded(a, b) == b;
      TrimNormalized(b);
    } else if |b| == 0 {
      assert AddPadded(a, b) == a;
      TrimNormalized(a);
    }
  }

  // ---------------------------------------------------------------------
  // Facts the Polynomial methods rely on

  /** The normal form depends only on the coefficients, not on how many
      trailing zeros a vector carries. */
  lemma TrimDeterminedByCoeffs(x: Coeffs, y: Coeffs)
    requires forall i :: Coeff(x, i) == Coeff(y, i)
    ensures Trim(x) == Trim(y)
  {
    TrimSpec(x);
    TrimSpec(y);
    var k := |Trim(y)|;
    if k > 0 {
      assert Coeff(x, k - 1) == Coeff(y, k - 1) == Trim(y)[k - 1] != 0;
    }
    forall i | 0 <= i < k
      ensures x[i] == y[i]
    {
      assert Coeff(x, i) == Coeff(y, i);
    }
    assert x[..k] == y[..k];
    forall i | k <= i < |x|
      ensures x[i] == 0
    {
      assert Coeff(x, i) == Coeff(y, i);
    }
    TrimUnique(x, k);
  }

  lemma AddPaddedCommutes(a: Coeffs, b: Coeffs)
    ensures AddPadded(a, b) == AddPadded(b, a)
  {
  }

  /** Subtracting from the zero polynomial, resized to the other operand,
      is negation. */
  lemma SubFromZero(a: Coeffs, b: Coeffs)
    requires IsZero(a)
    ensures SubPadded(Resized(a, |b|), b) == Negated(b)
  {
    var l, r := SubPadded(Resized(a, |b|), b), Negated(b);
    forall i | 0 <= i < |b|
      ensures l[i] == r[i]
    {
      assert Coeff(Resized(a, |b|), i) == Coeff(a, i) == 0;
    }
  }

  /** `&p * &c` is the normalised coefficient-wise product. */
  lemma MulConstantCoeffwise(p: Coeffs, c: Scalar)
    ensures Normalized(MulConstant(p, c))
    ensures forall i :: Coeff(MulConstant(p, c), i) == Mul(Coeff(p, i), c)
  {
    if IsZero(p) || c == 0 {
      forall i
        ensures Mul(Coeff(p, i), c) == 0
      {
        if IsZero(p) {
          assert Coeff(p, i) == 0;
          MulZero(c);
        } else {
          MulZero(Coeff(p, i));
        }
      }
    } else {
      MulZero(c);
      TrimSpec(Scale(p, c));
      TrimCoeff(Scale(p, c));
    }
  }

  /** `&p + &c` changes coefficient 0 only, and is normalised when `p` is
      zero. */
  lemma AddConstantCoeffwise(p: Coeffs, c: Scalar)
    ensures forall i :: Coeff(AddConstant(p, c), i) == (if i == 0 then Add(Coeff(p, 0), c) else Coeff(p, i))
    ensures IsZero(p) ==> Normalized(AddConstant(p, c))
    ensures !IsZero(p) ==> |AddConstant(p, c)| == |p|
  {
    if IsZero(p) {
      TrimCoeff([c]);
      TrimSpec([c]);
      forall i
        ensures Coeff(AddConstant(p, c), i) == (if i == 0 then Add(Coeff(p, 0), c) else Coeff(p, i))
      {
        assert Coeff(p, i) == 0;
      }
    }
  }

  /** `&p - &c` is `p` with `c` subtracted from coefficient 0. */
  lemma SubConstantCoeffwise(p: Coeffs, c: Scalar)
    ensures forall i :: Coeff(SubConstant(p, c), i) == (if i == 0 then Sub(Coeff(p, 0), c) else Coeff(p, i))
  {
    AddConstantCoeffwise(p, Neg(c));
    SubIsAddNeg(Coeff(p, 0), c);
  }

  function Reversed(s: Coeffs): (r: Coeffs)
    ensures |r| == |s|
  {
    seq(|s|, i requires 0 <= i < |s| => s[|s| - 1 - i])
  }
}
