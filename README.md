# PLONK polynomials and verifier scalars in Dafny

This project models two pieces of a Rust PLONK implementation over the
BLS12-381 scalar field and proves properties of them:

- **Coefficient-form polynomials** (`src/fft/polynomial.rs`). A
  `Polynomial` is a vector of field coefficients, and entry `i` is the
  coefficient of `x^i`. The model covers:
  - normalisation, the zero test and the degree;
  - evaluation at a point;
  - coefficient-wise addition and subtraction, both by value and in place,
    including the scaled in-place addition;
  - negation;
  - multiplying by a constant, adding a constant and subtracting one;
  - `Sum` and `iter_add`;
  - `ruffini`, synthetic division by `X - z`.
- **The scalar side of the verifier**
  (`src/constraint_system/standard/proof.rs`). The model covers:
  - the `Proof` record, with `empty` and `set_witness_poly_commitments`;
  - the order in which `verify` appends messages to the Fiat-Shamir
    transcript and draws its challenges;
  - the quotient evaluation;
  - the `(scalar, point)` lists behind the partial opening, batch opening
    and batch evaluation commitments;
  - the two sides of the final pairing check.

The files, one module each:

- `field.dfy` (`Field`): the scalar field, integers modulo the BLS12-381
  order `R`. It proves the ring laws once and defines inversion by
  extended Euclid.
- `polynomial_spec.dfy` (`PolynomialSpec`): the value-level meaning of a
  coefficient vector. It has:
  - `Trim`, the normal form;
  - `EvalSum`, the sum of `c[i] x^i`;
  - the padded coefficient-wise operations;
  - the Ruffini table;
  - the exact result of each in-place operation.

  Its lemmas state what these mean algebraically.
- `polynomial.dfy` (`Polynomials`): the `Polynomial` class. Its field
  `coeffs` is updated in place by loops, as in the source. Every method is
  proved against a function of `PolynomialSpec`.
- `group.dfy` (`Commitments`): curve points as opaque symbols. A
  multiscalar multiplication is the ordered list of pairs it is given.
  `Value` reads a point as a multiple of the generator, which turns a
  combination of points into a field expression.
- `transcript.dfy` (`Transcripts`): the transcript, an append-only log of
  labelled events. A challenge is a function (`derive`) of the whole log.
- `proof.dfy` (`Proofs`): the `Proof` class, the transcript rounds of
  `verify`, the commitment builders and the PLONK reference definitions
  they are proved against: the quotient numerator, the gate, and the
  linearisation polynomial.

`verify` panics in two places: through `EvaluationDomain::new(n).unwrap()`
and through `invert().unwrap()` (src/constraint_system/standard/proof.rs:227).
`Verify` returns `None` for those two panics and `Some(accepted)` otherwise.

## Model

| member | source | states |
|---|---|---|
| `Field.Invert` | src/constraint_system/standard/proof.rs:227 | a returned inverse multiplies back to 1; zero has none |
| `Field.InvertComplete` | src/constraint_system/standard/proof.rs:227 | inversion fails only when no inverse exists |
| `Polynomials.Polynomial.Zero` | src/fft/polynomial.rs:88-90 | `zero()` is the empty coefficient vector |
| `Polynomials.Polynomial.FromCoefficients` | src/fft/polynomial.rs:98-115 | the stored vector is the input with its trailing zeros removed, and it is normalised (the source's assertion holds) |
| `PolynomialSpec.TrimSpec` | src/fft/polynomial.rs:98-133 | the normal form is a prefix of the input, is empty or ends in a non-zero coefficient, and every dropped entry is zero |
| `PolynomialSpec.TrimUnique` | src/fft/polynomial.rs:129-133 | any normalised prefix followed only by zeros is the normal form, so truncation removes exactly the trailing zeros |
| `Polynomials.Polynomial.TruncateLeadingZeros` | src/fft/polynomial.rs:129-133 | the pop loop leaves the normal form of the old coefficients |
| `PolynomialSpec.ZeroIffTrimEmpty` | src/fft/polynomial.rs:93-95 | `is_zero` (empty, or all coefficients zero) holds exactly when the normal form is empty |
| `PolynomialSpec.Degree` | src/fft/polynomial.rs:118-127 | for a non-zero polynomial, the degree indexes a non-zero coefficient with only zeros above it; it is 0 for the zero polynomial |
| `PolynomialSpec.DegreeOfNormalForm` | src/fft/polynomial.rs:118-127 | the degree is the length of the normal form minus one, or 0 for the zero polynomial |
| `Polynomials.Polynomial.Clone` | src/fft/polynomial.rs:13-17 | the derived `clone` is a new polynomial with the same coefficient vector |
| `Polynomials.PowersOfRecurrence` | src/fft/polynomial.rs:140-141 | the powers handed to `evaluate` start at one and each is the previous one times the point |
| `Polynomials.Polynomial.Evaluate` | src/fft/polynomial.rs:135-153 | the running sum of `powers[i] * coeffs[i]` is the sum of `coeffs[i] * point^i` |
| `PolynomialSpec.EvalZero` | src/fft/polynomial.rs:135-140 | the zero polynomial evaluates to zero everywhere |
| `PolynomialSpec.EvalTrim` | src/fft/polynomial.rs:98-115 | trailing zeros do not change the value at any point |
| `PolynomialSpec.HornerIsEvalSum` | src/fft/polynomial.rs:366-387 | Horner's rule from the leading coefficient down computes the sum of `c[i] x^i` |
| `Polynomials.Polynomial.Plus` | src/fft/polynomial.rs:181-205 | every branch of `&a + &b` yields the normal form of the zero-padded coefficient-wise sum |
| `PolynomialSpec.SumOfPolynomials` | src/fft/polynomial.rs:181-205 | that sum is normalised and its every coefficient is the sum of the operands' coefficients |
| `PolynomialSpec.EvalOfSum` | src/fft/polynomial.rs:181-205 | `(a + b)(x) = a(x) + b(x)` |
| `Polynomials.Polynomial.Minus` | src/fft/polynomial.rs:295-325 | every branch of `&a - &b` yields the normal form of the zero-padded coefficient-wise difference |
| `PolynomialSpec.DifferenceOfPolynomials` | src/fft/polynomial.rs:295-325 | that difference is normalised and its every coefficient is the difference of the operands' coefficients |
| `PolynomialSpec.EvalOfDifference` | src/fft/polynomial.rs:295-325 | `(a - b)(x) = a(x) - b(x)` |
| `PolynomialSpec.SubIsAddNegated` | src/fft/polynomial.rs:295-325 | the padded difference is the padded sum with the negation |
| `Polynomials.Sum` | src/fft/polynomial.rs:168-179 | folding `+` from `zero()` over the items gives the iterated normalised sum of their coefficient vectors |
| `PolynomialSpec.SumOfCoeffwise` | src/fft/polynomial.rs:168-179 | the fold is normalised and its coefficient `i` is the sum of every item's coefficient `i` |
| `Polynomials.IterAdd` | src/fft/polynomial.rs:210-238 | the zipped sums followed by the longer operand's tail, normalised |
| `PolynomialSpec.IterAddAgreesWithAdd` | src/fft/polynomial.rs:210-238 | on normalised operands `iter_add` equals `&a + &b` |
| `Polynomials.Polynomial.AddAssign` | src/fft/polynomial.rs:240-259 | the new coefficients are exactly what each branch of `+=` leaves, normalised only in the branch that extends `self` |
| `PolynomialSpec.AddAssignCoeffwise` | src/fft/polynomial.rs:240-259 | after `+=` every coefficient is the sum of the old coefficients |
| `PolynomialSpec.AddAssignLeavesTrailingZero` | src/fft/polynomial.rs:240-259 | `(1 + X) += -X` leaves `[1, 0]`, a vector with no defined degree |
| `Polynomials.Polynomial.AddAssignScaled` | src/fft/polynomial.rs:261-281 | the new coefficients are exactly what each branch of `+= (f, &other)` leaves |
| `PolynomialSpec.AddAssignScaledCoeffwise` | src/fft/polynomial.rs:261-281 | after `+= (f, &other)` every coefficient is `self[i] + f * other[i]` |
| `Polynomials.Polynomial.SubAssign` | src/fft/polynomial.rs:327-350 | the new coefficients are exactly what each branch of `-=` leaves, normalised only in the branch that extends `self` |
| `PolynomialSpec.SubAssignCoeffwise` | src/fft/polynomial.rs:327-350 | after `-=` every coefficient is the difference of the old coefficients |
| `PolynomialSpec.SubAssignLeavesTrailingZero` | src/fft/polynomial.rs:327-350 | `(1 + X) -= X` leaves `[1, 0]`, a vector with no defined degree |
| `PolynomialSpec.InPlaceNormalisation` | src/fft/polynomial.rs:240-350 | for non-zero operands, the in-place operations normalise when `self` has the lower degree and otherwise keep `self`'s length |
| `Polynomials.Polynomial.Neg` | src/fft/polynomial.rs:283-293 | every coefficient is negated in place |
| `PolynomialSpec.NegatedInvolution` | src/fft/polynomial.rs:283-293 | negation keeps the length and negating twice is the identity |
| `PolynomialSpec.NegatedCancels` | src/fft/polynomial.rs:283-293 | a polynomial plus its negation is zero |
| `PolynomialSpec.EvalOfNegated` | src/fft/polynomial.rs:283-293 | `(-p)(x) = -p(x)` |
| `Polynomials.Polynomial.MulScalar` | src/fft/polynomial.rs:409-424 | `&p * &c` is the empty vector when `p` is zero or `c == 0`, otherwise the normalised scaled vector |
| `PolynomialSpec.MulConstantCoeffwise` | src/fft/polynomial.rs:409-424 | the product is normalised and its every coefficient is `p[i] * c` |
| `PolynomialSpec.EvalOfMulConstant` | src/fft/polynomial.rs:409-424 | `(p * c)(x) = p(x) * c` |
| `Polynomials.Polynomial.AddScalar` | src/fft/polynomial.rs:426-442 | `&p + &c` is the normalised constant `c` when `p` is zero, otherwise `p` with `c` added to coefficient 0 |
| `PolynomialSpec.AddConstantCoeffwise` | src/fft/polynomial.rs:426-442 | only coefficient 0 changes; the result is normalised when `p` is zero and keeps `p`'s length otherwise |
| `PolynomialSpec.EvalOfAddConstant` | src/fft/polynomial.rs:426-442 | `(p + c)(x) = p(x) + c` |
| `Polynomials.Polynomial.SubScalar` | src/fft/polynomial.rs:443-451 | `&p - &c` is `&p + &(-c)` |
| `PolynomialSpec.SubConstantCoeffwise` | src/fft/polynomial.rs:443-451 | only coefficient 0 changes, to `p[0] - c` |
| `Polynomials.Polynomial.Ruffini` | src/fft/polynomial.rs:366-387 | the push/pop/reverse loop returns the normalised Ruffini table without its remainder entry |
| `PolynomialSpec.RuffiniRemainder` | src/fft/polynomial.rs:366-387 | the popped remainder is `p(z)` |
| `PolynomialSpec.RuffiniDivision` | src/fft/polynomial.rs:366-387 | `p = (X - z) q + p(z)` coefficient by coefficient, so `p = (X - z) q` when `z` is a root |
| `PolynomialSpec.RuffiniOfZero` | src/fft/polynomial.rs:366-387 | the zero polynomial divides to zero |
| `PolynomialSpec.RuffiniExamples` | src/fft/polynomial.rs:456-495 | `(X^2 + 4X + 4) / (X + 2) = X + 2` and `(X^2 + X) / X = X + 1` |
| `Commitments.EmptyCommitment` | src/constraint_system/standard/proof.rs:40-67 | `Commitment::empty()` is the zero multiple of the generator, whatever the discrete logarithms of the other points are |
| `Commitments.MultiscalarSumValue` | src/constraint_system/standard/proof.rs:297-298 | `multiscalar_mul` followed by `sum_points` is the weighted sum of the points, `scalars[0] * points[0] + ... + scalars[n-1] * points[n-1]` |
| `Proofs.Proof.OpeningLhsValue` | src/constraint_system/standard/proof.rs:176-179 | the first argument of the left pairing is `w_z + u * w_zw` |
| `Proofs.Proof.OpeningRhsValue` | src/constraint_system/standard/proof.rs:181-188 | the first argument of the right pairing is `z * w_z + (u * z * omega) * w_zw + f - e` |
| `Commitments.TermsValueConcat` | src/constraint_system/standard/proof.rs:297-298 | the value of a combination is additive over its terms |
| `Proofs.Proof.Empty` | src/constraint_system/standard/proof.rs:40-67 | all nine commitments are the identity and all seven evaluations are zero |
| `Proofs.Proof.SetWitnessPolyCommitments` | src/constraint_system/standard/proof.rs:71-80 | the three wire commitments are overwritten and every other field is unchanged |
| `Proofs.Proof.RunWitnessRound` | src/constraint_system/standard/proof.rs:93-99 | `w_l, w_r, w_o` are appended, then `beta` is drawn from that log |
| `Proofs.Proof.RunPermutationRound` | src/constraint_system/standard/proof.rs:100-105 | `beta` is appended, `gamma` is drawn, `z` is appended, `alpha` is drawn, each challenge from the log up to its request |
| `Proofs.Proof.RunQuotientRound` | src/constraint_system/standard/proof.rs:106-111 | `t_lo, t_mid, t_hi` are appended, then the challenge `z` is drawn |
| `Proofs.Proof.RunEvaluationRound` | src/constraint_system/standard/proof.rs:132-143 | the eight evaluations are appended in the order `a, b, c, left_sig, right_sig, perm, t, r`, then `v` is drawn |
| `Proofs.Proof.RunOpeningRound` | src/constraint_system/standard/proof.rs:144-149 | `w_z, w_z_w` are appended, then `u` is drawn |
| `Proofs.Proof.Verify` | src/constraint_system/standard/proof.rs:82-193 | panics on a missing domain or a non-invertible `Z_H(z)`; otherwise the whole transcript is in source order, each challenge is bound to the log before it, and the verdict is the pairing equality over the commitments built from those challenges |
| `Proofs.Proof.QuotientEvaluation` | src/constraint_system/standard/proof.rs:195-230 | `t * Z_H(z)` is the PLONK quotient numerator `r + PI alpha - alpha^2 zhat (a + beta s1 + gamma)(b + beta s2 + gamma)(c + gamma) - L1 alpha^3` |
| `Proofs.Proof.QuotientEvaluationUnique` | src/constraint_system/standard/proof.rs:195-230 | that property determines `t`: any scalar with it is the quotient evaluation |
| `Proofs.QuotientNumeratorGrouping` | src/constraint_system/standard/proof.rs:195-226 | the source's grouping of the three parts equals the reference numerator |
| `Proofs.Proof.PartialOpeningCommitment` | src/constraint_system/standard/proof.rs:232-300 | the seven pushed pairs are the selector, permutation and third-sigma commitments with the source's scalars, in order |
| `Proofs.Proof.PartialOpeningIsLinearisation` | src/constraint_system/standard/proof.rs:232-300 | read as field values, those pairs sum to `v r(X) + v^7 u Z(X)`, where `r` is the linearisation polynomial (gate, permutation and `L1` terms, with `K1 = 7`, `K2 = 13`) |
| `Proofs.PartialOpeningIdentity` | src/constraint_system/standard/proof.rs:232-300 | the seven scalars, as grouped by the source, are the expansion of `v` times the linearisation polynomial plus the shifted `Z` term |
| `Proofs.Proof.BatchOpeningCommitment` | src/constraint_system/standard/proof.rs:301-344 | the weights `1, z^n, z^2n, 1, v^2, ..., v^6` go with `t_lo, t_mid, t_hi, d, a, b, c, left_sigma, right_sigma`, in that order |
| `Proofs.Proof.BatchOpeningRecombinesQuotient` | src/constraint_system/standard/proof.rs:301-344 | the three quotient weights reassemble a quotient split into pieces of `n` coefficients into its value at `z` |
| `Proofs.QuotientSplit` | src/constraint_system/standard/proof.rs:301-344 | `(lo ++ mid ++ hi)(z) = lo(z) + z^n mid(z) + z^2n hi(z)` when `lo` and `mid` have `n` coefficients |
| `Proofs.Proof.BatchEvaluationCommitment` | src/constraint_system/standard/proof.rs:345-369 | the loop's running sum is `t + v r + v^2 a + ... + v^6 s2 + v^7 u zhat`, the polynomial with those coefficients at `v`, applied to `vk.g` |

## Left out

- Polynomial multiplication (`Mul<&Polynomial>`, src/fft/polynomial.rs:391-407) is not modelled. It goes through `EvaluationDomain` and `Evaluations` FFT code that is not part of this model.
- `Polynomial::rand` is not modelled. It draws from an external random number generator.
- The serde `Serialize`/`Deserialize` implementations and the bincode round-trip test are not modelled. They are codec glue over external crates.
- `leading_coefficient` and `iter_with_index` (src/fft/polynomial.rs:355-363) are not modelled. Nothing in the file calls them.
- rayon parallel iterators are modelled as sequential loops. The results do not depend on the order.
- BLS12-381 field internals are not modelled: Montgomery form, limb arithmetic and the 255-bit `pow`. `Scalar` is an integer modulo the field order `R`. The primality of `R` is not proved, so `Invert` states only what it returns.
- Curve points, `multiscalar_mul`, `sum_points` and the point arithmetic of the final check are symbolic. A point is the ordered list of `(scalar, point)` pairs it was built from. The pairing is an uninterpreted parameter of `Verify`. The pairing equation itself is not proved sound.
- The transcript hash (`TranscriptProtocol`) is the parameter `derive` of a `Transcript`. A challenge is `derive` applied to the log ending in its request.
- `EvaluationDomain` enters `Verify` as the parameter `domain`. It supplies the group generator, `Z_H(z)`, `L_1(z)` and the inverse FFT. A failing `EvaluationDomain::new(n)` is `domain == None`.
- `util::powers_of`, whose code is not shown, is stood in for by `PowersOf`, which returns `[1, x, ..., x^(n-1)]`.
- The third coset generator `K3 = 17` (src/permutation/constants.rs:5) is not used by the verifier, so it is not declared.
- `usize` widths are not modelled. Sizes, and the exponent `2 * n` of the batch opening, are unbounded naturals.
- `degree` panics on a vector with trailing zeros that is not all zero. The model makes that a precondition, `HasDegree`. `AddAssign`, `AddAssignScaled`, `SubAssign`, `Plus`, `Minus`, `Ruffini` and `Sum` require it of the operands they take the degree of (`DegreesDefined`, `SumDefined`).
- Polynomials.Polynomial.AddAssign: requires `other != this`, because Rust's borrow rules forbid `p += &p`.
- Polynomials.Polynomial.AddAssignScaled: requires `other != this`, because Rust's borrow rules forbid it.
- Polynomials.Polynomial.SubAssign: requires `other != this`, because Rust's borrow rules forbid `p -= &p`.
- Proofs.Proof.QuotientEvaluation: requires that `Z_H(z)` is invertible, because the source's `invert().unwrap()` panics otherwise. `Verify` models that panic as `None`.
