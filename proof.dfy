/** The scalar side of the PLONK verifier: the `Proof` record, the order in
    which `verify` feeds the transcript and draws its challenges, and the
    field formulas that weight the commitments.  Points stay symbolic (see
    `Commitments`); the pairing, the transcript hash and the evaluation
    domain are parameters. */
module Proofs {
  import opened Field
  import opened PolynomialSpec
  import opened Polynomials
  import opened Commitments
  import opened Transcripts

  /** The coset generators of the permutation argument (the third, 17, is
      not used by the verifier). */
  const K1: Scalar := 7
  const K2: Scalar := 13

  /** The evaluations the prover sends at the challenge point `z`. */
  datatype ProofEvaluations = ProofEvaluations(
    aEval: Scalar,
    bEval: Scalar,
    cEval: Scalar,
    leftSigmaEval: Scalar,
    rightSigmaEval: Scalar,
    linPolyEval: Scalar,
    permEval: Scalar)

  /** The commitments of the preprocessed circuit of size `n`. */
  datatype PreProcessedCircuit = PreProcessedCircuit(
    n: nat,
    qm: Commitment,
    ql: Commitment,
    qr: Commitment,
    qo: Commitment,
    qc: Commitment,
    leftSigma: Commitment,
    rightSigma: Commitment,
    outSigma: Commitment)

  datatype VerifierKey = VerifierKey(g: Point, h: G2Point, betaH: G2Point)

  /** What `verify` takes from `EvaluationDomain::new(n)`: the generator of
      the subgroup, `Z_H(x)`, `L_1(x)` and the inverse FFT. */
  datatype Domain = Domain(
    groupGen: Scalar,
    vanishing: Scalar -> Scalar,
    firstLagrange: Scalar -> Scalar,
    ifft: seq<Scalar> -> seq<Scalar>)

  class Proof {
    var aComm: Commitment
    var bComm: Commitment
    var cComm: Commitment
    var zComm: Commitment
    var tLoComm: Commitment
    var tMidComm: Commitment
    var tHiComm: Commitment
    var wZComm: Commitment
    var wZwComm: Commitment
    var evaluations: ProofEvaluations

    /** `Proof::empty`: every commitment is the identity and every
        evaluation zero. */
    constructor Empty()
      ensures aComm == bComm == cComm == zComm == EmptyCommitment()
      ensures tLoComm == tMidComm == tHiComm == EmptyCommitment()
      ensures wZComm == wZwComm == EmptyCommitment()
      ensures evaluations == ProofEvaluations(0, 0, 0, 0, 0, 0, 0)
    {
      aComm, bComm, cComm := EmptyCommitment(), EmptyCommitment(), EmptyCommitment();
      zComm := EmptyCommitment();
      tLoComm, tMidComm, tHiComm := EmptyCommitment(), EmptyCommitment(), EmptyCommitment();
      wZComm, wZwComm := EmptyCommitment(), EmptyCommitment();
      evaluations := ProofEvaluations(0, 0, 0, 0, 0, 0, 0);
    }

    /** `set_witness_poly_commitments`: overwrites the three wire
        commitments and nothing else. */
    method SetWitnessPolyCommitments(a: Commitment, b: Commitment, c: Commitment)
      modifies this
      ensures aComm == a && bComm == b && cComm == c
      ensures zComm == old(zComm) && evaluations == old(evaluations)
      ensures tLoComm == old(tLoComm) && tMidComm == old(tMidComm) && tHiComm == old(tHiComm)
      ensures wZComm == old(wZComm) && wZwComm == old(wZwComm)
    {
      aComm := a;
      bComm := b;
      cComm := c;
    }

    // -------------------------------------------------------------------
    // Transcript rounds of `verify`

    /** The wire commitments, then the request for `beta`. */
    function WitnessRound(): (r: seq<Event>)
      reads this
      ensures |r| == 4
    {
      [CommitmentAppended("w_l", aComm), CommitmentAppended("w_r", bComm),
       CommitmentAppended("w_o", cComm), ChallengeDrawn("beta")]
    }

    /** `beta` itself, the request for `gamma`, the permutation commitment,
        the request for `alpha`. */
    function PermutationRound(beta: Scalar): (r: seq<Event>)
      reads this
      ensures |r| == 4
    {
      [ScalarAppended("beta", beta), ChallengeDrawn("gamma"),
       CommitmentAppended("z", zComm), ChallengeDrawn("alpha")]
    }

    /** The three quotient commitments, then the request for `z`. */
    function QuotientRound(): (r: seq<Event>)
      reads this
      ensures |r| == 4
    {
      [CommitmentAppended("t_lo", tLoComm), CommitmentAppended("t_mid", tMidComm),
       CommitmentAppended("t_hi", tHiComm), ChallengeDrawn("z")]
    }

    /** The eight evaluations, then the request for `v`. */
    function EvaluationRound(tEval: Scalar): (r: seq<Event>)
      reads this
      ensures |r| == 9
    {
      [ScalarAppended("a_eval", evaluations.aEval),
       ScalarAppended("b_eval", evaluations.bEval),
       ScalarAppended("c_eval", evaluations.cEval),
       ScalarAppended("left_sig_eval", evaluations.leftSigmaEval),
       ScalarAppended("right_sig_eval", evaluations.rightSigmaEval),
       ScalarAppended("perm_eval", evaluations.permEval),
       ScalarAppended("t_eval", tEval),
       ScalarAppended("r_eval", evaluations.linPolyEval),
       ChallengeDrawn("v")]
    }

    /** The two opening commitments, then the request for `u`. */
    function OpeningRound(): (r: seq<Event>)
      reads this
      ensures |r| == 3
    {
      [CommitmentAppended("w_z", wZComm), CommitmentAppended("w_z_w", wZwComm),
       ChallengeDrawn("u")]
    }

    // -------------------------------------------------------------------
    // Field formulas

    /** `compute_quotient_evaluation`: the numerator of the quotient
        polynomial at `z` divided by `Z_H(z)`; the inversion must succeed. */
    function QuotientEvaluation(piEval: Scalar, alpha: Scalar, beta: Scalar, gamma: Scalar,
                                l1Eval: Scalar, zhEval: Scalar, zHatEval: Scalar): (t: Scalar)
      reads this
      requires Invert(zhEval).Some?
      ensures Mul(t, zhEval) == QuotientNumerator(evaluations, piEval, alpha, beta, gamma, l1Eval, zHatEval)
    {
      var e := evaluations;
      var alphaSq := Mul(alpha, alpha);
      var alphaCu := Mul(alphaSq, alpha);
      var a := Add(e.linPolyEval, Mul(piEval, alpha));
      var b0 := Add(Add(e.aEval, Mul(beta, e.leftSigmaEval)), gamma);
      var b1 := Add(Add(e.bEval, Mul(beta, e.rightSigmaEval)), gamma);
      var b2 := Mul(Mul(Add(e.cEval, gamma), zHatEval), alphaSq);
      var b := Mul(Mul(b0, b1), b2);
      var c := Mul(l1Eval, alphaCu);
      var inv := Invert(zhEval).value;
      QuotientNumeratorGrouping(e, piEval, alpha, beta, gamma, l1Eval, zHatEval);
      CancelInverse(Sub(Sub(a, b), c), zhEval, inv);
      Mul(Sub(Sub(a, b), c), inv)
    }

    /** The quotient evaluation is the only scalar that `Z_H(z)` multiplies
        back to the numerator. */
    lemma QuotientEvaluationUnique(piEval: Scalar, alpha: Scalar, beta: Scalar, gamma: Scalar,
                                   l1Eval: Scalar, zhEval: Scalar, zHatEval: Scalar, t: Scalar)
      requires Invert(zhEval).Some?
      requires Mul(t, zhEval) == QuotientNumerator(evaluations, piEval, alpha, beta, gamma, l1Eval, zHatEval)
      ensures t == QuotientEvaluation(piEval, alpha, beta, gamma, l1Eval, zhEval, zHatEval)
    {
      var t0 := QuotientEvaluation(piEval, alpha, beta, gamma, l1Eval, zhEval, zHatEval);
      var inv := Invert(zhEval).value;
      CancelFactor(t, zhEval, inv);
      CancelFactor(t0, zhEval, inv);
    }

    /** The seven `(scalar, point)` pairs `compute_partial_opening_commitment`
        hands to the multiscalar multiplication, in order: the five selector
        commitments, the permutation commitment and the third sigma. */
    function PartialOpeningTerms(alpha: Scalar, beta: Scalar, gamma: Scalar, z: Scalar,
                                 u: Scalar, v: Scalar, l1Eval: Scalar,
                                 circuit: PreProcessedCircuit): (ts: seq<Term>)
      reads this
      ensures |ts| == 7
    {
      var ss := PartialOpeningScalars(evaluations, alpha, beta, gamma, z, u, v, l1Eval);
      [Term(ss[0], circuit.qm.point), Term(ss[1], circuit.ql.point),
       Term(ss[2], circuit.qr.point), Term(ss[3], circuit.qo.point),
       Term(ss[4], circuit.qc.point), Term(ss[5], zComm.point),
       Term(ss[6], circuit.outSigma.point)]
    }

    /** With `dlog` giving each opaque point as a multiple of the generator,
        the partial opening commitment is `v r(X) + v^7 u Z(X)`: `v` times
        the linearisation polynomial, built from the selector, permutation
        and third-sigma commitments, plus the permutation commitment
        weighted for the shifted opening. */
    lemma PartialOpeningIsLinearisation(alpha: Scalar, beta: Scalar, gamma: Scalar, z: Scalar,
                                        u: Scalar, v: Scalar, l1Eval: Scalar,
                                        circuit: PreProcessedCircuit, dlog: nat -> Scalar)
      ensures TermsValue(PartialOpeningTerms(alpha, beta, gamma, z, u, v, l1Eval, circuit), dlog)
              == Add(Mul(v, Linearisation(evaluations, alpha, beta, gamma, z, l1Eval,
                                          Value(circuit.qm.point, dlog), Value(circuit.ql.point, dlog),
                                          Value(circuit.qr.point, dlog), Value(circuit.qo.point, dlog),
                                          Value(circuit.qc.point, dlog), Value(zComm.point, dlog),
                                          Value(circuit.outSigma.point, dlog))),
                     Mul(Mul(Pow(v, 7), u), Value(zComm.point, dlog)))
    {
      var ts := PartialOpeningTerms(alpha, beta, gamma, z, u, v, l1Eval, circuit);
      var ss := PartialOpeningScalars(evaluations, alpha, beta, gamma, z, u, v, l1Eval);
      var ps := [Value(circuit.qm.point, dlog), Value(circuit.ql.point, dlog),
                 Value(circuit.qr.point, dlog), Value(circuit.qo.point, dlog),
                 Value(circuit.qc.point, dlog), Value(zComm.point, dlog),
                 Value(circuit.outSigma.point, dlog)];
      TermsValueSeven(ts, ss, ps, dlog);
      PartialOpeningIdentity(evaluations, alpha, beta, gamma, z, u, v, l1Eval,
                             ps[0], ps[1], ps[2], ps[3], ps[4], ps[5], ps[6]);
    }

    /** `compute_partial_opening_commitment`: pushes the seven pairs and
        sums the products. */
    method PartialOpeningCommitment(alpha: Scalar, beta: Scalar, gamma: Scalar, z: Scalar,
                                    u: Scalar, v: Scalar, l1Eval: Scalar,
                                    circuit: PreProcessedCircuit) returns (d: Point)
      ensures d == Combination(PartialOpeningTerms(alpha, beta, gamma, z, u, v, l1Eval, circuit))
    {
      var e := evaluations;
      var scalars: seq<Scalar> := [];
      var points: seq<Point> := [];
      scalars := scalars + [Mul(Mul(Mul(e.aEval, e.bEval), alpha), v)];
      points := points + [circuit.qm.point];
      scalars := scalars + [Mul(Mul(e.aEval, alpha), v)];
      points := points + [circuit.ql.point];
      scalars := scalars + [Mul(Mul(e.bEval, alpha), v)];
      points := points + [circuit.qr.point];
      scalars := scalars + [Mul(Mul(e.cEval, alpha), v)];
      points := points + [circuit.qo.point];
      scalars := scalars + [Mul(alpha, v)];
      points := points + [circuit.qc.point];

      var betaZ := Mul(beta, z);
      var q0 := Add(Add(e.aEval, betaZ), gamma);
      var betaK1Z := Mul(Mul(beta, K1), z);
      var q1 := Add(Add(e.bEval, betaK1Z), gamma);
      var betaK2Z := Mul(Mul(beta, K2), z);
      var q2 := Mul(Mul(Mul(Add(Add(e.cEval, betaK2Z), gamma), alpha), alpha), v);
      var x := Mul(Mul(q0, q1), q2);
      var r := Mul(Mul(l1Eval, Pow(alpha, 3)), v);
      var s := Mul(Pow(v, 7), u);
      scalars := scalars + [Add(Add(x, r), s)];
      points := points + [zComm.point];

      var betaSigma1 := Mul(beta, e.leftSigmaEval);
      var p0 := Add(Add(e.aEval, betaSigma1), gamma);
      var betaSigma2 := Mul(beta, e.rightSigmaEval);
      var p1 := Add(Add(e.bEval, betaSigma2), gamma);
      var p2 := Mul(Mul(Mul(Mul(beta, e.permEval), alpha), alpha), v);
      var y := Mul(Mul(p0, p1), p2);
      scalars := scalars + [Field.Neg(y)];
      points := points + [circuit.outSigma.point];

      d := MultiscalarSum(scalars, points);
    }

    /** The nine pairs of `compute_batch_opening_commitment`: the quotient
        pieces weighted `1, z^n, z^2n`, then the partial opening `d` and the
        five opened polynomials weighted `1, v^2, ..., v^6`. */
    function BatchOpeningTerms(z: Scalar, v: Scalar, d: Point, circuit: PreProcessedCircuit): (ts: seq<Term>)
      reads this
      ensures |ts| == 9
    {
      [Term(1, tLoComm.point),
       Term(Pow(z, circuit.n), tMidComm.point),
       Term(Pow(z, 2 * circuit.n), tHiComm.point),
       Term(1, d),
       Term(Pow(v, 2), aComm.point),
       Term(Pow(v, 3), bComm.point),
       Term(Pow(v, 4), cComm.point),
       Term(Pow(v, 5), circuit.leftSigma.point),
       Term(Pow(v, 6), circuit.rightSigma.point)]
    }

    /** `compute_batch_opening_commitment`. */
    method BatchOpeningCommitment(z: Scalar, v: Scalar, d: Point, circuit: PreProcessedCircuit)
      returns (f: Point)
      ensures f == Combination(BatchOpeningTerms(z, v, d, circuit))
    {
      var n := circuit.n;
      var zN := Pow(z, n);
      var zTwoN := Pow(z, 2 * n);
      var scalars: seq<Scalar> := [];
      var points: seq<Point> := [];
      scalars := scalars + [1];
      points := points + [tLoComm.point];
      scalars := scalars + [zN];
      points := points + [tMidComm.point];
      scalars := scalars + [zTwoN];
      points := points + [tHiComm.point];
      scalars := scalars + [1];
      points := points + [d];
      scalars := scalars + [Pow(v, 2)];
      points := points + [aComm.point];
      scalars := scalars + [Pow(v, 3)];
      points := points + [bComm.point];
      scalars := scalars + [Pow(v, 4)];
      points := points + [cComm.point];
      scalars := scalars + [Pow(v, 5)];
      points := points + [circuit.leftSigma.point];
      scalars := scalars + [Pow(v, 6)];
      points := points + [circuit.rightSigma.point];
      f := MultiscalarSum(scalars, points);
    }

    /** The weights of the three quotient commitments, `1, z^n, z^2n`, are
        the ones that reassemble a quotient split into pieces of `n`
        coefficients: applied to the pieces' values at `z`, they give the
        whole quotient's value at `z`. */
    lemma BatchOpeningRecombinesQuotient(z: Scalar, v: Scalar, d: Point, circuit: PreProcessedCircuit,
                                         lo: Coeffs, mid: Coeffs, hi: Coeffs)
      requires |lo| == circuit.n && |mid| == circuit.n
      ensures
        var ts := BatchOpeningTerms(z, v, d, circuit);
        Add(Add(Mul(ts[0].scalar, EvalSum(lo, z)), Mul(ts[1].scalar, EvalSum(mid, z))),
            Mul(ts[2].scalar, EvalSum(hi, z)))
        == EvalSum(lo + mid + hi, z)
    {
      MulOne(EvalSum(lo, z));
      QuotientSplit(lo, mid, hi, z, circuit.n);
    }

    /** The values the batch evaluation weights by `1, v, ..., v^7`. */
    function BatchEvaluationValues(u: Scalar, tEval: Scalar): (vs: seq<Scalar>)
      reads this
      ensures |vs| == 8
    {
      [tEval, evaluations.linPolyEval, evaluations.aEval, evaluations.bEval,
       evaluations.cEval, evaluations.leftSigmaEval, evaluations.rightSigmaEval,
       Mul(u, evaluations.permEval)]
    }

    /** `compute_batch_evaluation_commitment`: the running sum of
        `weight * value` over the eight pairs, times `vk.g`.  The scalar is
        the polynomial with the listed values as coefficients, at `v`. */
    method BatchEvaluationCommitment(u: Scalar, v: Scalar, tEval: Scalar, vk: VerifierKey)
      returns (e: Point)
      ensures e == Combination([Term(EvalSum(BatchEvaluationValues(u, tEval), v), vk.g)])
    {
      var ev := evaluations;
      var pairs: seq<(Scalar, Scalar)> := [
        (1, tEval),
        (v, ev.linPolyEval),
        (Pow(v, 2), ev.aEval),
        (Pow(v, 3), ev.bEval),
        (Pow(v, 4), ev.cEval),
        (Pow(v, 5), ev.leftSigmaEval),
        (Pow(v, 6), ev.rightSigmaEval),
        (Pow(v, 7), Mul(u, ev.permEval))];
      ghost var values := BatchEvaluationValues(u, tEval);
      assert Pow(v, 1) == v by {
        MulOne(v);
      }
      assert forall k | 0 <= k < |pairs| :: pairs[k] == (Pow(v, k), values[k]);
      var result: Scalar := 0;
      var i := 0;
      while i < |pairs|
        invariant 0 <= i <= |pairs|
        invariant result == EvalSum(values[..i], v)
      {
        EvalSumStep(values, i, v);
        result := Add(result, Mul(pairs[i].0, pairs[i].1));
        i := i + 1;
      }
      assert values[..i] == values;
      e := Combination([Term(result, vk.g)]);
    }

    /** The first argument of the left pairing: `w_z + u * w_zw`. */
    function OpeningLhs(u: Scalar): Point
      reads this
    {
      Combination([Term(1, wZComm.point), Term(u, wZwComm.point)])
    }

    /** The first argument of the right pairing:
        `z * w_z + (u * z * omega) * w_zw + f - e`. */
    function OpeningRhs(z: Scalar, u: Scalar, groupGen: Scalar, f: Point, e: Point): Point
      reads this
    {
      Combination([Term(z, wZComm.point), Term(Mul(Mul(u, z), groupGen), wZwComm.point),
                   Term(1, f), Term(Field.Neg(1), e)])
    }

    /** Read through discrete logarithms, `OpeningLhs(u)` is `w_z + u * w_zw`. */
    lemma OpeningLhsValue(u: Scalar, dlog: nat -> Scalar)
      ensures Value(OpeningLhs(u), dlog)
              == Add(Value(wZComm.point, dlog), Mul(u, Value(wZwComm.point, dlog)))
    {
      var t0, t1 := Term(1, wZComm.point), Term(u, wZwComm.point);
      TermsValueEmpty(dlog);
      TermsValueSnoc([], t0, dlog);
      assert [] + [t0] == [t0];
      TermsValueSnoc([t0], t1, dlog);
      assert [t0] + [t1] == [t0, t1];
      MulOne(Value(wZComm.point, dlog));
      AddZero(Value(wZComm.point, dlog));
    }

    /** Read through discrete logarithms, `OpeningRhs` is
        `z * w_z + (u * z * omega) * w_zw + f - e`. */
    lemma OpeningRhsValue(z: Scalar, u: Scalar, groupGen: Scalar, f: Point, e: Point,
                          dlog: nat -> Scalar)
      ensures Value(OpeningRhs(z, u, groupGen, f, e), dlog)
              == Sub(Add(Add(Mul(z, Value(wZComm.point, dlog)),
                             Mul(Mul(Mul(u, z), groupGen), Value(wZwComm.point, dlog))),
                         Value(f, dlog)),
                     Value(e, dlog))
    {
      var t0, t1 := Term(z, wZComm.point), Term(Mul(Mul(u, z), groupGen), wZwComm.point);
      var t2, t3 := Term(1, f), Term(Field.Neg(1), e);
      TermsValueEmpty(dlog);
      TermsValueSnoc([], t0, dlog);
      assert [] + [t0] == [t0];
      TermsValueSnoc([t0], t1, dlog);
      assert [t0] + [t1] == [t0, t1];
      TermsValueSnoc([t0, t1], t2, dlog);
      assert [t0, t1] + [t2] == [t0, t1, t2];
      TermsValueSnoc([t0, t1, t2], t3, dlog);
      assert [t0, t1, t2] + [t3] == [t0, t1, t2, t3];
      AddZero(Mul(z, Value(wZComm.point, dlog)));
      MulOne(Value(f, dlog));
      assert Field.Neg(1) == R - 1;
      MulMinusOne(Value(e, dlog));
      SubIsAddNeg(Add(Add(Mul(z, Value(wZComm.point, dlog)),
                          Mul(Mul(Mul(u, z), groupGen), Value(wZwComm.point, dlog))),
                      Value(f, dlog)),
                  Value(e, dlog));
    }

    /** The wire commitments go in, `beta` comes out. */
    method RunWitnessRound(transcript: Transcript) returns (beta: Scalar)
      modifies transcript
      ensures transcript.log == old(transcript.log) + WitnessRound()
      ensures beta == transcript.derive(transcript.log)
    {
      transcript.AppendCommitment("w_l", aComm);
      transcript.AppendCommitment("w_r", bComm);
      transcript.AppendCommitment("w_o", cComm);
      beta := transcript.ChallengeScalar("beta");
    }

    /** `beta` goes back in, `gamma` comes out; the permutation commitment
        goes in, `alpha` comes out. */
    method RunPermutationRound(transcript: Transcript, beta: Scalar) returns (gamma: Scalar, alpha: Scalar)
      modifies transcript
      ensures transcript.log == old(transcript.log) + PermutationRound(beta)
      ensures gamma == transcript.derive(old(transcript.log) + PermutationRound(beta)[..2])
      ensures alpha == transcript.derive(transcript.log)
    {
      ghost var log0 := transcript.log;
      transcript.AppendScalar("beta", beta);
      gamma := transcript.ChallengeScalar("gamma");
      assert transcript.log == log0 + PermutationRound(beta)[..2];
      transcript.AppendCommitment("z", zComm);
      alpha := transcript.ChallengeScalar("alpha");
    }

    /** The quotient commitments go in, `z` comes out. */
    method RunQuotientRound(transcript: Transcript) returns (z: Scalar)
      modifies transcript
      ensures transcript.log == old(transcript.log) + QuotientRound()
      ensures z == transcript.derive(transcript.log)
    {
      transcript.AppendCommitment("t_lo", tLoComm);
      transcript.AppendCommitment("t_mid", tMidComm);
      transcript.AppendCommitment("t_hi", tHiComm);
      z := transcript.ChallengeScalar("z");
    }

    /** The evaluations go in, `v` comes out. */
    method RunEvaluationRound(transcript: Transcript, tEval: Scalar) returns (v: Scalar)
      modifies transcript
      ensures transcript.log == old(transcript.log) + EvaluationRound(tEval)
      ensures v == transcript.derive(transcript.log)
    {
      transcript.AppendScalar("a_eval", evaluations.aEval);
      transcript.AppendScalar("b_eval", evaluations.bEval);
      transcript.AppendScalar("c_eval", evaluations.cEval);
      transcript.AppendScalar("left_sig_eval", evaluations.leftSigmaEval);
      transcript.AppendScalar("right_sig_eval", evaluations.rightSigmaEval);
      transcript.AppendScalar("perm_eval", evaluations.permEval);
      transcript.AppendScalar("t_eval", tEval);
      transcript.AppendScalar("r_eval", evaluations.linPolyEval);
      v := transcript.ChallengeScalar("v");
    }

    /** The opening commitments go in, `u` comes out. */
    method RunOpeningRound(transcript: Transcript) returns (u: Scalar)
      modifies transcript
      ensures transcript.log == old(transcript.log) + OpeningRound()
      ensures u == transcript.derive(transcript.log)
    {
      transcript.AppendCommitment("w_z", wZComm);
      transcript.AppendCommitment("w_z_w", wZwComm);
      u := transcript.ChallengeScalar("u");
    }

    /** `verify`.  `None` stands for a panic: the domain of size `n` does not
        exist, or `Z_H(z)` has no inverse. */
    method Verify<Gt(==)>(circuit: PreProcessedCircuit, transcript: Transcript, vk: VerifierKey,
                          pubInputs: seq<Scalar>, domain: Option<Domain>,
                          pairing: (Point, G2Point) -> Gt)
      returns (accepted: Option<bool>)
      modifies transcript
      ensures domain.None? ==> accepted.None? && transcript.log == old(transcript.log)
      ensures domain.Some? ==>
        var log0 := old(transcript.log);
        var dom := domain.value;
        var beta := transcript.derive(log0 + WitnessRound());
        var gamma := transcript.derive(log0 + WitnessRound() + PermutationRound(beta)[..2]);
        var alpha := transcript.derive(log0 + WitnessRound() + PermutationRound(beta));
        var log1 := log0 + WitnessRound() + PermutationRound(beta) + QuotientRound();
        var z := transcript.derive(log1);
        var zh := dom.vanishing(z);
        (Invert(zh).None? ==> accepted.None? && transcript.log == log1)
        && (Invert(zh).Some? ==>
              var piEval := EvalSum(dom.ifft(pubInputs), z);
              var l1 := dom.firstLagrange(z);
              var tEval := QuotientEvaluation(piEval, alpha, beta, gamma, l1, zh, evaluations.permEval);
              var v := transcript.derive(log1 + EvaluationRound(tEval));
              var u := transcript.derive(log1 + EvaluationRound(tEval) + OpeningRound());
              var d := Combination(PartialOpeningTerms(alpha, beta, gamma, z, u, v, l1, circuit));
              var f := Combination(BatchOpeningTerms(z, v, d, circuit));
              var e := Combination([Term(EvalSum(BatchEvaluationValues(u, tEval), v), vk.g)]);
              transcript.log == log1 + EvaluationRound(tEval) + OpeningRound()
              && accepted == Some(pairing(OpeningLhs(u), vk.betaH)
                                  == pairing(OpeningRhs(z, u, dom.groupGen, f, e), vk.h)))
    {
      if domain.None? {
        return None;
      }
      var dom := domain.value;
      ghost var log0 := transcript.log;
      var beta := RunWitnessRound(transcript);
      var gamma, alpha := RunPermutationRound(transcript, beta);
      var z := RunQuotientRound(transcript);
      assert transcript.log == log0 + WitnessRound() + PermutationRound(beta) + QuotientRound();

      var zhEval := dom.vanishing(z);
      var l1Eval := dom.firstLagrange(z);
      var piPoly := new Polynomial.FromCoefficients(dom.ifft(pubInputs));
      var piEval := piPoly.Evaluate(z);
      EvalTrim(dom.ifft(pubInputs), z);
      if Invert(zhEval).None? {
        return None;
      }
      var tEval := QuotientEvaluation(piEval, alpha, beta, gamma, l1Eval, zhEval, evaluations.permEval);
      ghost var log1 := transcript.log;
      var v := RunEvaluationRound(transcript, tEval);
      var u := RunOpeningRound(transcript);
      assert transcript.log == log1 + EvaluationRound(tEval) + OpeningRound();

      var dComm := PartialOpeningCommitment(alpha, beta, gamma, z, u, v, l1Eval, circuit);
      var fComm := BatchOpeningCommitment(z, v, dComm, circuit);
      var eComm := BatchEvaluationCommitment(u, v, tEval, vk);

      var lhs := pairing(OpeningLhs(u), vk.betaH);
      var rhs := pairing(OpeningRhs(z, u, dom.groupGen, fComm, eComm), vk.h);
      accepted := Some(lhs == rhs);
    }
  }

  /** The seven scalars of the partial opening commitment, grouped as
      `compute_partial_opening_commitment` groups them. */
  function PartialOpeningScalars(e: ProofEvaluations, alpha: Scalar, beta: Scalar, gamma: Scalar,
                                 z: Scalar, u: Scalar, v: Scalar, l1Eval: Scalar): (ss: seq<Scalar>)
    ensures |ss| == 7
  {
    var x := Mul(Mul(Add(Add(e.aEval, Mul(beta, z)), gamma),
                     Add(Add(e.bEval, Mul(Mul(beta, K1), z)), gamma)),
                 Mul(Mul(Mul(Add(Add(e.cEval, Mul(Mul(beta, K2), z)), gamma), alpha), alpha), v));
    var r := Mul(Mul(l1Eval, Pow(alpha, 3)), v);
    var s := Mul(Pow(v, 7), u);
    var y := Mul(Mul(Add(Add(e.aEval, Mul(beta, e.leftSigmaEval)), gamma),
                     Add(Add(e.bEval, Mul(beta, e.rightSigmaEval)), gamma)),
                 Mul(Mul(Mul(Mul(beta, e.permEval), alpha), alpha), v));
    [Mul(Mul(Mul(e.aEval, e.bEval), alpha), v),
     Mul(Mul(e.aEval, alpha), v),
     Mul(Mul(e.bEval, alpha), v),
     Mul(Mul(e.cEval, alpha), v),
     Mul(alpha, v),
     Add(Add(x, r), s),
     Field.Neg(y)]
  }

  // ---------------------------------------------------------------------
  // Reference definitions

  /** The numerator of the quotient polynomial at `z` as PLONK defines it:
      `r(z) + PI(z) alpha - alpha^2 zhat (a + beta s1 + gamma)(b + beta s2 + gamma)(c + gamma)
       - L1(z) alpha^3`. */
  function QuotientNumerator(e: ProofEvaluations, piEval: Scalar, alpha: Scalar, beta: Scalar,
                             gamma: Scalar, l1Eval: Scalar, zHatEval: Scalar): Scalar
  {
    var wires := Mul(Mul(Add(Add(e.aEval, Mul(beta, e.leftSigmaEval)), gamma),
                         Add(Add(e.bEval, Mul(beta, e.rightSigmaEval)), gamma)),
                     Add(e.cEval, gamma));
    Sub(Sub(Add(e.linPolyEval, Mul(piEval, alpha)), Mul(Pow(alpha, 2), Mul(zHatEval, wires))),
        Mul(Pow(alpha, 3), l1Eval))
  }

  /** The arithmetic gate at `z`: `a b qM + a qL + b qR + c qO + qC`, with
      the selector values given. */
  function Gate(e: ProofEvaluations, qm: Scalar, ql: Scalar, qr: Scalar, qo: Scalar, qc: Scalar): Scalar
  {
    Add(Add(Add(Add(Mul(Mul(e.aEval, e.bEval), qm), Mul(e.aEval, ql)), Mul(e.bEval, qr)),
            Mul(e.cEval, qo)), qc)
  }

  /** `(a + beta z + gamma)(b + beta K1 z + gamma)(c + beta K2 z + gamma)`. */
  function PermutationNumerator(e: ProofEvaluations, beta: Scalar, gamma: Scalar, z: Scalar): Scalar
  {
    Mul(Mul(Add(Add(e.aEval, Mul(beta, z)), gamma),
            Add(Add(e.bEval, Mul(Mul(beta, K1), z)), gamma)),
        Add(Add(e.cEval, Mul(Mul(beta, K2), z)), gamma))
  }

  /** `(a + beta s1 + gamma)(b + beta s2 + gamma) beta zhat`. */
  function PermutationDenominator(e: ProofEvaluations, beta: Scalar, gamma: Scalar): Scalar
  {
    Mul(Mul(Mul(Add(Add(e.aEval, Mul(beta, e.leftSigmaEval)), gamma),
                Add(Add(e.bEval, Mul(beta, e.rightSigmaEval)), gamma)), beta), e.permEval)
  }

  /** The linearisation polynomial as PLONK defines it, evaluated with the
      given values for the selectors, the permutation polynomial `zv` and
      the third sigma `s3`:
      `alpha gate + alpha^2 (num zv - den s3) + alpha^3 L1(z) zv`. */
  function Linearisation(e: ProofEvaluations, alpha: Scalar, beta: Scalar, gamma: Scalar, z: Scalar,
                         l1Eval: Scalar, qm: Scalar, ql: Scalar, qr: Scalar, qo: Scalar, qc: Scalar,
                         zv: Scalar, s3: Scalar): Scalar
  {
    Add(Add(Mul(alpha, Gate(e, qm, ql, qr, qo, qc)),
            Mul(Pow(alpha, 2), Sub(Mul(PermutationNumerator(e, beta, gamma, z), zv),
                                   Mul(PermutationDenominator(e, beta, gamma), s3)))),
        Mul(Pow(alpha, 3), Mul(l1Eval, zv)))
  }

  /** The sum of the seven partial-opening products, with the given values
      of the seven points. */
  function WeightedSum7(ss: seq<Scalar>, ps: seq<Scalar>): Scalar
    requires |ss| == 7 && |ps| == 7
  {
    Add(Add(Add(Add(Add(Add(Mul(ss[0], ps[0]), Mul(ss[1], ps[1])), Mul(ss[2], ps[2])),
                    Mul(ss[3], ps[3])), Mul(ss[4], ps[4])), Mul(ss[5], ps[5])), Mul(ss[6], ps[6]))
  }

  /** A seven-term combination is worth the seven-term weighted sum. */
  lemma TermsValueSeven(ts: seq<Term>, ss: seq<Scalar>, ps: seq<Scalar>, dlog: nat -> Scalar)
    requires |ts| == 7 && |ss| == 7 && |ps| == 7
    requires forall i | 0 <= i < 7 :: ts[i].scalar == ss[i] && Value(ts[i].point, dlog) == ps[i]
    ensures TermsValue(ts, dlog) == WeightedSum7(ss, ps)
  {
    assert ts[..0] == [];
    TermsValueEmpty(dlog);
    TermsValuePrefix(ts, 0, dlog);
    assert TermsValue(ts[..1], dlog) == Mul(ss[0], ps[0]);
    TermsValuePrefix(ts, 1, dlog);
    var w1 := Add(Mul(ss[0], ps[0]), Mul(ss[1], ps[1]));
    assert TermsValue(ts[..2], dlog) == w1;
    TermsValuePrefix(ts, 2, dlog);
    var w2 := Add(w1, Mul(ss[2], ps[2]));
    assert TermsValue(ts[..3], dlog) == w2;
    TermsValuePrefix(ts, 3, dlog);
    var w3 := Add(w2, Mul(ss[3], ps[3]));
    assert TermsValue(ts[..4], dlog) == w3;
    TermsValuePrefix(ts, 4, dlog);
    var w4 := Add(w3, Mul(ss[4], ps[4]));
    assert TermsValue(ts[..5], dlog) == w4;
    TermsValuePrefix(ts, 5, dlog);
    var w5 := Add(w4, Mul(ss[5], ps[5]));
    assert TermsValue(ts[..6], dlog) == w5;
    TermsValuePrefix(ts, 6, dlog);
    assert TermsValue(ts[..7], dlog) == Add(w5, Mul(ss[6], ps[6]));
    assert ts[..7] == ts;
  }

  /** The partial opening scalars weight the points so that the sum is
      `v r(X) + v^7 u Z(X)`: `v` times the linearisation polynomial plus the
      shifted opening of the permutation polynomial. */
  lemma PartialOpeningIdentity(e: ProofEvaluations, alpha: Scalar, beta: Scalar, gamma: Scalar,
                               z: Scalar, u: Scalar, v: Scalar, l1Eval: Scalar,
                               qm: Scalar, ql: Scalar, qr: Scalar, qo: Scalar, qc: Scalar,
                               zv: Scalar, s3: Scalar)
    ensures WeightedSum7(PartialOpeningScalars(e, alpha, beta, gamma, z, u, v, l1Eval),
                         [qm, ql, qr, qo, qc, zv, s3])
            == Add(Mul(v, Linearisation(e, alpha, beta, gamma, z, l1Eval, qm, ql, qr, qo, qc, zv, s3)),
                   Mul(Mul(Pow(v, 7), u), zv))
  {
    var q0 := Add(Add(e.aEval, Mul(beta, z)), gamma);
    var q1 := Add(Add(e.bEval, Mul(Mul(beta, K1), z)), gamma);
    var q2 := Add(Add(e.cEval, Mul(Mul(beta, K2), z)), gamma);
    var p0 := Add(Add(e.aEval, Mul(beta, e.leftSigmaEval)), gamma);
    var p1 := Add(Add(e.bEval, Mul(beta, e.rightSigmaEval)), gamma);
    PowSmall(alpha);
    OpeningIdentityOnFactors(e, alpha, Pow(alpha, 2), Pow(alpha, 3), beta, v, Pow(v, 7), u, l1Eval,
                             qm, ql, qr, qo, qc, zv, s3, q0, q1, q2, p0, p1);
  }

  /** `PartialOpeningIdentity` with the six permutation factors and the
      powers of `alpha` and `v` taken as given scalars. */
  lemma OpeningIdentityOnFactors(e: ProofEvaluations, alpha: Scalar, a2: Scalar, p3: Scalar,
                                 beta: Scalar, v: Scalar, p7: Scalar, u: Scalar, l1: Scalar,
                                 qm: Scalar, ql: Scalar, qr: Scalar, qo: Scalar, qc: Scalar,
                                 zv: Scalar, s3: Scalar,
                                 q0: Scalar, q1: Scalar, q2: Scalar, p0: Scalar, p1: Scalar)
    requires a2 == Mul(alpha, alpha)
    ensures
      var a, b, c, pe := e.aEval, e.bEval, e.cEval, e.permEval;
      WeightedSum7([Mul(Mul(Mul(a, b), alpha), v), Mul(Mul(a, alpha), v), Mul(Mul(b, alpha), v),
                    Mul(Mul(c, alpha), v), Mul(alpha, v),
                    Add(Add(Mul(Mul(q0, q1), Mul(Mul(Mul(q2, alpha), alpha), v)), Mul(Mul(l1, p3), v)),
                        Mul(p7, u)),
                    Field.Neg(Mul(Mul(p0, p1), Mul(Mul(Mul(Mul(beta, pe), alpha), alpha), v)))],
                   [qm, ql, qr, qo, qc, zv, s3])
      == Add(Mul(v, Add(Add(Mul(alpha, Gate(e, qm, ql, qr, qo, qc)),
                            Mul(a2, Sub(Mul(Mul(Mul(q0, q1), q2), zv),
                                        Mul(Mul(Mul(Mul(p0, p1), beta), pe), s3)))),
                        Mul(p3, Mul(l1, zv)))),
             Mul(Mul(p7, u), zv))
  {
    var a, b, c, pe := e.aEval, e.bEval, e.cEval, e.permEval;
    var x := Mul(Mul(q0, q1), Mul(Mul(Mul(q2, alpha), alpha), v));
    var y := Mul(Mul(l1, p3), v);
    var d := Mul(Mul(p0, p1), Mul(Mul(Mul(Mul(beta, pe), alpha), alpha), v));
    var ss := [Mul(Mul(Mul(a, b), alpha), v), Mul(Mul(a, alpha), v), Mul(Mul(b, alpha), v),
               Mul(Mul(c, alpha), v), Mul(alpha, v), Add(Add(x, y), Mul(p7, u)), Field.Neg(d)];
    var ps := [qm, ql, qr, qo, qc, zv, s3];
    var g5 := Add(Add(Add(Add(Mul(ss[0], qm), Mul(ss[1], ql)), Mul(ss[2], qr)), Mul(ss[3], qo)),
                  Mul(ss[4], qc));
    var xz, yz, zz, ds := Mul(x, zv), Mul(y, zv), Mul(Mul(p7, u), zv), Mul(Field.Neg(d), s3);
    MulDistribRight3(x, y, Mul(p7, u), zv);
    assert WeightedSum7(ss, ps) == Add(Add(g5, Add(Add(xz, yz), zz)), ds);
    var gate := Mul(alpha, Gate(e, qm, ql, qr, qo, qc));
    var perm := Mul(a2, Sub(Mul(Mul(Mul(q0, q1), q2), zv), Mul(Mul(Mul(Mul(p0, p1), beta), pe), s3)));
    var comm := Mul(p3, Mul(l1, zv));
    MulDistrib3(v, gate, perm, comm);
    GateTerms(e, alpha, v, qm, ql, qr, qo, qc);
    PermutationTerms(alpha, a2, v, zv, s3, q0, q1, q2, p0, p1, beta, pe);
    CommitmentTerm(v, p3, l1, zv);
    SumShuffle(g5, xz, yz, zz, ds);
  }

  /** `v alpha gate`, spread over the five selectors. */
  lemma GateTerms(e: ProofEvaluations, alpha: Scalar, v: Scalar,
                  qm: Scalar, ql: Scalar, qr: Scalar, qo: Scalar, qc: Scalar)
    ensures
      var a, b, c := e.aEval, e.bEval, e.cEval;
      Mul(v, Mul(alpha, Gate(e, qm, ql, qr, qo, qc)))
      == Add(Add(Add(Add(Mul(Mul(Mul(Mul(a, b), alpha), v), qm), Mul(Mul(Mul(a, alpha), v), ql)),
                     Mul(Mul(Mul(b, alpha), v), qr)), Mul(Mul(Mul(c, alpha), v), qo)),
             Mul(Mul(alpha, v), qc))
  {
    var a, b, c := e.aEval, e.bEval, e.cEval;
    SwapOuter(v, alpha, Gate(e, qm, ql, qr, qo, qc));
    MulDistrib5(Mul(alpha, v), Mul(Mul(a, b), qm), Mul(a, ql), Mul(b, qr), Mul(c, qo), qc);
    MoveIn(alpha, v, Mul(a, b), qm);
    MoveIn(alpha, v, a, ql);
    MoveIn(alpha, v, b, qr);
    MoveIn(alpha, v, c, qo);
  }

  /** `v alpha^2 (num zv - den s3)`, split into the two commitments it
      weights. */
  lemma PermutationTerms(alpha: Scalar, a2: Scalar, v: Scalar, zv: Scalar, s3: Scalar,
                         q0: Scalar, q1: Scalar, q2: Scalar, p0: Scalar, p1: Scalar,
                         beta: Scalar, pe: Scalar)
    requires a2 == Mul(alpha, alpha)
    ensures Mul(v, Mul(a2, Sub(Mul(Mul(Mul(q0, q1), q2), zv), Mul(Mul(Mul(Mul(p0, p1), beta), pe), s3))))
            == Add(Mul(Mul(Mul(q0, q1), Mul(Mul(Mul(q2, alpha), alpha), v)), zv),
                   Mul(Field.Neg(Mul(Mul(p0, p1), Mul(Mul(Mul(Mul(beta, pe), alpha), alpha), v))), s3))
  {
    var k := Mul(a2, v);
    var n, dn := Mul(Mul(q0, q1), q2), Mul(Mul(Mul(p0, p1), beta), pe);
    SwapOuter(v, a2, Sub(Mul(n, zv), Mul(dn, s3)));
    MulDistribSub(k, Mul(n, zv), Mul(dn, s3));
    MulAssoc(k, n, zv);
    MulLeftComm(k, Mul(q0, q1), q2);
    Rotate(alpha, v, q2);
    var p01, bp := Mul(p0, p1), Mul(beta, pe);
    var d := Mul(p01, Mul(Mul(Mul(bp, alpha), alpha), v));
    MulAssoc(k, dn, s3);
    MulAssoc(p01, beta, pe);
    MulLeftComm(k, p01, bp);
    Rotate(alpha, v, bp);
    SubIsAddNeg(Mul(Mul(Mul(q0, q1), Mul(Mul(Mul(q2, alpha), alpha), v)), zv), Mul(d, s3));
    MulComm(Field.Neg(d), s3);
    MulNegRight(s3, d);
    MulComm(s3, d);
  }

  /** `v alpha^3 L1(z) zv` is the permutation commitment's third share. */
  lemma CommitmentTerm(v: Scalar, p3: Scalar, l1: Scalar, zv: Scalar)
    ensures Mul(v, Mul(p3, Mul(l1, zv))) == Mul(Mul(Mul(l1, p3), v), zv)
  {
    MulAssoc(p3, l1, zv);
    MulComm(p3, l1);
    MulAssoc(v, Mul(l1, p3), zv);
    MulComm(v, Mul(l1, p3));
  }

  /** Regrouping the five shares of the opening sum. */
  lemma SumShuffle(g: Scalar, x: Scalar, y: Scalar, z: Scalar, d: Scalar)
    ensures Add(Add(g, Add(Add(x, y), z)), d) == Add(Add(Add(g, Add(x, d)), y), z)
  {
    var sum := g + x + y + z + d;
    assert Add(Add(g, Add(Add(x, y), z)), d) == sum % R by {
      ModSmall(g);
      ModSmall(x);
      ModSmall(y);
      ModSmall(z);
      ModSmall(d);
      AddRep(Add(x, y), z, x + y, z);
      AddRep(g, Add(Add(x, y), z), g, x + y + z);
      AddRep(Add(g, Add(Add(x, y), z)), d, g + (x + y + z), d);
    }
    assert Add(Add(Add(g, Add(x, d)), y), z) == sum % R by {
      ModSmall(g);
      ModSmall(x);
      ModSmall(y);
      ModSmall(z);
      ModSmall(d);
      AddRep(g, Add(x, d), g, x + d);
      AddRep(Add(g, Add(x, d)), y, g + (x + d), y);
      AddRep(Add(Add(g, Add(x, d)), y), z, g + (x + d) + y, z);
    }
  }

  lemma MulDistribRight3(x: Scalar, y: Scalar, z: Scalar, w: Scalar)
    ensures Mul(Add(Add(x, y), z), w) == Add(Add(Mul(x, w), Mul(y, w)), Mul(z, w))
  {
    MulComm(Add(Add(x, y), z), w);
    MulDistrib(w, Add(x, y), z);
    MulDistrib(w, x, y);
    MulComm(w, x);
    MulComm(w, y);
    MulComm(w, z);
  }

  lemma MulDistrib3(v: Scalar, x: Scalar, y: Scalar, z: Scalar)
    ensures Mul(v, Add(Add(x, y), z)) == Add(Add(Mul(v, x), Mul(v, y)), Mul(v, z))
  {
    MulDistrib(v, Add(x, y), z);
    MulDistrib(v, x, y);
  }

  lemma MulDistrib5(k: Scalar, y1: Scalar, y2: Scalar, y3: Scalar, y4: Scalar, y5: Scalar)
    ensures Mul(k, Add(Add(Add(Add(y1, y2), y3), y4), y5))
            == Add(Add(Add(Add(Mul(k, y1), Mul(k, y2)), Mul(k, y3)), Mul(k, y4)), Mul(k, y5))
  {
    MulDistrib(k, Add(Add(Add(y1, y2), y3), y4), y5);
    MulDistrib(k, Add(Add(y1, y2), y3), y4);
    MulDistrib(k, Add(y1, y2), y3);
    MulDistrib(k, y1, y2);
  }

  lemma SwapOuter(x: Scalar, y: Scalar, g: Scalar)
    ensures Mul(x, Mul(y, g)) == Mul(Mul(y, x), g)
  {
    MulLeftComm(x, y, g);
    MulAssoc(y, x, g);
  }

  lemma MoveIn(alpha: Scalar, v: Scalar, p: Scalar, q: Scalar)
    ensures Mul(Mul(alpha, v), Mul(p, q)) == Mul(Mul(Mul(p, alpha), v), q)
  {
    MulAssoc(Mul(alpha, v), p, q);
    MulComm(Mul(alpha, v), p);
    MulAssoc(p, alpha, v);
  }

  lemma Rotate(alpha: Scalar, v: Scalar, q: Scalar)
    ensures Mul(Mul(Mul(alpha, alpha), v), q) == Mul(Mul(Mul(q, alpha), alpha), v)
  {
    MulComm(Mul(Mul(alpha, alpha), v), q);
    MulAssoc(q, Mul(alpha, alpha), v);
    MulAssoc(q, alpha, alpha);
  }

  // ---------------------------------------------------------------------
  // Algebra behind the formulas

  lemma PowSmall(x: Scalar)
    ensures Pow(x, 2) == Mul(x, x)
    ensures Pow(x, 3) == Mul(Mul(x, x), x)
  {
    assert Pow(x, 1) == x by {
      MulOne(x);
    }
    assert Pow(x, 2) == Mul(x, x);
    assert Pow(x, 3) == Mul(x, Mul(x, x));
    MulAssoc(x, x, x);
  }

  /** The grouping of `compute_quotient_evaluation` is the textbook one. */
  lemma QuotientNumeratorGrouping(e: ProofEvaluations, piEval: Scalar, alpha: Scalar, beta: Scalar,
                                  gamma: Scalar, l1Eval: Scalar, zHatEval: Scalar)
    ensures
      var b0 := Add(Add(e.aEval, Mul(beta, e.leftSigmaEval)), gamma);
      var b1 := Add(Add(e.bEval, Mul(beta, e.rightSigmaEval)), gamma);
      var b2 := Mul(Mul(Add(e.cEval, gamma), zHatEval), Mul(alpha, alpha));
      QuotientNumerator(e, piEval, alpha, beta, gamma, l1Eval, zHatEval)
      == Sub(Sub(Add(e.linPolyEval, Mul(piEval, alpha)), Mul(Mul(b0, b1), b2)),
             Mul(l1Eval, Mul(Mul(alpha, alpha), alpha)))
  {
    var b0 := Add(Add(e.aEval, Mul(beta, e.leftSigmaEval)), gamma);
    var b1 := Add(Add(e.bEval, Mul(beta, e.rightSigmaEval)), gamma);
    var c := Add(e.cEval, gamma);
    var sq := Mul(alpha, alpha);
    PowSmall(alpha);
    var p := Mul(b0, b1);
    // p * ((c * zhat) * sq) == sq * (zhat * (p * c))
    MulAssoc(p, Mul(c, zHatEval), sq);
    MulAssoc(p, c, zHatEval);
    MulComm(Mul(p, c), zHatEval);
    MulComm(Mul(p, Mul(c, zHatEval)), sq);
    MulComm(Mul(Mul(alpha, alpha), alpha), l1Eval);
  }

  /** A polynomial split into two pieces of `n` coefficients and a rest is
      worth `lo(z) + z^n mid(z) + z^2n hi(z)` at `z`. */
  lemma QuotientSplit(lo: Coeffs, mid: Coeffs, hi: Coeffs, z: Scalar, n: nat)
    requires |lo| == n && |mid| == n
    ensures EvalSum(lo + mid + hi, z)
            == Add(Add(EvalSum(lo, z), Mul(Pow(z, n), EvalSum(mid, z))), Mul(Pow(z, 2 * n), EvalSum(hi, z)))
  {
    var lm := lo + mid;
    assert |lm| == 2 * n;
    assert lo + mid + hi == lm + hi;
    EvalConcat(lm, hi, z);
    EvalConcat(lo, mid, z);
  }

  /** A nonzero factor with an inverse cancels. */
  lemma CancelFactor(t: Scalar, x: Scalar, inv: Scalar)
    requires Mul(x, inv) == 1
    ensures Mul(Mul(t, x), inv) == t
  {
    MulAssoc(t, x, inv);
    MulOne(t);
  }

  /** Multiplying by an inverse and by the element itself cancels. */
  lemma CancelInverse(n: Scalar, x: Scalar, inv: Scalar)
    requires Mul(x, inv) == 1
    ensures Mul(Mul(n, inv), x) == n
  {
    MulAssoc(n, inv, x);
    MulComm(inv, x);
    MulOne(n);
  }
}
