/** Group elements as opaque symbols.  The verifier never looks inside a
    point: it only forms linear combinations (`multiscalar_mul` followed by
    `sum_points`, `+`, `-`, scalar `*`) and hands them to the pairing.  A
    combination is therefore kept as the ordered list of `(scalar, point)`
    pairs it was built from. */
module Commitments {
  import opened Field

  /** A point of G1: the identity, an element received from outside (a
      commitment, a key element), or a linear combination of points. */
  datatype Point = Identity | Element(handle: nat) | Combination(terms: seq<Term>)

  datatype Term = Term(scalar: Scalar, point: Point)

  /** A point of G2, only ever passed to the pairing. */
  datatype G2Point = G2Element(handle: nat)

  /** A KZG commitment wraps a G1 point. */
  datatype Commitment = Commitment(point: Point)

  /** `Commitment::empty()`: the identity element. */
  function EmptyCommitment(): (c: Commitment)
    ensures forall dlog :: Value(c.point, dlog) == 0
  {
    Commitment(Identity)
  }

  /** `multiscalar_mul(scalars, points)` followed by `sum_points`: the sum of
      the pairwise products, kept in the order the pairs were given. */
  function MultiscalarSum(scalars: seq<Scalar>, points: seq<Point>): (p: Point)
    requires |scalars| == |points|
    ensures p.Combination? && |p.terms| == |scalars|
    ensures forall i | 0 <= i < |scalars| :: p.terms[i] == Term(scalars[i], points[i])
  {
    Combination(seq(|scalars|, i requires 0 <= i < |scalars| => Term(scalars[i], points[i])))
  }

  /** G1 has prime order R, so every point is `k * G` for one scalar `k`.
      Given that scalar for each opaque element (`dlog`), `Value` gives it
      for any combination: the group operations become field operations. */
  function Value(p: Point, dlog: nat -> Scalar): Scalar
    decreases p
  {
    match p
    case Identity => 0
    case Element(h) => dlog(h)
    case Combination(ts) => PrefixValue(p, ts, dlog)
  }

  /** The sum of the terms `ts`, a prefix of the terms of `p`. */
  function PrefixValue(p: Point, ts: seq<Term>, dlog: nat -> Scalar): Scalar
    requires p.Combination? && ts <= p.terms
    decreases p, |ts|
  {
    if ts == [] then 0
    else
      var last := ts[|ts| - 1];
      assert last == p.terms[|ts| - 1];
      Add(PrefixValue(p, ts[..|ts| - 1], dlog), Mul(last.scalar, Value(last.point, dlog)))
  }

  /** The value of a list of terms: the sum of `scalar * value` over it. */
  function TermsValue(ts: seq<Term>, dlog: nat -> Scalar): Scalar
  {
    Value(Combination(ts), dlog)
  }

  /** The sum of a prefix does not depend on which combination holds it. */
  lemma {:induction false} PrefixValueIndependent(p: Point, q: Point, ts: seq<Term>, dlog: nat -> Scalar)
    requires p.Combination? && ts <= p.terms
    requires q.Combination? && ts <= q.terms
    ensures PrefixValue(p, ts, dlog) == PrefixValue(q, ts, dlog)
    decreases |ts|
  {
    if ts != [] {
      PrefixValueIndependent(p, q, ts[..|ts| - 1], dlog);
    }
  }

  /** Peeling the last term off a list. */
  lemma TermsValueSnoc(ts: seq<Term>, t: Term, dlog: nat -> Scalar)
    ensures TermsValue(ts + [t], dlog) == Add(TermsValue(ts, dlog), Mul(t.scalar, Value(t.point, dlog)))
  {
    var p := Combination(ts + [t]);
    assert (ts + [t])[..|ts|] == ts;
    assert TermsValue(ts + [t], dlog) == PrefixValue(p, ts + [t], dlog);
    assert TermsValue(ts, dlog) == PrefixValue(Combination(ts), ts, dlog);
    PrefixValueIndependent(p, Combination(ts), ts, dlog);
  }

  /** The value of a combination is additive over its terms. */
  lemma {:induction false} TermsValueConcat(s: seq<Term>, t: seq<Term>, dlog: nat -> Scalar)
    ensures TermsValue(s + t, dlog) == Add(TermsValue(s, dlog), TermsValue(t, dlog))
    decreases |t|
  {
    if t == [] {
      assert s + t == s;
      assert TermsValue(t, dlog) == PrefixValue(Combination(t), t, dlog) == 0;
    } else {
      var t' := t[..|t| - 1];
      var last := t[|t| - 1];
      assert s + t == (s + t') + [last];
      assert t == t' + [last];
      TermsValueConcat(s, t', dlog);
      TermsValueSnoc(s + t', last, dlog);
      TermsValueSnoc(t', last, dlog);
      AddAssoc(TermsValue(s, dlog), TermsValue(t', dlog), Mul(last.scalar, Value(last.point, dlog)));
    }
  }

  /** The empty combination is the identity. */
  lemma TermsValueEmpty(dlog: nat -> Scalar)
    ensures TermsValue([], dlog) == 0
  {
    assert TermsValue([], dlog) == PrefixValue(Combination([]), [], dlog);
  }

  /** The prefix of length `k + 1` adds the `k`-th product to the prefix of
      length `k`. */
  lemma TermsValuePrefix(ts: seq<Term>, k: nat, dlog: nat -> Scalar)
    requires k < |ts|
    ensures TermsValue(ts[..k + 1], dlog)
            == Add(TermsValue(ts[..k], dlog), Mul(ts[k].scalar, Value(ts[k].point, dlog)))
  {
    assert ts[..k + 1] == ts[..k] + [ts[k]];
    TermsValueSnoc(ts[..k], ts[k], dlog);
  }

  /** The scalar a multiscalar sum stands for, written independently of
      the term list: `scalars[0] * points[0] + ... + scalars[n-1] * points[n-1]`,
      summed left to right. */
  function WeightedValues(scalars: seq<Scalar>, points: seq<Point>, dlog: nat -> Scalar): Scalar
    requires |scalars| == |points|
    decreases |scalars|
  {
    if scalars == [] then 0
    else
      var n := |scalars| - 1;
      Add(WeightedValues(scalars[..n], points[..n], dlog), Mul(scalars[n], Value(points[n], dlog)))
  }

  /** `multiscalar_mul` followed by `sum_points` computes the weighted sum
      of its points. */
  lemma {:induction false} MultiscalarSumValue(scalars: seq<Scalar>, points: seq<Point>,
                                               dlog: nat -> Scalar)
    requires |scalars| == |points|
    ensures Value(MultiscalarSum(scalars, points), dlog) == WeightedValues(scalars, points, dlog)
    decreases |scalars|
  {
    if scalars == [] {
      assert MultiscalarSum(scalars, points) == Combination([]);
      TermsValueEmpty(dlog);
    } else {
      var n := |scalars| - 1;
      var init := MultiscalarSum(scalars[..n], points[..n]);
      MultiscalarSumValue(scalars[..n], points[..n], dlog);
      assert MultiscalarSum(scalars, points).terms == init.terms + [Term(scalars[n], points[n])];
      TermsValueSnoc(init.terms, Term(scalars[n], points[n]), dlog);
    }
  }
}
