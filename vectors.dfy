/**
 * Embedding vectors over the reals: the inner product FAISS's IndexFlatIP ranks by,
 * the squared Euclidean distance IndexFlatL2 ranks by, the mean `np.mean(axis=0)`
 * computes, and `_l2_normalize`. The Euclidean norm itself needs a square root,
 * which is a floating-point measurement: it is supplied by the caller.
 */
module Vectors {

  type Vector = seq<real>

  /** A non-negative real: what a Euclidean norm or a variance measures. */
  type NonNegReal = r: real | r >= 0.0

  /** The `eps` added to the norm in `_l2_normalize` (ai_service/face_recognition.py:17). */
  const Eps: real := 0.0000000001

  /** Inner product: FAISS IndexFlatIP's similarity, cosine similarity for unit vectors. */
  function Dot(u: Vector, v: Vector): real
    requires |u| == |v|
  {
    if |u| == 0 then 0.0 else Dot(u[..|u| - 1], v[..|v| - 1]) + u[|u| - 1] * v[|v| - 1]
  }

  /** Squared Euclidean distance: what FAISS IndexFlatL2 reports as "distance". */
  function SqL2(u: Vector, v: Vector): (r: real)
    requires |u| == |v|
    ensures r >= 0.0
  {
    if |u| == 0 then 0.0
    else
      var d := u[|u| - 1] - v[|v| - 1];
      assert d * d >= 0.0;
      SqL2(u[..|u| - 1], v[..|v| - 1]) + d * d
  }

  function Scale(v: Vector, c: real): (r: Vector)
    ensures |r| == |v|
    ensures forall i :: 0 <= i < |v| ==> r[i] == v[i] * c
  {
    seq(|v|, i requires 0 <= i < |v| => v[i] * c)
  }

  function Add(u: Vector, v: Vector): (r: Vector)
    requires |u| == |v|
    ensures |r| == |u|
    ensures forall i :: 0 <= i < |u| ==> r[i] == u[i] + v[i]
  {
    seq(|u|, i requires 0 <= i < |u| => u[i] + v[i])
  }

  function Zero(d: nat): (r: Vector)
    ensures |r| == d
    ensures forall i :: 0 <= i < d ==> r[i] == 0.0
  {
    seq(d, i => 0.0)
  }

  /** All vectors of `vs` have dimension `d` (what `np.stack` demands). */
  predicate SameDim(vs: seq<Vector>, d: nat)
  {
    forall i :: 0 <= i < |vs| ==> |vs[i]| == d
  }

  /** Component-wise sum of vectors of dimension `d`. */
  function Sum(vs: seq<Vector>, d: nat): (r: Vector)
    requires SameDim(vs, d)
    ensures |r| == d
  {
    if |vs| == 0 then Zero(d) else Add(Sum(vs[..|vs| - 1], d), vs[|vs| - 1])
  }

  /** `np.mean(stack, axis=0)` of a non-empty list of vectors of dimension `d`. */
  function Mean(vs: seq<Vector>, d: nat): (r: Vector)
    requires |vs| > 0 && SameDim(vs, d)
    ensures |r| == d
  {
    Scale(Sum(vs, d), 1.0 / |vs| as real)
  }

  /**
   * `_l2_normalize` on one vector: `vec / (norm + eps)`, where `norm` is the
   * Euclidean norm of `v` as numpy measured it.
   */
  function L2Normalize(v: Vector, norm: NonNegReal): (r: Vector)
    ensures |r| == |v|
  {
    Scale(v, NormFactor(norm))
  }

  /** The factor `1 / (norm + eps)` that `_l2_normalize` multiplies by; it is always positive. */
  function NormFactor(norm: NonNegReal): (c: real)
    ensures c > 0.0
  {
    1.0 / (norm + Eps)
  }

  /** The inner product is linear in its first argument under scaling. */
  lemma {:induction false} DotScale(u: Vector, w: Vector, c: real)
    requires |u| == |w|
    ensures Dot(Scale(u, c), w) == c * Dot(u, w)
  {
    if |u| > 0 {
      var n := |u| - 1;
      var su := Scale(u, c);
      assert su[..n] == Scale(u[..n], c) by {
        forall i | 0 <= i < n
          ensures su[..n][i] == Scale(u[..n], c)[i]
        {
        }
      }
      DotScale(u[..n], w[..n], c);
      assert su[n] * w[n] == c * (u[n] * w[n]);
    }
  }

  lemma {:induction false} DotSymmetric(u: Vector, w: Vector)
    requires |u| == |w|
    ensures Dot(u, w) == Dot(w, u)
  {
    if |u| > 0 {
      DotSymmetric(u[..|u| - 1], w[..|w| - 1]);
    }
  }

  /** Similarity against a scaled query is the scaled similarity. */
  lemma {:induction false} DotScaledQuery(a: Vector, q: Vector, c: real)
    requires |a| == |q|
    ensures Dot(a, Scale(q, c)) == c * Dot(a, q)
  {
    if |a| > 0 {
      var n := |a| - 1;
      var sq := Scale(q, c);
      assert sq[..n] == Scale(q[..n], c) by {
        forall i | 0 <= i < n
          ensures sq[..n][i] == Scale(q[..n], c)[i]
        {
        }
      }
      DotScaledQuery(a[..n], q[..n], c);
      assert a[n] * sq[n] == c * (a[n] * q[n]);
    }
  }

  /** Similarity against a normalised query is the raw similarity times `1 / (norm + eps)`. */
  lemma DotNormalizedQuery(a: Vector, q: Vector, norm: NonNegReal)
    requires |a| == |q|
    ensures Dot(a, L2Normalize(q, norm)) == NormFactor(norm) * Dot(a, q)
  {
    DotScaledQuery(a, q, NormFactor(norm));
  }

  /** Two differences related by a positive factor have the same sign. */
  lemma PositiveFactorKeepsOrder(x1: real, x2: real, y1: real, y2: real, c: real)
    requires c > 0.0 && x2 - x1 == c * (y2 - y1)
    ensures x1 <= x2 <==> y1 <= y2
  {
    if y2 < y1 {
      assert c * (y1 - y2) > 0.0;
    }
  }

  /** Scaling the query scales the gap between two similarities by the same factor. */
  lemma {:induction false} DotGapScaled(a: Vector, b: Vector, q: Vector, c: real)
    requires |a| == |q| && |b| == |q|
    ensures Dot(b, Scale(q, c)) - Dot(a, Scale(q, c)) == c * (Dot(b, q) - Dot(a, q))
  {
    DotScaledQuery(a, q, c);
    DotScaledQuery(b, q, c);
  }

  /** Scaling the query by a positive factor keeps the order of similarities. */
  lemma {:induction false} ScaledQueryKeepsOrder(a: Vector, b: Vector, q: Vector, c: real)
    requires |a| == |q| && |b| == |q| && c > 0.0
    ensures Dot(a, Scale(q, c)) <= Dot(b, Scale(q, c)) <==> Dot(a, q) <= Dot(b, q)
  {
    DotGapScaled(a, b, q, c);
    PositiveFactorKeepsOrder(Dot(a, Scale(q, c)), Dot(b, Scale(q, c)), Dot(a, q), Dot(b, q), c);
  }

  /**
   * Normalising the query divides every inner product by the same positive
   * amount `norm + eps`, so it never changes which of two gallery vectors is
   * more similar: the top-1 neighbour of a normalised query is that of the raw query.
   */
  lemma {:induction false} NormalizedQueryKeepsOrder(a: Vector, b: Vector, q: Vector, norm: NonNegReal)
    requires |a| == |q| && |b| == |q|
    ensures Dot(a, L2Normalize(q, norm)) <= Dot(b, L2Normalize(q, norm)) <==> Dot(a, q) <= Dot(b, q)
  {
    ScaledQueryKeepsOrder(a, b, q, NormFactor(norm));
  }

  /** Summing `k` copies of `v` multiplies each component by `k`. */
  lemma {:induction false} SumOfCopies(v: Vector, k: nat)
    ensures SameDim(seq(k, j => v), |v|)
    ensures forall i :: 0 <= i < |v| ==> Sum(seq(k, j => v), |v|)[i] == k as real * v[i]
  {
    var copies := seq(k, j => v);
    if k > 0 {
      assert copies[..k - 1] == seq(k - 1, j => v);
      SumOfCopies(v, k - 1);
    }
  }

  /** The mean of identical vectors is that vector. */
  lemma MeanOfCopies(v: Vector, k: nat)
    requires k > 0
    ensures SameDim(seq(k, j => v), |v|)
    ensures Mean(seq(k, j => v), |v|) == v
  {
    SumOfCopies(v, k);
    var m := Mean(seq(k, j => v), |v|);
    forall i | 0 <= i < |v|
      ensures m[i] == v[i]
    {
      assert m[i] == (k as real * v[i]) * (1.0 / k as real);
    }
  }

  /** The mean of a single vector is that vector (the `len(embeddings) > 1` split is harmless). */
  lemma MeanOfOne(v: Vector)
    ensures SameDim([v], |v|)
    ensures Mean([v], |v|) == v
  {
    assert [v] == seq(1, j => v);
    MeanOfCopies(v, 1);
  }
}
