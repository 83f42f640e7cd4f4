/**
 * FAISS flat (exhaustive) indexes as exact searches over the sequence of added
 * vectors. `IndexFlatIP` ranks by inner product, highest first; `IndexFlatL2`
 * ranks by squared Euclidean distance, lowest first. A search for `k` neighbours
 * always yields `k` hits; when fewer than `k` vectors are stored, the missing
 * hits carry the label -1 and the largest float32 value as distance, as FAISS's
 * result heaps are initialised.
 */
module FlatIndex {
  import opened Vectors
  import opened Ranking

  /** A flat index of dimension `d` holding `vectors` in insertion order (FAISS labels are positions). */
  datatype Flat = Flat(d: nat, vectors: seq<Vector>)

  /** One search hit: the similarity or distance FAISS reports, and its index. */
  datatype Hit = Hit(score: real, idx: int)

  /** `FLT_MAX`, the distance FAISS reports for a missing L2 neighbour. */
  const FltMax: real := 340282346638528859811704183484516925440.0

  /** Every stored vector has the index's dimension (FAISS refuses other shapes). */
  predicate Wf(ix: Flat)
  {
    forall i :: 0 <= i < |ix.vectors| ==> |ix.vectors[i]| == ix.d
  }

  /** `index.ntotal`. */
  function Ntotal(ix: Flat): nat
  {
    |ix.vectors|
  }

  /** `faiss.IndexFlatIP(d)` / `faiss.IndexFlatL2(d)`: a fresh index. */
  function Empty(d: nat): (ix: Flat)
    ensures Wf(ix) && ix.d == d && Ntotal(ix) == 0
  {
    Flat(d, [])
  }

  /** `index.add` of one row: the vector gets the next label. */
  function Add(ix: Flat, v: Vector): (r: Flat)
    requires Wf(ix) && |v| == ix.d
    ensures Wf(r) && r.d == ix.d && Ntotal(r) == Ntotal(ix) + 1
    ensures r.vectors[Ntotal(ix)] == v
    ensures forall i :: 0 <= i < Ntotal(ix) ==> r.vectors[i] == ix.vectors[i]
  {
    Flat(ix.d, ix.vectors + [v])
  }

  /** Inner product of the query with every stored vector, by index. */
  function Similarities(vs: seq<Vector>, q: Vector): (r: seq<real>)
    requires forall i :: 0 <= i < |vs| ==> |vs[i]| == |q|
    ensures |r| == |vs|
    ensures forall i :: 0 <= i < |vs| ==> r[i] == Dot(vs[i], q)
  {
    seq(|vs|, i requires 0 <= i < |vs| => Dot(vs[i], q))
  }

  /**
   * `IndexFlatIP.search(q, k=1)`: the most similar stored vector, the first one
   * on ties; on an empty index the hit is label -1 (with score -FLT_MAX).
   */
  function SearchIP1(ix: Flat, q: Vector): (h: Hit)
    requires Wf(ix) && |q| == ix.d
    ensures h.idx == -1 <==> Ntotal(ix) == 0
    ensures h.idx != -1 ==> 0 <= h.idx < Ntotal(ix) && h.score == Dot(ix.vectors[h.idx], q)
    ensures h.idx != -1 ==> forall j :: 0 <= j < Ntotal(ix) ==> Dot(ix.vectors[j], q) <= h.score
    ensures h.idx != -1 ==> forall j :: 0 <= j < h.idx ==> Dot(ix.vectors[j], q) < h.score
  {
    if Ntotal(ix) == 0 then Hit(-FltMax, -1)
    else
      var sims := Similarities(ix.vectors, q);
      var i := ArgMaxFirst(sims);
      Hit(sims[i], i)
  }

  /** Every stored vector as an L2 hit, by index. */
  function Candidates(ix: Flat, q: Vector): (r: seq<Hit>)
    requires Wf(ix) && |q| == ix.d
    ensures |r| == Ntotal(ix)
    ensures forall i :: 0 <= i < |r| ==> r[i] == Hit(SqL2(ix.vectors[i], q), i)
  {
    seq(Ntotal(ix), i requires 0 <= i < Ntotal(ix) => Hit(SqL2(ix.vectors[i], q), i))
  }

  function HitScore(h: Hit): real
  {
    h.score
  }

  /** All stored vectors, nearest first (ties by index). */
  function Ranked(ix: Flat, q: Vector): (r: seq<Hit>)
    requires Wf(ix) && |q| == ix.d
    ensures |r| == Ntotal(ix)
  {
    SortBy(Candidates(ix, q), HitScore)
  }

  /**
   * `IndexFlatL2.search(q, k)`: `k` hits, the `min(k, ntotal)` nearest vectors
   * in increasing distance, then padding hits with label -1.
   */
  function SearchL2(ix: Flat, q: Vector, k: nat): (r: seq<Hit>)
    requires Wf(ix) && |q| == ix.d && k > 0
    ensures |r| == k
    ensures forall p :: Ntotal(ix) <= p < k ==> r[p] == Hit(FltMax, -1)
    ensures forall p :: 0 <= p < k && p < Ntotal(ix) ==> r[p] == Ranked(ix, q)[p]
  {
    var ranked := Ranked(ix, q);
    var m := if k < Ntotal(ix) then k else Ntotal(ix);
    ranked[..m] + seq(k - m, p => Hit(FltMax, -1))
  }

  /** Every ranked hit names a stored vector and carries its true distance. */
  lemma {:induction false} RankedHitsAreGenuine(ix: Flat, q: Vector, p: nat)
    requires Wf(ix) && |q| == ix.d && p < Ntotal(ix)
    ensures 0 <= Ranked(ix, q)[p].idx < Ntotal(ix)
    ensures Ranked(ix, q)[p].score == SqL2(ix.vectors[Ranked(ix, q)[p].idx], q)
  {
    var c := Candidates(ix, q);
    SortByPermutes(c, HitScore);
    var h := Ranked(ix, q)[p];
    assert h in multiset(Ranked(ix, q));
    assert h in c;
  }

  /** Real hits come in increasing distance. */
  lemma {:induction false} SearchL2Ordered(ix: Flat, q: Vector, k: nat, p1: nat, p2: nat)
    requires Wf(ix) && |q| == ix.d && k > 0
    requires p1 <= p2 < k && p2 < Ntotal(ix)
    ensures SearchL2(ix, q, k)[p1].score <= SearchL2(ix, q, k)[p2].score
  {
    SortBySorted(Candidates(ix, q), HitScore);
  }

  /** Where an input element ended up in the ranking. */
  lemma {:induction false} PositionOf(c: seq<Hit>, x: Hit) returns (p: nat)
    requires x in c
    ensures p < |SortBy(c, HitScore)| && SortBy(c, HitScore)[p] == x
  {
    SortByPermutes(c, HitScore);
    assert x in multiset(SortBy(c, HitScore));
    p :| 0 <= p < |SortBy(c, HitScore)| && SortBy(c, HitScore)[p] == x;
  }

  /**
   * The returned neighbours are the nearest ones: a stored vector that is not
   * among the real hits is at least as far as each of them.
   */
  lemma {:induction false} SearchL2Nearest(ix: Flat, q: Vector, k: nat, p: nat, j: nat)
    requires Wf(ix) && |q| == ix.d && k > 0
    requires p < k && p < Ntotal(ix) && j < Ntotal(ix)
    requires forall p' :: 0 <= p' < k && p' < Ntotal(ix) ==> SearchL2(ix, q, k)[p'].idx != j
    ensures SearchL2(ix, q, k)[p].score <= SqL2(ix.vectors[j], q)
  {
    var c := Candidates(ix, q);
    var ranked := Ranked(ix, q);
    var m := if k < Ntotal(ix) then k else Ntotal(ix);
    var x := c[j];
    var q' := PositionOf(c, x);
    assert forall p' :: 0 <= p' < m ==> ranked[p'].idx != j by {
      forall p' | 0 <= p' < m ensures ranked[p'].idx != j {
        assert SearchL2(ix, q, k)[p'] == ranked[p'];
      }
    }
    assert ranked[q'].idx == j;
    assert ranked[m..][q' - m] == x;
    SortByPrefixIsSmallest(c, HitScore, m, p, x);
  }
}
