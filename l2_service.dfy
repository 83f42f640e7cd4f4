/**
 * The older recognition service (`FaceRecognitionService`): a FAISS
 * `IndexFlatL2` of 128-dimensional `face_recognition` encodings beside a
 * parallel list of integer student ids. Matching ranks by squared Euclidean
 * distance and accepts a distance `d` when `1 / (1 + d) >= 1 - tolerance`.
 *
 * The encoder (`compute_face_embedding`) is foreign: it is a function from a
 * face box to an optional encoding, supplied by the caller. Every exception the
 * source catches is modelled by the state it leaves behind.
 */
module RecognitionService {
  import opened Wrappers
  import opened Vectors
  import opened Ranking
  import opened FlatIndex
  import opened Storage

  /** `self.embedding_dim`: `face_recognition` produces 128 values. */
  const EmbeddingDim: nat := 128

  /** `face_recognition_tolerance`'s default setting. */
  const DefaultTolerance: real := 0.6

  /** The two persisted files, `vision_embeddings.index` and `vision_student_ids.pkl`. */
  datatype ServiceDisk = ServiceDisk(indexFile: FileState<Flat>, idsFile: FileState<seq<int>>)

  /** A file FAISS wrote holds a well-formed index. */
  predicate ServiceDiskWf(disk: ServiceDisk)
  {
    disk.indexFile.Stored? ==> Wf(disk.indexFile.content)
  }

  /** A `(student_id, distance)` pair that `recognize_face` returns. */
  datatype Candidate = Candidate(studentId: int, distance: real)

  /** A face box `(x, y, w, h)` from the detector. */
  datatype Box = Box(x: int, y: int, w: int, h: int)

  /** Python's `s[i]`, where a negative `i` counts from the end. */
  function PyIndex<T>(s: seq<T>, i: int): (r: T)
    requires -|s| <= i < |s|
    ensures i >= 0 ==> r == s[i]
    ensures i < 0 ==> r == s[|s| + i]
  {
    if i >= 0 then s[i] else s[|s| + i]
  }

  // ------------------------------------------------------------ recognize_face

  /**
   * The loop of `recognize_face` over the returned hits, as written: a hit is
   * kept when its label is below `len(student_ids)`; None when `student_ids[i]`
   * raises `IndexError`.
   */
  function Collect(hits: seq<Hit>, ids: seq<int>): (r: Option<seq<Candidate>>)
    ensures r.Some? ==> |r.value| <= |hits|
    ensures r.Some? && (forall p :: 0 <= p < |hits| ==> hits[p].score >= 0.0) ==>
      forall j :: 0 <= j < |r.value| ==> r.value[j].distance >= 0.0
  {
    if hits == [] then Some([])
    else
      match Collect(hits[..|hits| - 1], ids)
      case None => None
      case Some(cs) =>
        var h := hits[|hits| - 1];
        if h.idx < |ids| then
          if h.idx < -|ids| then None
          else Some(cs + [Candidate(PyIndex(ids, h.idx), h.score)])
        else Some(cs)
  }

  /** Once the loop has raised on a prefix of the hits, the whole loop has. */
  lemma {:induction false} CollectFailurePersists(hits: seq<Hit>, ids: seq<int>, i: nat)
    requires i <= |hits| && Collect(hits[..i], ids).None?
    ensures Collect(hits, ids).None?
    decreases |hits| - i
  {
    if i < |hits| {
      assert hits[..i + 1][..i] == hits[..i];
      CollectFailurePersists(hits, ids, i + 1);
    } else {
      assert hits[..i] == hits;
    }
  }

  /** Every search hit carries a non-negative distance: a true squared distance or the padding `FLT_MAX`. */
  lemma {:induction false} SearchL2ScoresNonNeg(ix: Flat, q: Vector, k: nat)
    requires Wf(ix) && |q| == ix.d && k > 0
    ensures forall p :: 0 <= p < k ==> SearchL2(ix, q, k)[p].score >= 0.0
  {
    forall p | 0 <= p < k
      ensures SearchL2(ix, q, k)[p].score >= 0.0
    {
      if p < Ntotal(ix) {
        RankedHitsAreGenuine(ix, q, p);
      }
    }
  }

  /**
   * `recognize_face(embedding, k)` as written: [] for a missing or empty index,
   * and when FAISS raises (an encoding of another dimension, `k <= 0`) or the id
   * lookup raises; otherwise the kept hits, nearest first.
   */
  function LookupMatches(index: Option<Flat>, ids: seq<int>, q: Vector, k: int): (r: seq<Candidate>)
    requires index.Some? ==> Wf(index.value)
    ensures index.None? || Ntotal(index.value) == 0 || k <= 0 ==> r == []
    ensures |r| <= (if k > 0 then k else 0)
    ensures forall j :: 0 <= j < |r| ==> r[j].distance >= 0.0
  {
    if index.None? || Ntotal(index.value) == 0 || |q| != index.value.d || k <= 0 then []
    else
      SearchL2ScoresNonNeg(index.value, q, k);
      match Collect(SearchL2(index.value, q, k), ids)
      case None => []
      case Some(cs) => cs
  }

  /** `c` is the id and distance of one of the `hits` whose label is a valid position in `ids`. */
  predicate FromHit(c: Candidate, hits: seq<Hit>, ids: seq<int>)
  {
    exists p :: 0 <= p < |hits| && 0 <= hits[p].idx < |ids| && c == Candidate(ids[hits[p].idx], hits[p].score)
  }

  /** The loop of `recognize_face` with the label check it evidently intends: `0 <= label < len(student_ids)`. */
  function CollectChecked(hits: seq<Hit>, ids: seq<int>): (r: seq<Candidate>)
    ensures |r| <= |hits|
    ensures forall j :: 0 <= j < |r| ==> FromHit(r[j], hits, ids)
  {
    if hits == [] then []
    else
      var n := |hits| - 1;
      var cs := CollectChecked(hits[..n], ids);
      assert forall j :: 0 <= j < |cs| ==> FromHit(cs[j], hits, ids) by {
        forall j | 0 <= j < |cs|
          ensures FromHit(cs[j], hits, ids)
        {
          assert FromHit(cs[j], hits[..n], ids);
          var p :| 0 <= p < n && 0 <= hits[..n][p].idx < |ids| && cs[j] == Candidate(ids[hits[..n][p].idx], hits[..n][p].score);
          assert hits[..n][p] == hits[p];
        }
      }
      var h := hits[n];
      if 0 <= h.idx < |ids| then
        assert FromHit(Candidate(ids[h.idx], h.score), hits, ids) by {
          assert hits[n] == h;
        }
        cs + [Candidate(ids[h.idx], h.score)]
      else cs
  }

  /** `c` pairs the id stored at some position with the true distance of that position's vector. */
  predicate Genuine(c: Candidate, ix: Flat, ids: seq<int>, q: Vector)
    requires Wf(ix) && |q| == ix.d
  {
    exists i :: 0 <= i < Ntotal(ix) && i < |ids| && c == Candidate(ids[i], SqL2(ix.vectors[i], q))
  }

  /** `recognize_face` with padding hits (label -1) discarded: every result is a genuine gallery entry. */
  function LookupMatchesChecked(index: Option<Flat>, ids: seq<int>, q: Vector, k: int): (r: seq<Candidate>)
    requires index.Some? ==> Wf(index.value)
    ensures index.None? || Ntotal(index.value) == 0 || k <= 0 ==> r == []
    ensures forall j :: 0 <= j < |r| ==>
      index.Some? && |q| == index.value.d && Genuine(r[j], index.value, ids, q)
  {
    if index.None? || Ntotal(index.value) == 0 || |q| != index.value.d || k <= 0 then []
    else
      var ix := index.value;
      var hits := SearchL2(ix, q, k);
      var r := CollectChecked(hits, ids);
      assert forall j :: 0 <= j < |r| ==> Genuine(r[j], ix, ids, q) by {
        forall j | 0 <= j < |r|
          ensures Genuine(r[j], ix, ids, q)
        {
          assert FromHit(r[j], hits, ids);
          var p :| 0 <= p < |hits| && 0 <= hits[p].idx < |ids| && r[j] == Candidate(ids[hits[p].idx], hits[p].score);
          assert p < Ntotal(ix);
          RankedHitsAreGenuine(ix, q, p);
        }
      }
      r
  }

  /** Without padding hits, the loop as written and the checked loop agree. */
  lemma {:induction false} CollectAgrees(hits: seq<Hit>, ids: seq<int>)
    requires forall p :: 0 <= p < |hits| ==> hits[p].idx >= 0
    ensures Collect(hits, ids) == Some(CollectChecked(hits, ids))
  {
    if hits != [] {
      CollectAgrees(hits[..|hits| - 1], ids);
    }
  }

  /** For `k <= ntotal` (in particular `k = 1` on a non-empty index) the as-written lookup is the checked one. */
  lemma {:induction false} LookupAgreesWithoutPadding(index: Option<Flat>, ids: seq<int>, q: Vector, k: int)
    requires index.Some? ==> Wf(index.value)
    requires index.Some? ==> k <= Ntotal(index.value)
    ensures LookupMatches(index, ids, q, k) == LookupMatchesChecked(index, ids, q, k)
  {
    if !(index.None? || Ntotal(index.value) == 0 || |q| != index.value.d || k <= 0) {
      var hits := SearchL2(index.value, q, k);
      forall p | 0 <= p < |hits|
        ensures hits[p].idx >= 0
      {
        RankedHitsAreGenuine(index.value, q, p);
      }
      CollectAgrees(hits, ids);
    }
  }

  /**
   * With more neighbours requested than stored, FAISS pads with label -1, which
   * passes the `< len(student_ids)` check and reads the last id: one stored
   * vector for student 7 and `k = 2` report student 7 twice, the second time at
   * distance `FLT_MAX`.
   */
  lemma PaddingLabelReadsLastId()
    ensures LookupMatches(Some(Flat(1, [[0.0]])), [7], [0.0], 2) == [Candidate(7, 0.0), Candidate(7, FltMax)]
    ensures LookupMatchesChecked(Some(Flat(1, [[0.0]])), [7], [0.0], 2) == [Candidate(7, 0.0)]
  {
    SearchOneVector(0.0, 2);
    var hits := SearchL2(Flat(1, [[0.0]]), [0.0], 2);
    assert hits == [Hit(0.0, 0), Hit(FltMax, -1)];
    assert hits[..1] == [Hit(0.0, 0)];
    assert hits[..1][..0] == [];
  }

  // ------------------------------------------------------------------ is_match

  /** `is_match`: the distance turned into `1 / (1 + d)` reaches `1 - tolerance`. */
  predicate IsMatch(d: real, tolerance: real)
    requires d != -1.0
  {
    1.0 / (1.0 + d) >= 1.0 - tolerance
  }

  /** For `d > -1` the rule is `(1 - tolerance) * (1 + d) <= 1`: no division needed. */
  lemma IsMatchWithoutDivision(d: real, tolerance: real)
    requires d > -1.0
    ensures IsMatch(d, tolerance) <==> (1.0 - tolerance) * (1.0 + d) <= 1.0
  {
    var s := 1.0 / (1.0 + d);
    assert s * (1.0 + d) == 1.0;
    PositiveFactorKeepsOrder((1.0 - tolerance) * (1.0 + d), 1.0, 1.0 - tolerance, s, 1.0 + d);
  }

  /** A smaller distance never turns a match into a non-match (for tolerance at most 1). */
  lemma IsMatchMonotone(d1: real, d2: real, tolerance: real)
    requires -1.0 < d1 <= d2 && tolerance <= 1.0
    requires IsMatch(d2, tolerance)
    ensures IsMatch(d1, tolerance)
  {
    IsMatchWithoutDivision(d1, tolerance);
    IsMatchWithoutDivision(d2, tolerance);
    assert (1.0 - tolerance) * (1.0 + d1) <= (1.0 - tolerance) * (1.0 + d2);
  }

  /** With the default tolerance 0.6, a distance matches iff it is at most 1.5. */
  lemma DefaultToleranceAcceptsUpTo(d: real)
    requires d > -1.0
    ensures IsMatch(d, DefaultTolerance) <==> d <= 1.5
  {
    IsMatchWithoutDivision(d, DefaultTolerance);
  }

  // ------------------------------------------------- recognize_faces_in_image

  /** One entry of `recognize_faces_in_image`. */
  datatype FaceEntry = FaceEntry(faceIndex: nat, faceBox: Box, studentId: Option<int>, confidence: real, recognized: bool)

  /** The entry for face `i` with encoding `e`: recognised iff the best match passes `is_match`. */
  function EntryFor(index: Option<Flat>, ids: seq<int>, tolerance: real, i: nat, box: Box, e: Vector): (r: FaceEntry)
    requires index.Some? ==> Wf(index.value)
    ensures r.faceIndex == i && r.faceBox == box
    ensures r.recognized <==> |LookupMatches(index, ids, e, 1)| > 0 && IsMatch(LookupMatches(index, ids, e, 1)[0].distance, tolerance)
    ensures r.recognized ==>
      r.studentId == Some(LookupMatches(index, ids, e, 1)[0].studentId)
      && 0.0 < r.confidence <= 1.0 && r.confidence >= 1.0 - tolerance
    ensures !r.recognized ==> r.studentId.None? && r.confidence == 0.0
  {
    var matches := LookupMatches(index, ids, e, 1);
    if |matches| > 0 && IsMatch(matches[0].distance, tolerance) then
      var d := matches[0].distance;
      assert 1.0 / (1.0 + d) <= 1.0 by {
        assert 1.0 <= 1.0 + d;
        assert (1.0 / (1.0 + d)) * (1.0 + d) == 1.0;
      }
      FaceEntry(i, box, Some(matches[0].studentId), 1.0 / (1.0 + d), true)
    else FaceEntry(i, box, None, 0.0, false)
  }

  /** The entries for the boxes whose encoding succeeds, each tagged with its position. */
  function FaceEntries(index: Option<Flat>, ids: seq<int>, tolerance: real, boxes: seq<Box>, encode: Box -> Option<Vector>): (r: seq<FaceEntry>)
    requires index.Some? ==> Wf(index.value)
    ensures |r| <= |boxes|
    ensures forall j :: 0 <= j < |r| ==>
      r[j].faceIndex < |boxes| && r[j].faceBox == boxes[r[j].faceIndex] && encode(r[j].faceBox).Some?
    ensures forall j, j' :: 0 <= j < j' < |r| ==> r[j].faceIndex < r[j'].faceIndex
    ensures forall j :: 0 <= j < |r| && r[j].recognized ==> r[j].studentId.Some?
  {
    if boxes == [] then []
    else
      var n := |boxes| - 1;
      var rest := FaceEntries(index, ids, tolerance, boxes[..n], encode);
      match encode(boxes[n])
      case None => rest
      case Some(e) => rest + [EntryFor(index, ids, tolerance, n, boxes[n], e)]
  }

  /** Every box that can be encoded has its entry: no face is dropped but the unencodable ones. */
  lemma {:induction false} EveryEncodableFaceHasEntry(index: Option<Flat>, ids: seq<int>, tolerance: real, boxes: seq<Box>, encode: Box -> Option<Vector>, i: nat)
    requires index.Some? ==> Wf(index.value)
    requires i < |boxes| && encode(boxes[i]).Some?
    ensures exists j :: (0 <= j < |FaceEntries(index, ids, tolerance, boxes, encode)|
                         && FaceEntries(index, ids, tolerance, boxes, encode)[j] == EntryFor(index, ids, tolerance, i, boxes[i], encode(boxes[i]).value))
  {
    var n := |boxes| - 1;
    var r := FaceEntries(index, ids, tolerance, boxes, encode);
    if i < n {
      EveryEncodableFaceHasEntry(index, ids, tolerance, boxes[..n], encode, i);
      var rest := FaceEntries(index, ids, tolerance, boxes[..n], encode);
      var j :| 0 <= j < |rest| && rest[j] == EntryFor(index, ids, tolerance, i, boxes[..n][i], encode(boxes[..n][i]).value);
      assert r[j] == rest[j];
    } else {
      assert r[|r| - 1] == EntryFor(index, ids, tolerance, i, boxes[i], encode(boxes[i]).value);
    }
  }

  // ----------------------------------------------------------------- removal

  /** `indices_to_keep`: the positions whose id differs from `sid`, in order. */
  function KeepIndices(ids: seq<int>, sid: int): (r: seq<nat>)
    ensures forall j :: 0 <= j < |r| ==> r[j] < |ids| && ids[r[j]] != sid
    ensures forall j, j' :: 0 <= j < j' < |r| ==> r[j] < r[j']
    ensures forall i :: 0 <= i < |ids| && ids[i] != sid ==> i in r
  {
    if ids == [] then []
    else
      var rest := KeepIndices(ids[..|ids| - 1], sid);
      if ids[|ids| - 1] != sid then rest + [|ids| - 1] else rest
  }

  /** `[s[i] for i in keep]`. */
  function Pick<T>(s: seq<T>, keep: seq<nat>): (r: seq<T>)
    requires forall j :: 0 <= j < |keep| ==> keep[j] < |s|
    ensures |r| == |keep|
    ensures forall j :: 0 <= j < |keep| ==> r[j] == s[keep[j]]
  {
    seq(|keep|, j requires 0 <= j < |keep| => s[keep[j]])
  }

  /** The gallery as a pair of the index and the id list. */
  datatype Gallery = Gallery(index: Option<Flat>, ids: seq<int>)

  /**
   * `remove_student_embedding` as written: the ids of the student are filtered
   * out, but the index keeps every vector (it is only reset when no id remains).
   */
  function RemoveAsWritten(g: Gallery, sid: int): (r: Gallery)
    ensures sid !in r.ids
    ensures sid !in g.ids ==> r == g
    ensures sid in g.ids && r.ids != [] ==> r.index == g.index
    ensures forall x :: x in g.ids && x != sid ==> x in r.ids
  {
    if sid !in g.ids then g
    else
      var keep := KeepIndices(g.ids, sid);
      if |keep| > 0 then Gallery(g.index, Pick(g.ids, keep))
      else Gallery(Some(Empty(EmbeddingDim)), [])
  }

  /** One id per stored vector. */
  predicate GalleryAligned(g: Gallery)
  {
    g.index.Some? && Ntotal(g.index.value) == |g.ids|
  }

  /**
   * Removal with the index rebuilt from the vectors of the kept positions, so
   * that each remaining id still sits beside its own vector.
   */
  function RemoveRebuilt(g: Gallery, sid: int): (r: Gallery)
    requires GalleryAligned(g) && Wf(g.index.value)
    ensures GalleryAligned(r) && Wf(r.index.value)
    ensures sid !in r.ids
    ensures sid !in g.ids ==> r == g
    ensures forall x :: x in g.ids && x != sid ==> x in r.ids
    ensures sid in g.ids && r.ids != [] ==>
      r.index.value.d == g.index.value.d
      && forall j :: 0 <= j < |r.ids| ==>
           exists i :: (0 <= i < |g.ids| && r.ids[j] == g.ids[i] && r.index.value.vectors[j] == g.index.value.vectors[i])
  {
    if sid !in g.ids then g
    else
      var keep := KeepIndices(g.ids, sid);
      if |keep| > 0 then
        var r := Gallery(Some(Flat(g.index.value.d, Pick(g.index.value.vectors, keep))), Pick(g.ids, keep));
        assert forall j :: 0 <= j < |r.ids| ==> r.ids[j] == g.ids[keep[j]] && r.index.value.vectors[j] == g.index.value.vectors[keep[j]];
        r
      else Gallery(Some(Empty(EmbeddingDim)), [])
  }

  /**
   * Removal as written misattributes faces: with students 1 and 2 enrolled as
   * vectors [0] and [1], removing 1 leaves the ids as [2] beside both vectors,
   * so student 1's own face [0] is now recognised as student 2 at distance 0;
   * after the rebuilt removal it is student 2 only at student 2's distance 1.
   */
  lemma RemovalMisattributesFaces()
    ensures var g := Gallery(Some(Flat(1, [[0.0], [1.0]])), [1, 2]);
      !GalleryAligned(RemoveAsWritten(g, 1))
      && LookupMatches(RemoveAsWritten(g, 1).index, RemoveAsWritten(g, 1).ids, [0.0], 1) == [Candidate(2, 0.0)]
      && LookupMatches(RemoveRebuilt(g, 1).index, RemoveRebuilt(g, 1).ids, [0.0], 1) == [Candidate(2, 1.0)]
  {
    RemoveFirstOfTwo();
    RebuildFirstOfTwo();
    SearchTwoVectors();
    var hits := SearchL2(Flat(1, [[0.0], [1.0]]), [0.0], 1);
    assert hits[..0] == [];
    SearchOneVector(1.0, 1);
    var hits2 := SearchL2(Flat(1, [[1.0]]), [0.0], 1);
    assert hits2 == [Hit(1.0, 0)];
    assert hits2[..0] == [];
  }

  /** Removing student 1 from ids [1, 2] as written keeps both vectors beside the id list [2]. */
  lemma RemoveFirstOfTwo()
    ensures var g := Gallery(Some(Flat(1, [[0.0], [1.0]])), [1, 2]);
      RemoveAsWritten(g, 1) == Gallery(g.index, [2])
  {
    KeepSecondOfTwo();
    var ids := [1, 2];
    assert 1 in ids;
    assert Pick(ids, [1]) == [2];
  }

  /** Removing student 1 from ids [1, 2] by rebuilding keeps only student 2's vector. */
  lemma RebuildFirstOfTwo()
    ensures var g := Gallery(Some(Flat(1, [[0.0], [1.0]])), [1, 2]);
      GalleryAligned(g) && Wf(g.index.value)
      && RemoveRebuilt(g, 1) == Gallery(Some(Flat(1, [[1.0]])), [2])
  {
    var vs: seq<Vector> := [[0.0], [1.0]];
    var g := Gallery(Some(Flat(1, vs)), [1, 2]);
    assert GalleryAligned(g) && Wf(g.index.value) by {
      assert |vs[0]| == 1 && |vs[1]| == 1;
    }
    assert KeepIndices(g.ids, 1) == [1] by {
      KeepSecondOfTwo();
    }
    assert RemoveRebuilt(g, 1) == Gallery(Some(Flat(1, Pick(vs, [1]))), Pick([1, 2], [1])) by {
      RebuiltKeeps(g, 1);
    }
    PickSecondOfTwo();
  }

  /** The rebuilt removal keeps exactly the vectors and ids at the kept positions. */
  lemma RebuiltKeeps(g: Gallery, sid: int)
    requires GalleryAligned(g) && Wf(g.index.value)
    requires sid in g.ids && |KeepIndices(g.ids, sid)| > 0
    ensures var keep := KeepIndices(g.ids, sid);
      RemoveRebuilt(g, sid) == Gallery(Some(Flat(g.index.value.d, Pick(g.index.value.vectors, keep))), Pick(g.ids, keep))
  {
  }

  /** Position 1 of the two-vector gallery is [1] with id 2. */
  lemma PickSecondOfTwo()
    ensures Pick([[0.0], [1.0]], [1]) == [[1.0]]
    ensures Pick([1, 2], [1]) == [2]
  {
  }

  /** Only position 1 of [1, 2] survives the removal of student 1. */
  lemma KeepSecondOfTwo()
    ensures KeepIndices([1, 2], 1) == [1]
  {
    var ids := [1, 2];
    assert ids[..1] == [1];
    assert ids[..1][..0] == [];
    assert KeepIndices([], 1) == [];
    assert KeepIndices([1], 1) == [];
  }

  /** The squared distance between two one-component vectors. */
  lemma SqL2OfScalars(a: real, b: real)
    ensures SqL2([a], [b]) == (a - b) * (a - b)
  {
    var u: Vector := [a];
    var v: Vector := [b];
    assert u[..0] == [] && v[..0] == [];
  }

  /** Searching [0] among [0] and [1] with k = 1 finds position 0. */
  lemma SearchTwoVectors()
    ensures SearchL2(Flat(1, [[0.0], [1.0]]), [0.0], 1) == [Hit(0.0, 0)]
  {
    var ix := Flat(1, [[0.0], [1.0]]);
    SqL2OfScalars(0.0, 0.0);
    SqL2OfScalars(1.0, 0.0);
    var c := Candidates(ix, [0.0]);
    assert c == [Hit(0.0, 0), Hit(1.0, 1)];
    assert c[..1] == [Hit(0.0, 0)];
    assert c[..1][..0] == [];
    assert SortBy(c[..1], HitScore) == [Hit(0.0, 0)];
    assert [Hit(0.0, 0)][1..] == [];
    assert InsertBy(Hit(1.0, 1), [Hit(0.0, 0)], HitScore) == [Hit(0.0, 0), Hit(1.0, 1)];
    assert SortBy(c, HitScore) == [Hit(0.0, 0), Hit(1.0, 1)];
  }

  /** Searching [0] in a one-vector index: the vector, then padding. */
  lemma SearchOneVector(v: real, k: nat)
    requires k > 0
    ensures SearchL2(Flat(1, [[v]]), [0.0], k) == [Hit(v * v, 0)] + seq(k - 1, p => Hit(FltMax, -1))
  {
    var ix := Flat(1, [[v]]);
    SqL2OfScalars(v, 0.0);
    var c := Candidates(ix, [0.0]);
    assert c == [Hit(v * v, 0)];
    assert c[..0] == [];
    assert SortBy(c, HitScore) == [Hit(v * v, 0)];
  }

  // --------------------------------------------------------------- the service

  class FaceRecognitionService {
    /** `settings.face_recognition_tolerance` (0.6 unless configured otherwise). */
    const tolerance: real
    var index: Option<Flat>
    var studentIds: seq<int>
    var disk: ServiceDisk

    /** A present index is well formed. */
    ghost predicate Valid()
      reads this
    {
      index.Some? ==> Wf(index.value)
    }

    /** One id per stored vector (a missing index stores none). */
    predicate Aligned()
      reads this
    {
      (if index.None? then 0 else Ntotal(index.value)) == |studentIds|
    }

    /** `__init__`: no index, no ids, then `_load_index`. */
    constructor (tolerance: real, disk: ServiceDisk)
      requires ServiceDiskWf(disk)
      ensures this.tolerance == tolerance && this.disk == disk && Valid()
      ensures disk.indexFile.Corrupt? || disk.idsFile.Corrupt? ==> index == Some(Empty(EmbeddingDim)) && studentIds == []
      ensures !disk.indexFile.Corrupt? && !disk.idsFile.Corrupt? ==>
        index == (if disk.indexFile.Stored? then Some(disk.indexFile.content) else None)
        && studentIds == (if disk.idsFile.Stored? then disk.idsFile.content else [])
    {
      this.tolerance := tolerance;
      this.disk := disk;
      index := None;
      studentIds := [];
      new;
      LoadIndex();
    }

    /**
     * `_load_index`: each existing file is read in turn; a read that raises
     * resets both to an empty 128-dimensional index and no ids; a missing file
     * leaves its part as it was.
     */
    method LoadIndex()
      requires ServiceDiskWf(disk)
      modifies this`index, this`studentIds
      ensures Valid() || old(!Valid())
      ensures disk.indexFile.Corrupt? || disk.idsFile.Corrupt? ==> index == Some(Empty(EmbeddingDim)) && studentIds == []
      ensures !disk.indexFile.Corrupt? && !disk.idsFile.Corrupt? ==>
        index == (if disk.indexFile.Stored? then Some(disk.indexFile.content) else old(index))
        && studentIds == (if disk.idsFile.Stored? then disk.idsFile.content else old(studentIds))
    {
      if disk.indexFile.Corrupt? {
        index := Some(Empty(EmbeddingDim));
        studentIds := [];
        return;
      }
      if disk.indexFile.Stored? {
        index := Some(disk.indexFile.content);
      }
      match disk.idsFile
      case Corrupt =>
        index := Some(Empty(EmbeddingDim));
        studentIds := [];
      case Stored(ids) =>
        studentIds := ids;
      case Absent =>
    }

    /** `_save_index`: `write_index(None)` raises before either file is written. */
    method SaveIndex()
      modifies this`disk
      ensures index.None? ==> disk == old(disk)
      ensures index.Some? ==> disk == ServiceDisk(Stored(index.value), Stored(studentIds))
    {
      if index.Some? {
        disk := ServiceDisk(Stored(index.value), Stored(studentIds));
      }
    }

    /**
     * `add_student_embedding`: a missing index is first initialised (which also
     * empties the ids); an encoding of the wrong dimension makes FAISS raise and
     * nothing more happens; otherwise one vector and one id are appended and saved.
     */
    method AddStudentEmbedding(studentId: int, e: Vector)
      requires Valid()
      modifies this`index, this`studentIds, this`disk
      ensures Valid() && index.Some?
      ensures old(index).None? ==> |e| != EmbeddingDim ==> index == Some(Empty(EmbeddingDim)) && studentIds == [] && disk == old(disk)
      ensures old(index).Some? && |e| != old(index).value.d ==> unchanged(this)
      ensures var base := if old(index).None? then Empty(EmbeddingDim) else old(index).value;
        var baseIds := if old(index).None? then [] else old(studentIds);
        |e| == base.d ==>
          index == Some(FlatIndex.Add(base, e)) && studentIds == baseIds + [studentId]
          && disk == ServiceDisk(Stored(index.value), Stored(studentIds))
      ensures old(index).None? || old(Aligned()) ==> Aligned()
    {
      if index.None? {
        index := Some(Empty(EmbeddingDim));
        studentIds := [];
      }
      if |e| != index.value.d {
        return;
      }
      index := Some(FlatIndex.Add(index.value, e));
      studentIds := studentIds + [studentId];
      SaveIndex();
    }

    /** `recognize_face(embedding, k)`: the search, then the loop over its hits. */
    method RecognizeFace(q: Vector, k: int) returns (r: seq<Candidate>)
      requires Valid()
      ensures r == LookupMatches(index, studentIds, q, k)
    {
      if index.None? || Ntotal(index.value) == 0 || |q| != index.value.d || k <= 0 {
        return [];
      }
      var hits := SearchL2(index.value, q, k);
      var results: seq<Candidate> := [];
      for i := 0 to |hits|
        invariant Collect(hits[..i], studentIds) == Some(results)
      {
        assert hits[..i + 1][..i] == hits[..i];
        var h := hits[i];
        if h.idx < |studentIds| {
          if h.idx < -|studentIds| {
            CollectFailurePersists(hits, studentIds, i + 1);
            return [];
          }
          results := results + [Candidate(PyIndex(studentIds, h.idx), h.score)];
        }
      }
      assert hits[..|hits|] == hits;
      r := results;
    }

    /** The entry of one encoded face: its best match if within the tolerance, else unrecognised. */
    method RecognizeOne(i: nat, box: Box, e: Vector) returns (entry: FaceEntry)
      requires Valid()
      ensures entry == EntryFor(index, studentIds, tolerance, i, box, e)
    {
      var matches := RecognizeFace(e, 1);
      entry := FaceEntry(i, box, None, 0.0, false);
      if |matches| > 0 && IsMatch(matches[0].distance, tolerance) {
        var d := matches[0].distance;
        entry := entry.(studentId := Some(matches[0].studentId), confidence := 1.0 / (1.0 + d), recognized := true);
      }
    }

    /**
     * `recognize_faces_in_image`: for each box whose encoding succeeds, its best
     * match (k = 1) and whether it passes `is_match`.
     */
    method RecognizeFacesInImage(boxes: seq<Box>, encode: Box -> Option<Vector>) returns (r: seq<FaceEntry>)
      requires Valid()
      ensures r == FaceEntries(index, studentIds, tolerance, boxes, encode)
    {
      r := [];
      for i := 0 to |boxes|
        invariant r == FaceEntries(index, studentIds, tolerance, boxes[..i], encode)
      {
        assert boxes[..i + 1][..i] == boxes[..i];
        var e := encode(boxes[i]);
        if e.Some? {
          var entry := RecognizeOne(i, boxes[i], e.value);
          r := r + [entry];
        }
      }
      assert boxes[..|boxes|] == boxes;
    }

    /** `remove_student_embedding` as written: the index is not rebuilt; saved when the id was present. */
    method RemoveStudentEmbedding(studentId: int)
      modifies this`index, this`studentIds, this`disk
      ensures Gallery(index, studentIds) == RemoveAsWritten(old(Gallery(index, studentIds)), studentId)
      ensures studentId !in old(studentIds) ==> unchanged(this)
      ensures studentId in old(studentIds) && index.Some? ==> disk == ServiceDisk(Stored(index.value), Stored(studentIds))
      ensures studentId in old(studentIds) && index.None? ==> disk == old(disk)
    {
      if studentId in studentIds {
        var keep := KeepIndices(studentIds, studentId);
        if |keep| > 0 {
          studentIds := Pick(studentIds, keep);
        } else {
          index := Some(Empty(EmbeddingDim));
          studentIds := [];
        }
        SaveIndex();
      }
    }

    /** Removal with the index rebuilt from the kept vectors: alignment is kept. */
    method RemoveStudentEmbeddingRebuilt(studentId: int)
      requires Valid() && Aligned() && index.Some?
      modifies this`index, this`studentIds, this`disk
      ensures Valid() && Aligned()
      ensures Gallery(index, studentIds) == RemoveRebuilt(old(Gallery(index, studentIds)), studentId)
      ensures studentId in old(studentIds) ==> disk == ServiceDisk(Stored(index.value), Stored(studentIds))
      ensures studentId !in old(studentIds) ==> unchanged(this)
    {
      if studentId in studentIds {
        var g := RemoveRebuilt(Gallery(index, studentIds), studentId);
        index := g.index;
        studentIds := g.ids;
        SaveIndex();
      }
    }
  }
}
