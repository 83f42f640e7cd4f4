/**
 * The recognition core of the AI service (`FaceRecognitionSystem`): a FAISS
 * inner-product index of 512-dimensional ArcFace embeddings beside a parallel
 * list of student ids, single- and multi-frame enrolment, single-image,
 * multi-frame (voting) and per-face matching.
 *
 * The face detector and the embedding network are foreign: an image file is
 * modelled by what OpenCV and InsightFace make of it (readable or not, its size,
 * its Laplacian variance and mean grey level, the detected faces with their
 * boxes, detection scores and normalised embeddings). The Euclidean norm used by
 * `_l2_normalize` is a measurement supplied by the caller (`norm`).
 */
module FaceRecognition {
  import opened Wrappers
  import opened Numeric
  import opened Vectors
  import opened Ranking
  import opened FlatIndex
  import opened Storage

  /** ArcFace (buffalo_l) embedding dimension, `self.dimension`. */
  const Dimension: nat := 512

  type Embedding = v: Vector | |v| == Dimension witness seq(Dimension, i => 0.0)

  datatype BBox = BBox(x1: real, y1: real, x2: real, y2: real)

  /** One face as InsightFace reports it. */
  datatype DetectedFace = DetectedFace(bbox: Option<BBox>, detScore: real, normedEmbedding: Option<Embedding>)

  /** What OpenCV and the detector make of a readable image. */
  datatype Picture = Picture(width: nat, height: nat, laplacianVar: NonNegReal, meanGray: real, faces: seq<DetectedFace>)

  /** `cv2.imread` either fails (returns None) or yields a picture. */
  datatype ImageFile = Unreadable | Readable(picture: Picture)

  /** The exceptions the source raises, one constructor per cause. */
  datatype FaceError =
    | ImageLoadFailed          // "Image load failed"
    | NoFaceDetected           // "No face detected"
    | MissingBox               // a detected face without `bbox` while choosing the best face
    | MissingEmbedding         // the chosen face has no `normed_embedding`
    | NoValidFrames            // "No valid faces found in frames"
    | AggregationFailed        // "Failed to aggregate embeddings"
    | EmptyStack               // `np.stack` of an empty slice
    | ThresholdIsOne           // the confidence rescale divides by `1 - threshold`
    | StudentIndexOutOfRange   // `self.student_ids[idx]` past the end of the list
    | IndexFileUnreadable      // `faiss.read_index` fails
    | IdsFileUnreadable        // `pickle.load` fails

  /** The two persisted files, `index.faiss` and `student_ids.pkl`. */
  datatype Disk = Disk(indexFile: FileState<Flat>, idsFile: FileState<seq<string>>)

  /** A file FAISS wrote holds a well-formed index. */
  predicate DiskWf(disk: Disk)
  {
    disk.indexFile.Stored? ==> Wf(disk.indexFile.content)
  }

  /** Loading raises exactly when both files exist and one of them cannot be read. */
  predicate LoadFails(disk: Disk)
  {
    !disk.indexFile.Absent? && !disk.idsFile.Absent? && (disk.indexFile.Corrupt? || disk.idsFile.Corrupt?)
  }

  // ---------------------------------------------------------------- extraction

  /** The key `extract_embedding` maximises: ten times the detection score plus the box area. */
  function SelectionKey(f: DetectedFace): real
    requires f.bbox.Some?
  {
    var b := f.bbox.value;
    f.detScore * 10.0 + (b.x2 - b.x1) * (b.y2 - b.y1)
  }

  predicate AllBoxed(fs: seq<DetectedFace>)
  {
    forall i :: 0 <= i < |fs| ==> fs[i].bbox.Some?
  }

  /** The face `max(faces, key=...)` picks: the first one with the largest key. */
  function BestFace(fs: seq<DetectedFace>): (i: nat)
    requires |fs| > 0 && AllBoxed(fs)
    ensures i < |fs|
    ensures forall j :: 0 <= j < |fs| ==> SelectionKey(fs[j]) <= SelectionKey(fs[i])
    ensures forall j :: 0 <= j < i ==> SelectionKey(fs[j]) < SelectionKey(fs[i])
  {
    var keys := seq(|fs|, j requires 0 <= j < |fs| => SelectionKey(fs[j]));
    assert forall j :: 0 <= j < |fs| ==> keys[j] == SelectionKey(fs[j]);
    ArgMaxFirst(keys)
  }

  /**
   * `extract_embedding`: the re-normalised embedding of the best face, or the
   * reason extraction raises.
   */
  function ExtractEmbedding(img: ImageFile, norm: Vector -> NonNegReal): (r: Result<Embedding, FaceError>)
    ensures img.Unreadable? ==> r == Failure(ImageLoadFailed)
    ensures img.Readable? && |img.picture.faces| == 0 ==> r == Failure(NoFaceDetected)
    ensures r.Success? <==>
      img.Readable? && |img.picture.faces| > 0 && AllBoxed(img.picture.faces)
      && img.picture.faces[BestFace(img.picture.faces)].normedEmbedding.Some?
    ensures r.Success? ==>
      var e := img.picture.faces[BestFace(img.picture.faces)].normedEmbedding.value;
      r.value == L2Normalize(e, norm(e))
  {
    match img
    case Unreadable => Failure(ImageLoadFailed)
    case Readable(pic) =>
      if |pic.faces| == 0 then Failure(NoFaceDetected)
      else if !AllBoxed(pic.faces) then Failure(MissingBox)
      else
        match pic.faces[BestFace(pic.faces)].normedEmbedding
        case None => Failure(MissingEmbedding)
        case Some(e) => Success(L2Normalize(e, norm(e)))
  }

  // ------------------------------------------------------------------- quality

  /**
   * `_image_quality_score`: 0.7 times the focus score `min(fm / 100, 1)` plus 0.3
   * times the brightness score `1 - min(|mean - 130| / 130, 1)`; 0 for an unreadable file.
   */
  function ImageQualityScore(img: ImageFile): (q: real)
    ensures 0.0 <= q <= 1.0
    ensures img.Unreadable? ==> q == 0.0
  {
    match img
    case Unreadable => 0.0
    case Readable(pic) =>
      var brightness := 1.0 - Min(Abs(pic.meanGray - 130.0) / 130.0, 1.0);
      var focus := Min(pic.laplacianVar / 100.0, 1.0);
      0.7 * focus + 0.3 * brightness
  }

  /** A sharp, mid-grey picture scores the full 1.0. */
  lemma SharpMidGreyScoresOne(pic: Picture)
    requires pic.laplacianVar >= 100.0 && pic.meanGray == 130.0
    ensures ImageQualityScore(Readable(pic)) == 1.0
  {
    assert Min(pic.laplacianVar / 100.0, 1.0) == 1.0;
    assert Abs(pic.meanGray - 130.0) == 0.0;
  }

  // --------------------------------------------------------------- aggregation

  /** Python's `s[:k]`: a negative `k` counts from the end. */
  function PyPrefix<T>(s: seq<T>, k: int): (r: seq<T>)
    ensures k >= 0 ==> r == s[..Min(k as real, |s| as real) as int]
    ensures k < 0 ==> r == s[..if |s| + k > 0 then |s| + k else 0]
  {
    if k >= 0 then (if k < |s| then s[..k] else s)
    else if |s| + k > 0 then s[..|s| + k] else []
  }

  /**
   * `_aggregate_embeddings`: None (here a failure) for no embeddings, otherwise the
   * normalised mean of the first `topk`; an empty slice makes `np.stack` raise.
   */
  function Aggregate(embs: seq<Embedding>, topk: int, norm: Vector -> NonNegReal): (r: Result<Embedding, FaceError>)
    ensures |embs| == 0 <==> r == Failure(AggregationFailed)
    ensures |embs| > 0 && topk > 0 ==> r.Success?
  {
    if |embs| == 0 then Failure(AggregationFailed)
    else
      var top := PyPrefix(embs, topk);
      if |top| == 0 then Failure(EmptyStack)
      else
        var m := Mean(top, Dimension);
        Success(L2Normalize(m, norm(m)))
  }

  /** Only the first `topk` embeddings take part in the aggregate. */
  lemma {:induction false} AggregateUsesPrefix(embs: seq<Embedding>, topk: nat, norm: Vector -> NonNegReal)
    requires 0 < topk <= |embs|
    ensures Aggregate(embs, topk, norm) == Aggregate(embs[..topk], topk, norm)
  {
    assert PyPrefix(embs[..topk], topk) == embs[..topk];
  }

  /** Aggregating one embedding is normalising it. */
  lemma {:induction false} AggregateOfOne(e: Embedding, topk: nat, norm: Vector -> NonNegReal)
    requires topk > 0
    ensures Aggregate([e], topk, norm) == Success(L2Normalize(e, norm(e)))
  {
    assert PyPrefix([e], topk) == [e];
    MeanOfOne(e);
  }

  /** One usable frame with its quality score, as `register_face_multi` collects them. */
  datatype Scored = Scored(quality: real, embedding: Embedding)

  function NegQuality(s: Scored): real
  {
    -s.quality
  }

  /** The frames whose extraction succeeds, in input order, each with its quality. */
  function ScoredFrames(files: seq<ImageFile>, norm: Vector -> NonNegReal): (r: seq<Scored>)
    ensures |r| <= |files|
  {
    if files == [] then []
    else
      var rest := ScoredFrames(files[..|files| - 1], norm);
      var f := files[|files| - 1];
      match ExtractEmbedding(f, norm)
      case Failure(_) => rest
      case Success(e) => rest + [Scored(ImageQualityScore(f), e)]
  }

  /** The number of frames whose extraction succeeds. */
  function CountExtractable(files: seq<ImageFile>, norm: Vector -> NonNegReal): nat
  {
    if files == [] then 0
    else CountExtractable(files[..|files| - 1], norm) + (if ExtractEmbedding(files[|files| - 1], norm).Success? then 1 else 0)
  }

  /** Failed frames are skipped: one scored entry per extractable frame, each from such a frame. */
  lemma {:induction false} ScoredFramesSkipFailures(files: seq<ImageFile>, norm: Vector -> NonNegReal)
    ensures |ScoredFrames(files, norm)| == CountExtractable(files, norm)
    ensures forall s :: s in ScoredFrames(files, norm) ==>
      exists i :: 0 <= i < |files| && ExtractEmbedding(files[i], norm) == Success(s.embedding)
        && s.quality == ImageQualityScore(files[i])
  {
    if files != [] {
      var init := files[..|files| - 1];
      ScoredFramesSkipFailures(init, norm);
      forall s | s in ScoredFrames(files, norm)
        ensures exists i :: (0 <= i < |files| && ExtractEmbedding(files[i], norm) == Success(s.embedding)
                             && s.quality == ImageQualityScore(files[i]))
      {
        if s in ScoredFrames(init, norm) {
          var i :| 0 <= i < |init| && ExtractEmbedding(init[i], norm) == Success(s.embedding)
            && s.quality == ImageQualityScore(init[i]);
          assert files[i] == init[i];
        } else {
          assert files[|files| - 1] == files[|files| - 1];
        }
      }
    }
  }

  function EmbeddingsOf(ss: seq<Scored>): (r: seq<Embedding>)
    ensures |r| == |ss|
    ensures forall i :: 0 <= i < |ss| ==> r[i] == ss[i].embedding
  {
    seq(|ss|, i requires 0 <= i < |ss| => ss[i].embedding)
  }

  /** The usable frames, best quality first (a stable sort, ties in input order). */
  function RankedFrames(files: seq<ImageFile>, norm: Vector -> NonNegReal): seq<Scored>
  {
    SortBy(ScoredFrames(files, norm), NegQuality)
  }

  /** How many frames `register_face_multi` aggregates: `min(5, n)`. */
  function FramesUsed(n: nat): (m: nat)
    ensures m <= 5 && m <= n && (m == 5 || m == n)
  {
    if n < 5 then n else 5
  }

  /**
   * The frames that take part in multi-frame enrolment are the best ones: every
   * usable frame left out has a quality no higher than each frame used.
   */
  lemma {:induction false} EnrolmentUsesBestFrames(files: seq<ImageFile>, norm: Vector -> NonNegReal, p: nat, x: Scored)
    requires p < FramesUsed(|ScoredFrames(files, norm)|)
    requires x in RankedFrames(files, norm)[FramesUsed(|ScoredFrames(files, norm)|)..]
    ensures x.quality <= RankedFrames(files, norm)[p].quality
  {
    var m := FramesUsed(|ScoredFrames(files, norm)|);
    SortByPrefixIsSmallest(ScoredFrames(files, norm), NegQuality, m, p, x);
  }

  /** The embedding multi-frame enrolment stores, when at least one frame is usable. */
  function EnrolmentEmbedding(files: seq<ImageFile>, norm: Vector -> NonNegReal): (r: Result<Embedding, FaceError>)
    ensures r.Success? <==> CountExtractable(files, norm) > 0
  {
    ScoredFramesSkipFailures(files, norm);
    var embs := EmbeddingsOf(RankedFrames(files, norm));
    Aggregate(embs, FramesUsed(|embs|), norm)
  }

  // ------------------------------------------------------------------ matching

  /** The match `recognize_face` returns. */
  datatype Match = Match(studentId: string, confidence: real, similarity: real)

  /** Below a threshold under 1, the rescaled similarity is on the same side of 0 and of 1 as the raw one. */
  lemma RescaleKeepsSides(sim: real, t: real)
    requires t != 1.0
    ensures t < 1.0 ==> ((sim - t) / (1.0 - t) <= 0.0 <==> sim <= t)
    ensures t < 1.0 ==> ((sim - t) / (1.0 - t) >= 1.0 <==> sim >= 1.0)
  {
    if t < 1.0 {
      var d := 1.0 - t;
      var x := (sim - t) / d;
      assert x * d == sim - t;
      PositiveFactorKeepsOrder(sim - t, 0.0, x, 0.0, d);
      PositiveFactorKeepsOrder(d, sim - t, 1.0, x, d);
    }
  }

  /**
   * `max(0, min(1, (sim - t) / (1 - t)))`: how far the similarity is above the
   * threshold, as a share of the way from the threshold to 1.
   */
  function RescaledConfidence(sim: real, t: real): (c: real)
    requires t != 1.0
    ensures 0.0 <= c <= 1.0
    ensures t < 1.0 ==> (c == 0.0 <==> sim <= t)
    ensures t < 1.0 && sim >= t ==> (c == 1.0 <==> sim >= 1.0)
  {
    var x := (sim - t) / (1.0 - t);
    RescaleKeepsSides(sim, t);
    Clamp01(x)
  }

  /**
   * The match rule shared by `recognize_face` and `recognize_faces_in_image`:
   * given the top-1 hit, no match below the threshold (or with no hit), an
   * `IndexError` when the id list is too short, otherwise the id at the hit's
   * position with the rescaled confidence.
   */
  function MatchHit(h: Hit, ids: seq<string>, t: real): (r: Result<Option<Match>, FaceError>)
    ensures r == Success(None) <==> !(h.idx >= 0 && h.score >= t)
    ensures r == Failure(StudentIndexOutOfRange) <==> h.idx >= 0 && h.score >= t && h.idx >= |ids|
    ensures r.Success? && r.value.Some? ==>
      0 <= h.idx < |ids| && r.value.value.studentId == ids[h.idx]
      && r.value.value.similarity == h.score >= t && 0.0 <= r.value.value.confidence <= 1.0
  {
    if h.idx >= 0 && h.score >= t then
      if h.idx >= |ids| then Failure(StudentIndexOutOfRange)
      else if t == 1.0 then Failure(ThresholdIsOne)
      else Success(Some(Match(ids[h.idx], RescaledConfidence(h.score, t), h.score)))
    else Success(None)
  }

  /** A successful match names the gallery entry most similar to the probe. */
  predicate IsBestMatch(ix: Flat, ids: seq<string>, e: Vector, m: Match)
    requires Wf(ix) && |e| == ix.d
  {
    exists i :: 0 <= i < Ntotal(ix) && i < |ids| && ids[i] == m.studentId && Dot(ix.vectors[i], e) == m.similarity
      && forall j :: 0 <= j < Ntotal(ix) ==> Dot(ix.vectors[j], e) <= m.similarity
  }

  // ---------------------------------------------------------- voting (multi-frame)

  /**
   * The state of `recognize_face_multi`'s loop: the vote counts (with the order in
   * which ids entered the dict), the best frame so far and the number of frames
   * whose extraction succeeded.
   */
  datatype Tally = Tally(votes: map<string, nat>, order: seq<string>, bestId: Option<string>, bestSim: real, frames: nat)

  const NoVotes: Tally := Tally(map[], [], None, -1.0, 0)

  /** One frame of `recognize_face_multi`; an `IndexError` aborts the call. */
  function FrameStep(ix: Flat, ids: seq<string>, norm: Vector -> NonNegReal, st: Tally, file: ImageFile, t: real): Result<Tally, FaceError>
    requires Wf(ix) && ix.d == Dimension
  {
    match ExtractEmbedding(file, norm)
    case Failure(_) => Success(st)
    case Success(e) =>
      var h := SearchIP1(ix, e);
      var counted := st.(frames := st.frames + 1);
      if h.idx < 0 then Success(counted)
      else if h.idx >= |ids| then Failure(StudentIndexOutOfRange)
      else
        var sid := ids[h.idx];
        var before := if sid in st.votes then st.votes[sid] else 0;
        var voted := counted.(
          votes := st.votes[sid := before + (if h.score >= t then 1 else 0)],
          order := if sid in st.votes then st.order else st.order + [sid]);
        if h.score > st.bestSim then Success(voted.(bestId := Some(sid), bestSim := h.score))
        else Success(voted)
  }

  /** The loop of `recognize_face_multi` over the frames. */
  function TallyFrames(ix: Flat, ids: seq<string>, norm: Vector -> NonNegReal, files: seq<ImageFile>, t: real): Result<Tally, FaceError>
    requires Wf(ix) && ix.d == Dimension
  {
    if files == [] then Success(NoVotes)
    else
      match TallyFrames(ix, ids, norm, files[..|files| - 1], t)
      case Failure(err) => Failure(err)
      case Success(st) => FrameStep(ix, ids, norm, st, files[|files| - 1], t)
  }

  /** The bookkeeping the loop keeps: the dict's keys are the ids in `order`, each once. */
  predicate TallyWf(st: Tally)
  {
    (forall i :: 0 <= i < |st.order| ==> st.order[i] in st.votes)
    && (forall sid :: sid in st.votes ==> sid in st.order)
    && (forall i, j :: 0 <= i < j < |st.order| ==> st.order[i] != st.order[j])
    && (st.bestId.Some? ==> st.bestId.value in st.votes)
    && |st.order| <= st.frames
  }

  /** The winner: the first id in dict order with the most votes (`max(votes.items(), key=...)`). */
  function Winner(st: Tally): (w: string)
    requires TallyWf(st) && |st.order| > 0
    ensures w in st.votes
    ensures forall sid :: sid in st.votes ==> st.votes[sid] <= st.votes[w]
    ensures exists k :: (0 <= k < |st.order| && st.order[k] == w
                          && forall j :: 0 <= j < k ==> st.votes[st.order[j]] < st.votes[w])
  {
    var counts := seq(|st.order|, i requires 0 <= i < |st.order| => st.votes[st.order[i]] as real);
    var k := ArgMaxFirst(counts);
    assert forall j :: 0 <= j < k ==> st.votes[st.order[j]] < st.votes[st.order[k]] by {
      forall j | 0 <= j < k ensures st.votes[st.order[j]] < st.votes[st.order[k]] {
        assert counts[j] < counts[k];
      }
    }
    assert forall sid :: sid in st.votes ==> st.votes[sid] as real <= counts[k] by {
      forall sid | sid in st.votes ensures st.votes[sid] as real <= counts[k] {
        var i :| 0 <= i < |st.order| && st.order[i] == sid;
        assert counts[i] == st.votes[sid] as real;
      }
    }
    st.order[k]
  }

  /** A tie goes to the id seen first: if the first-seen id has the most votes, it wins. */
  lemma FirstSeenWinsTies(st: Tally)
    requires TallyWf(st) && |st.order| > 0
    requires forall sid :: sid in st.votes ==> st.votes[sid] <= st.votes[st.order[0]]
    ensures Winner(st) == st.order[0]
  {
    var w := Winner(st);
    assert st.order[0] in st.votes;
    if w != st.order[0] {
      assert false;
    }
  }

  /** What `recognize_face_multi` reports on acceptance. */
  datatype MultiMatch = MultiMatch(studentId: string, confidence: real, similarity: real, frames: nat, votes: nat)

  /**
   * The decision after the loop: no frame or no best frame means no match;
   * otherwise accept iff the best similarity reaches the threshold and the
   * winner has at least `max(1, frames // 3)` votes.
   */
  function Decide(st: Tally, t: real): (r: Result<Option<MultiMatch>, FaceError>)
    requires TallyWf(st)
    ensures st.frames == 0 || st.bestId.None? ==> r == Success(None)
    ensures r.Success? && r.value.Some? ==>
      r.value.value.studentId in st.votes
      && r.value.value.votes == st.votes[r.value.value.studentId]
      && (forall sid :: sid in st.votes ==> st.votes[sid] <= r.value.value.votes)
      && r.value.value.similarity == st.bestSim >= t
      && r.value.value.votes >= 1 && r.value.value.votes >= st.frames / 3
      && r.value.value.frames == st.frames
      && 0.0 <= r.value.value.confidence <= 1.0
    ensures |st.order| > 0 && r.Success? && r.value.Some? ==> r.value.value.studentId == Winner(st)
    ensures t != 1.0 && st.frames > 0 && st.bestId.Some? ==>
      (r.Success? && r.value.Some? <==> st.bestSim >= t && st.votes[Winner(st)] >= Max(1.0, (st.frames / 3) as real) as int)
  {
    if st.frames == 0 || st.bestId.None? then Success(None)
    else
      var w := Winner(st);
      var v := st.votes[w];
      if st.bestSim >= t && v >= Max(1.0, (st.frames / 3) as real) as int then
        if t == 1.0 then Failure(ThresholdIsOne)
        else Success(Some(MultiMatch(w, RescaledConfidence(st.bestSim, t), st.bestSim, st.frames, v)))
      else Success(None)
  }

  /** The whole of `recognize_face_multi` over a given gallery. */
  function MultiOutcome(ix: Flat, ids: seq<string>, norm: Vector -> NonNegReal, files: seq<ImageFile>, t: real): Result<Option<MultiMatch>, FaceError>
    requires Wf(ix) && ix.d == Dimension
  {
    if Ntotal(ix) == 0 then Success(None)
    else
      match TallyFrames(ix, ids, norm, files, t)
      case Failure(err) => Failure(err)
      case Success(st) =>
        TallyFramesWf(ix, ids, norm, files, t);
        Decide(st, t)
  }

  /** The loop keeps its bookkeeping consistent. */
  lemma {:induction false} TallyFramesWf(ix: Flat, ids: seq<string>, norm: Vector -> NonNegReal, files: seq<ImageFile>, t: real)
    requires Wf(ix) && ix.d == Dimension
    ensures TallyFrames(ix, ids, norm, files, t).Success? ==> TallyWf(TallyFrames(ix, ids, norm, files, t).value)
  {
    if files != [] {
      var prefix := files[..|files| - 1];
      TallyFramesWf(ix, ids, norm, prefix, t);
      if TallyFrames(ix, ids, norm, prefix, t).Success? {
        FrameStepWf(ix, ids, norm, TallyFrames(ix, ids, norm, prefix, t).value, files[|files| - 1], t);
      }
    }
  }

  /** One frame keeps the dict's keys and the order list in step, each id once. */
  lemma FrameStepWf(ix: Flat, ids: seq<string>, norm: Vector -> NonNegReal, st: Tally, file: ImageFile, t: real)
    requires Wf(ix) && ix.d == Dimension
    requires TallyWf(st)
    ensures FrameStep(ix, ids, norm, st, file, t).Success? ==> TallyWf(FrameStep(ix, ids, norm, st, file, t).value)
  {
    var ex := ExtractEmbedding(file, norm);
    if ex.Success? {
      var h := SearchIP1(ix, ex.value);
      if 0 <= h.idx < |ids| {
        var sid := ids[h.idx];
        if sid !in st.votes {
          assert forall i :: 0 <= i < |st.order| ==> st.order[i] != sid;
        }
      }
    }
  }

  /** Only frames whose extraction succeeds count toward `total_frames`. */
  lemma {:induction false} TallyCountsExtractable(ix: Flat, ids: seq<string>, norm: Vector -> NonNegReal, files: seq<ImageFile>, t: real)
    requires Wf(ix) && ix.d == Dimension
    ensures TallyFrames(ix, ids, norm, files, t).Success? ==>
      TallyFrames(ix, ids, norm, files, t).value.frames == CountExtractable(files, norm)
  {
    if files != [] {
      TallyCountsExtractable(ix, ids, norm, files[..|files| - 1], t);
    }
  }

  /** A frame votes for `sid` iff its top-1 neighbour belongs to `sid` with similarity at least the threshold. */
  predicate VotesFor(ix: Flat, ids: seq<string>, norm: Vector -> NonNegReal, file: ImageFile, t: real, sid: string)
    requires Wf(ix) && ix.d == Dimension
  {
    var ex := ExtractEmbedding(file, norm);
    ex.Success? &&
      var h := SearchIP1(ix, ex.value);
      0 <= h.idx < |ids| && ids[h.idx] == sid && h.score >= t
  }

  function CountVotes(ix: Flat, ids: seq<string>, norm: Vector -> NonNegReal, files: seq<ImageFile>, t: real, sid: string): nat
    requires Wf(ix) && ix.d == Dimension
  {
    if files == [] then 0
    else
      var last := if VotesFor(ix, ids, norm, files[|files| - 1], t, sid) then 1 else 0;
      CountVotes(ix, ids, norm, files[..|files| - 1], t, sid) + last
  }

  /** Each vote count is the number of frames that voted for that id. */
  lemma {:induction false} TallyCountsVotes(ix: Flat, ids: seq<string>, norm: Vector -> NonNegReal, files: seq<ImageFile>, t: real, sid: string)
    requires Wf(ix) && ix.d == Dimension
    requires TallyFrames(ix, ids, norm, files, t).Success?
    ensures (if sid in TallyFrames(ix, ids, norm, files, t).value.votes
             then TallyFrames(ix, ids, norm, files, t).value.votes[sid] else 0)
            == CountVotes(ix, ids, norm, files, t, sid)
  {
    if files != [] {
      TallyCountsVotes(ix, ids, norm, files[..|files| - 1], t, sid);
    }
  }

  /** With an id for every stored vector, the voting loop never raises. */
  lemma {:induction false} AlignedTallyNeverFails(ix: Flat, ids: seq<string>, norm: Vector -> NonNegReal, files: seq<ImageFile>, t: real)
    requires Wf(ix) && ix.d == Dimension && Ntotal(ix) <= |ids|
    ensures TallyFrames(ix, ids, norm, files, t).Success?
  {
    if files != [] {
      AlignedTallyNeverFails(ix, ids, norm, files[..|files| - 1], t);
    }
  }

  /** Once a prefix of the frames raises, the whole call raises with the same error. */
  lemma {:induction false} TallyFailurePersists(ix: Flat, ids: seq<string>, norm: Vector -> NonNegReal, files: seq<ImageFile>, t: real, i: nat)
    requires Wf(ix) && ix.d == Dimension
    requires i <= |files| && TallyFrames(ix, ids, norm, files[..i], t).Failure?
    ensures TallyFrames(ix, ids, norm, files, t) == TallyFrames(ix, ids, norm, files[..i], t)
    decreases |files| - i
  {
    if i < |files| {
      assert files[..i + 1][..i] == files[..i];
      TallyFailurePersists(ix, ids, norm, files, t, i + 1);
    } else {
      assert files[..i] == files;
    }
  }

  /**
   * The reported similarity is the best frame's, and the best frame need not be
   * the winner's: two frames for "A" (0.5 each) and one for "B" (0.9) with
   * threshold 0.35 accept "A" with similarity 0.9.
   */
  lemma SimilarityMayComeFromAnotherId()
    ensures
      var st := Tally(map["A" := 2, "B" := 1], ["A", "B"], Some("B"), 0.9, 3);
      TallyWf(st) && Decide(st, 0.35).Success? && Decide(st, 0.35).value.Some?
      && Decide(st, 0.35).value.value.studentId == "A" && Decide(st, 0.35).value.value.similarity == 0.9
  {
    var st := Tally(map["A" := 2, "B" := 1], ["A", "B"], Some("B"), 0.9, 3);
    assert st.order[0] == "A";
    var counts := seq(|st.order|, i requires 0 <= i < |st.order| => st.votes[st.order[i]] as real);
    assert counts == [2.0, 1.0];
    assert ArgMaxFirst(counts) == 0;
  }

  // -------------------------------------------------------- per-face matching

  /** One entry of `recognize_faces_in_image`'s result. */
  datatype FaceResult = FaceResult(bbox: seq<int>, recognized: bool, studentId: Option<string>, similarity: Option<real>, confidence: Option<real>)

  /** The result of `recognize_faces_in_image`: the image size and one entry per face. */
  datatype FrameResult = FrameResult(width: nat, height: nat, faces: seq<FaceResult>)

  /** The integer box (`int()` truncates), `[0, 0, 0, 0]` without a box. */
  function Rect(f: DetectedFace): (r: seq<int>)
    ensures |r| == 4
  {
    match f.bbox
    case None => [0, 0, 0, 0]
    case Some(b) => [Trunc(b.x1), Trunc(b.y1), Trunc(b.x2), Trunc(b.y2)]
  }

  /** The entry for one face, or the error that aborts the whole call. */
  function FaceOutcome(ix: Flat, ids: seq<string>, norm: Vector -> NonNegReal, f: DetectedFace, t: real): (r: Result<FaceResult, FaceError>)
    requires Wf(ix) && ix.d == Dimension
    ensures r.Success? ==> r.value.bbox == Rect(f)
    ensures r.Success? && r.value.recognized ==>
      r.value.studentId.Some? && r.value.similarity.Some? && r.value.similarity.value >= t
      && r.value.confidence.Some? && 0.0 <= r.value.confidence.value <= 1.0
    ensures r.Success? && !r.value.recognized ==> r.value.studentId.None? && r.value.confidence.None?
    ensures Ntotal(ix) == 0 || f.normedEmbedding.None? ==> r == Success(FaceResult(Rect(f), false, None, None, None))
    ensures r.Success? && Ntotal(ix) > 0 && f.normedEmbedding.Some? ==>
      var q := L2Normalize(f.normedEmbedding.value, norm(f.normedEmbedding.value));
      (r.value.recognized <==> exists j :: 0 <= j < Ntotal(ix) && Dot(ix.vectors[j], q) >= t)
      && (r.value.recognized ==>
            IsBestMatch(ix, ids, q, Match(r.value.studentId.value, r.value.confidence.value, r.value.similarity.value)))
      && (!r.value.recognized ==>
            r.value.similarity.Some? && r.value.similarity.value < t
            && forall j :: 0 <= j < Ntotal(ix) ==> Dot(ix.vectors[j], q) <= r.value.similarity.value)
  {
    if Ntotal(ix) == 0 || f.normedEmbedding.None? then Success(FaceResult(Rect(f), false, None, None, None))
    else
      var e := f.normedEmbedding.value;
      var h := SearchIP1(ix, L2Normalize(e, norm(e)));
      match MatchHit(h, ids, t)
      case Failure(err) => Failure(err)
      case Success(None) => Success(FaceResult(Rect(f), false, None, if h.idx >= 0 then Some(h.score) else None, None))
      case Success(Some(m)) => Success(FaceResult(Rect(f), true, Some(m.studentId), Some(m.similarity), Some(m.confidence)))
  }

  // --------------------------------------------------------------- the system

  /** `stats()`. */
  datatype IndexStats = IndexStats(dimension: nat, ntotal: nat, registeredStudents: nat)

  class FaceRecognitionSystem {
    /** The Euclidean norm, a floating-point measurement supplied from outside. */
    const norm: Vector -> NonNegReal
    var index: Flat
    var studentIds: seq<string>
    var disk: Disk

    /** The index is a well-formed 512-dimensional flat index. */
    ghost predicate Valid()
      reads this
    {
      Wf(index) && index.d == Dimension
    }

    /** The parallel-array invariant: one id per stored vector. */
    predicate Aligned()
      reads this
    {
      Ntotal(index) == |studentIds|
    }

    /** `__init__`: an empty system, then `load_or_create_index`. */
    constructor (norm: Vector -> NonNegReal, disk: Disk)
      requires DiskWf(disk) && !LoadFails(disk)
      ensures this.norm == norm && this.disk == disk && Valid()
      ensures disk.indexFile.Stored? && disk.idsFile.Stored? && disk.indexFile.content.d == Dimension ==>
        index == disk.indexFile.content && studentIds == disk.idsFile.content
      ensures !(disk.indexFile.Stored? && disk.idsFile.Stored? && disk.indexFile.content.d == Dimension) ==>
        index == Empty(Dimension) && studentIds == [] && Aligned()
    {
      this.norm := norm;
      this.disk := disk;
      index := Empty(Dimension);
      studentIds := [];
      new;
      var err := LoadOrCreateIndex();
    }

    /**
     * `load_or_create_index`: both files present means load them (raising if
     * either is unreadable) and reset to empty on a dimension mismatch; a missing
     * file means start empty.
     */
    method LoadOrCreateIndex() returns (err: Option<FaceError>)
      requires DiskWf(disk)
      modifies this`index, this`studentIds
      ensures err.None? <==> !LoadFails(disk)
      ensures err.None? ==> Valid()
      ensures err == Some(IndexFileUnreadable) ==> unchanged(this)
      ensures err == Some(IdsFileUnreadable) ==> disk.indexFile.Stored? && index == disk.indexFile.content && studentIds == old(studentIds)
      ensures disk.indexFile.Stored? && disk.idsFile.Stored? && disk.indexFile.content.d == Dimension ==>
        index == disk.indexFile.content && studentIds == disk.idsFile.content
      ensures err.None? && !(disk.indexFile.Stored? && disk.idsFile.Stored? && disk.indexFile.content.d == Dimension) ==>
        index == Empty(Dimension) && studentIds == []
    {
      if !disk.indexFile.Absent? && !disk.idsFile.Absent? {
        if disk.indexFile.Corrupt? {
          return Some(IndexFileUnreadable);
        }
        index := disk.indexFile.content;
        if disk.idsFile.Corrupt? {
          return Some(IdsFileUnreadable);
        }
        studentIds := disk.idsFile.content;
        if index.d != Dimension {
          index := Empty(Dimension);
          studentIds := [];
        }
      } else {
        index := Empty(Dimension);
        studentIds := [];
      }
      return None;
    }

    /** `save_index`: both files now hold the in-memory state. */
    method SaveIndex()
      modifies this`disk
      ensures disk == Disk(Stored(index), Stored(studentIds))
    {
      disk := Disk(Stored(index), Stored(studentIds));
    }

    /** `register_face`: one vector and one id appended, then persisted; nothing changes if extraction raises. */
    method RegisterFace(img: ImageFile, studentId: string) returns (r: Result<bool, FaceError>)
      requires Valid()
      modifies this`index, this`studentIds, this`disk
      ensures Valid()
      ensures r.Success? <==> ExtractEmbedding(img, norm).Success?
      ensures r.Failure? ==> r.error == ExtractEmbedding(img, norm).error && unchanged(this)
      ensures r.Success? ==>
        r.value && index == FlatIndex.Add(old(index), ExtractEmbedding(img, norm).value)
        && studentIds == old(studentIds) + [studentId]
        && disk == Disk(Stored(index), Stored(studentIds))
      ensures old(Aligned()) ==> Aligned()
    {
      var ex := ExtractEmbedding(img, norm);
      if ex.Failure? {
        return Failure(ex.error);
      }
      index := FlatIndex.Add(index, ex.value);
      studentIds := studentIds + [studentId];
      SaveIndex();
      return Success(true);
    }

    /** The frames of `register_face_multi` that can be extracted, each with its quality score. */
    method ScoreFrames(files: seq<ImageFile>) returns (scored: seq<Scored>)
      ensures scored == ScoredFrames(files, norm)
    {
      scored := [];
      for i := 0 to |files|
        invariant scored == ScoredFrames(files[..i], norm)
      {
        assert files[..i + 1][..i] == files[..i];
        var ex := ExtractEmbedding(files[i], norm);
        if ex.Success? {
          scored := scored + [Scored(ImageQualityScore(files[i]), ex.value)];
        }
      }
      assert files[..|files|] == files;
    }

    /**
     * `register_face_multi`: collect (quality, embedding) for the frames that can
     * be extracted, sort by quality descending, aggregate the best `min(5, n)`,
     * then append one vector and one id.
     */
    method RegisterFaceMulti(files: seq<ImageFile>, studentId: string) returns (r: Result<bool, FaceError>)
      requires Valid()
      modifies this`index, this`studentIds, this`disk
      ensures Valid()
      ensures r.Failure? <==> CountExtractable(files, norm) == 0
      ensures r.Failure? ==> r.error == NoValidFrames && unchanged(this)
      ensures r.Success? ==>
        r.value && index == FlatIndex.Add(old(index), EnrolmentEmbedding(files, norm).value)
        && studentIds == old(studentIds) + [studentId]
        && disk == Disk(Stored(index), Stored(studentIds))
      ensures old(Aligned()) ==> Aligned()
    {
      var scored := ScoreFrames(files);
      ScoredFramesSkipFailures(files, norm);
      if |scored| == 0 {
        return Failure(NoValidFrames);
      }
      var ranked := SortBy(scored, NegQuality);
      var embs := EmbeddingsOf(ranked);
      var agg := Aggregate(embs, FramesUsed(|embs|), norm);
      index := FlatIndex.Add(index, agg.value);
      studentIds := studentIds + [studentId];
      SaveIndex();
      return Success(true);
    }

    /**
     * `recognize_face`: no match on an empty gallery (before extracting);
     * otherwise the top-1 neighbour of the probe, matched iff its similarity
     * reaches the threshold.
     */
    function RecognizeFace(img: ImageFile, t: real): (r: Result<Option<Match>, FaceError>)
      reads this
      requires Valid()
      ensures Ntotal(index) == 0 ==> r == Success(None)
      ensures Ntotal(index) > 0 && ExtractEmbedding(img, norm).Failure? ==> r == Failure(ExtractEmbedding(img, norm).error)
      ensures r.Success? && r.value.Some? ==>
        ExtractEmbedding(img, norm).Success? && r.value.value.similarity >= t
        && 0.0 <= r.value.value.confidence <= 1.0
        && IsBestMatch(index, studentIds, ExtractEmbedding(img, norm).value, r.value.value)
      ensures Ntotal(index) > 0 && ExtractEmbedding(img, norm).Success? && r == Success(None) ==>
        forall j :: 0 <= j < Ntotal(index) ==> Dot(index.vectors[j], ExtractEmbedding(img, norm).value) < t
    {
      if Ntotal(index) == 0 then Success(None)
      else
        match ExtractEmbedding(img, norm)
        case Failure(err) => Failure(err)
        case Success(e) =>
          var h := SearchIP1(index, e);
          var r := MatchHit(h, studentIds, t);
          assert r.Success? && r.value.Some? ==> Dot(index.vectors[h.idx], e) == r.value.value.similarity;
          r
    }

    /**
     * One frame of `recognize_face_multi`: a frame that cannot be extracted is
     * skipped; otherwise it is counted, and its top-1 id gets a vote if the
     * similarity reaches the threshold and becomes the best id if it beats the
     * best similarity so far.
     */
    method VoteFrame(st: Tally, file: ImageFile, t: real) returns (r: Result<Tally, FaceError>)
      requires Valid()
      ensures r == FrameStep(index, studentIds, norm, st, file, t)
    {
      var ex := ExtractEmbedding(file, norm);
      if ex.Failure? {
        return Success(st);
      }
      var next := st.(frames := st.frames + 1);
      var h := SearchIP1(index, ex.value);
      if h.idx >= 0 {
        if h.idx >= |studentIds| {
          return Failure(StudentIndexOutOfRange);
        }
        var sid := studentIds[h.idx];
        var before := if sid in st.votes then st.votes[sid] else 0;
        if sid !in st.votes {
          next := next.(order := st.order + [sid]);
        }
        next := next.(votes := st.votes[sid := before + (if h.score >= t then 1 else 0)]);
        if h.score > st.bestSim {
          next := next.(bestId := Some(sid), bestSim := h.score);
        }
      }
      r := Success(next);
    }

    /** `recognize_face_multi`: vote over the frames, then decide. */
    method RecognizeFaceMulti(files: seq<ImageFile>, t: real) returns (r: Result<Option<MultiMatch>, FaceError>)
      requires Valid()
      ensures r == MultiOutcome(index, studentIds, norm, files, t)
    {
      if Ntotal(index) == 0 {
        return Success(None);
      }
      var st := NoVotes;
      for i := 0 to |files|
        invariant TallyFrames(index, studentIds, norm, files[..i], t) == Success(st)
      {
        assert files[..i + 1][..i] == files[..i];
        var step := VoteFrame(st, files[i], t);
        if step.Failure? {
          TallyFailurePersists(index, studentIds, norm, files, t, i + 1);
          return Failure(step.error);
        }
        st := step.value;
      }
      assert files[..|files|] == files;
      TallyFramesWf(index, studentIds, norm, files, t);
      r := Decide(st, t);
    }

    /** `stats()`. */
    function Stats(): (s: IndexStats)
      reads this
      ensures s.dimension == Dimension
      ensures s.ntotal == s.registeredStudents <==> Aligned()
    {
      IndexStats(Dimension, Ntotal(index), |studentIds|)
    }

    /**
     * `recognize_faces_in_image`: one entry per detected face, in detector order;
     * the first face whose id lookup raises aborts the call.
     */
    method RecognizeFacesInImage(img: ImageFile, t: real) returns (r: Result<FrameResult, FaceError>)
      requires Valid()
      ensures img.Unreadable? ==> r == Failure(ImageLoadFailed)
      ensures r.Success? ==>
        img.Readable? && r.value.width == img.picture.width && r.value.height == img.picture.height
        && |r.value.faces| == |img.picture.faces|
        && forall j :: 0 <= j < |img.picture.faces| ==>
             FaceOutcome(index, studentIds, norm, img.picture.faces[j], t) == Success(r.value.faces[j])
      ensures img.Readable? && r.Failure? ==>
        exists j :: 0 <= j < |img.picture.faces|
          && FaceOutcome(index, studentIds, norm, img.picture.faces[j], t) == Failure(r.error)
          && forall j' :: 0 <= j' < j ==> FaceOutcome(index, studentIds, norm, img.picture.faces[j'], t).Success?
    {
      if img.Unreadable? {
        return Failure(ImageLoadFailed);
      }
      var faces := img.picture.faces;
      var results: seq<FaceResult> := [];
      for i := 0 to |faces|
        invariant |results| == i
        invariant forall j :: 0 <= j < i ==> FaceOutcome(index, studentIds, norm, faces[j], t) == Success(results[j])
      {
        var outcome := FaceOutcome(index, studentIds, norm, faces[i], t);
        if outcome.Failure? {
          return Failure(outcome.error);
        }
        results := results + [outcome.value];
      }
      return Success(FrameResult(img.picture.width, img.picture.height, results));
    }
  }

  /** With one id per stored vector, single-image matching never raises `IndexError`. */
  lemma AlignedRecognizeNeverOutOfRange(s: FaceRecognitionSystem, img: ImageFile, t: real)
    requires s.Valid() && s.Aligned()
    ensures s.RecognizeFace(img, t) != Failure(StudentIndexOutOfRange)
  {
    if Ntotal(s.index) > 0 && ExtractEmbedding(img, s.norm).Success? {
      var h := SearchIP1(s.index, ExtractEmbedding(img, s.norm).value);
      assert h.idx < |s.studentIds|;
    }
  }

  /** Raising the threshold can only turn a match into no match, never change who matches. */
  lemma HigherThresholdOnlyDropsMatches(s: FaceRecognitionSystem, img: ImageFile, t1: real, t2: real)
    requires s.Valid() && t1 <= t2 && t1 != 1.0
    requires s.RecognizeFace(img, t2).Success? && s.RecognizeFace(img, t2).value.Some?
    ensures s.RecognizeFace(img, t1).Success? && s.RecognizeFace(img, t1).value.Some?
    ensures s.RecognizeFace(img, t1).value.value.studentId == s.RecognizeFace(img, t2).value.value.studentId
    ensures s.RecognizeFace(img, t1).value.value.similarity == s.RecognizeFace(img, t2).value.value.similarity
  {
  }

  /** With one id per stored vector, multi-frame matching never raises `IndexError`. */
  lemma AlignedMultiNeverOutOfRange(s: FaceRecognitionSystem, files: seq<ImageFile>, t: real)
    requires s.Valid() && s.Aligned()
    ensures MultiOutcome(s.index, s.studentIds, s.norm, files, t) != Failure(StudentIndexOutOfRange)
  {
    AlignedTallyNeverFails(s.index, s.studentIds, s.norm, files, t);
  }

  /** With one id per stored vector, per-face matching never raises `IndexError` for any face. */
  lemma AlignedFaceNeverOutOfRange(s: FaceRecognitionSystem, f: DetectedFace, t: real)
    requires s.Valid() && s.Aligned()
    ensures FaceOutcome(s.index, s.studentIds, s.norm, f, t) != Failure(StudentIndexOutOfRange)
  {
  }
}
