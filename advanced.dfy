/**
 * The multi-model recogniser (`AdvancedFaceRecognition`): which detectors and
 * recognisers get loaded, primary/fallback detection, quality-driven choice of
 * the recogniser, the (unfinished) ensemble path, and the timing statistics.
 *
 * The libraries are foreign. Which of them imported is a `Libraries` value; what
 * a detector finds and what a recogniser returns for the current image are
 * functions supplied by the caller (an exception inside a library is an empty
 * result there); elapsed times are measurements passed in.
 */
module AdvancedRecognition {
  import opened Wrappers
  import opened Numeric
  import opened Text
  import opened Vectors

  datatype DetectionModel = Scrfd | RetinaFace | YoloV8 | MediaPipe | OpenCvDnn
  {
    /** The enum's `value`. */
    function Value(): string
    {
      match this
      case Scrfd => "scrfd"
      case RetinaFace => "retinaface"
      case YoloV8 => "yolov8"
      case MediaPipe => "mediapipe"
      case OpenCvDnn => "opencv_dnn"
    }
  }

  datatype RecognitionModel = ArcFaceL | ArcFaceXL | ArcFaceS | AdaFace | DeepFaceArcFace | DeepFaceFaceNet
  {
    /** The enum's `value`: the model package or backend name. */
    function Value(): string
    {
      match this
      case ArcFaceL => "buffalo_l"
      case ArcFaceXL => "antelopev2"
      case ArcFaceS => "buffalo_s"
      case AdaFace => "adaface"
      case DeepFaceArcFace => "deepface_arcface"
      case DeepFaceFaceNet => "deepface_facenet"
    }

    /** The enum member's `name`. */
    function Name(): string
    {
      match this
      case ArcFaceL => "ARCFACE_L"
      case ArcFaceXL => "ARCFACE_XL"
      case ArcFaceS => "ARCFACE_S"
      case AdaFace => "ADAFACE"
      case DeepFaceArcFace => "DEEPFACE_ARCFACE"
      case DeepFaceFaceNet => "DEEPFACE_FACENET"
    }

    predicate IsInsightFace()
    {
      this == ArcFaceL || this == ArcFaceXL || this == ArcFaceS
    }
  }

  /** Which optional libraries imported successfully. */
  datatype Libraries = Libraries(insightFace: bool, deepFace: bool, yolo: bool, mediaPipe: bool)

  // -------------------------------------------------------------- model loading

  /**
   * `_initialize_models`' detectors, in the order they enter the dict: SCRFD and
   * RetinaFace through InsightFace, MediaPipe through MediaPipe; YOLOv8 is only a
   * placeholder and OpenCV DNN is never loaded.
   */
  function LoadedDetectors(libs: Libraries, primary: DetectionModel, fallback: DetectionModel): (r: seq<DetectionModel>)
    ensures forall m :: m in r ==> m == primary || m == fallback
    ensures YoloV8 !in r && OpenCvDnn !in r
    ensures Scrfd in r <==> libs.insightFace && (primary == Scrfd || fallback == Scrfd)
    ensures RetinaFace in r <==> libs.insightFace && (primary == RetinaFace || fallback == RetinaFace)
    ensures MediaPipe in r <==> libs.mediaPipe && (primary == MediaPipe || fallback == MediaPipe)
  {
    var chosen := (m: DetectionModel) => primary == m || fallback == m;
    (if libs.insightFace && chosen(Scrfd) then [Scrfd] else [])
    + (if libs.insightFace && chosen(RetinaFace) then [RetinaFace] else [])
    + (if libs.mediaPipe && chosen(MediaPipe) then [MediaPipe] else [])
  }

  /**
   * `_initialize_models`' recognisers, in dict order: the ArcFace packages
   * through InsightFace, the DeepFace backends through DeepFace; AdaFace has no
   * loader at all.
   */
  function LoadedRecognizers(libs: Libraries, primary: RecognitionModel, fallback: RecognitionModel): (r: seq<RecognitionModel>)
    ensures forall m :: m in r ==> m == primary || m == fallback
    ensures AdaFace !in r
    ensures forall m: RecognitionModel :: m.IsInsightFace() ==> (m in r <==> libs.insightFace && (primary == m || fallback == m))
    ensures forall m: RecognitionModel :: m == DeepFaceArcFace || m == DeepFaceFaceNet ==> (m in r <==> libs.deepFace && (primary == m || fallback == m))
  {
    var insight := Slot(libs.insightFace, primary, fallback, ArcFaceL)
      + Slot(libs.insightFace, primary, fallback, ArcFaceXL)
      + Slot(libs.insightFace, primary, fallback, ArcFaceS);
    var deep := Slot(libs.deepFace, primary, fallback, DeepFaceArcFace)
      + Slot(libs.deepFace, primary, fallback, DeepFaceFaceNet);
    assert forall m :: m in insight <==> m.IsInsightFace() && libs.insightFace && (primary == m || fallback == m);
    assert forall m :: m in deep <==> (m == DeepFaceArcFace || m == DeepFaceFaceNet) && libs.deepFace && (primary == m || fallback == m);
    insight + deep
  }

  /** Model m, if its library is available and it is the primary or the fallback choice. */
  function Slot(available: bool, primary: RecognitionModel, fallback: RecognitionModel, m: RecognitionModel): (r: seq<RecognitionModel>)
    ensures forall x :: x in r <==> available && x == m && (primary == m || fallback == m)
  {
    if available && (primary == m || fallback == m) then [m] else []
  }

  // ------------------------------------------------------------------ detection

  /** A face a detector reports. */
  datatype Detection = Detection(x1: real, y1: real, x2: real, y2: real, score: real)

  /**
   * `_detect_with_model`: the InsightFace detectors and MediaPipe return what they
   * find; any other model type finds nothing.
   */
  function DetectWithModel(m: DetectionModel, found: seq<Detection>): (r: seq<Detection>)
    ensures m == Scrfd || m == RetinaFace || m == MediaPipe ==> r == found
    ensures m == YoloV8 || m == OpenCvDnn ==> r == []
  {
    match m
    case Scrfd => found
    case RetinaFace => found
    case MediaPipe => found
    case _ => []
  }

  /** What one detector contributes, if it is loaded. */
  function TryDetector(loaded: seq<DetectionModel>, m: DetectionModel, detect: DetectionModel -> seq<Detection>): seq<Detection>
  {
    if m in loaded then DetectWithModel(m, detect(m)) else []
  }

  /**
   * `detect_faces`: the primary detector's faces when it finds any; otherwise the
   * fallback's when the fallback is allowed; otherwise nothing.
   */
  function DetectionOutcome(loaded: seq<DetectionModel>, primary: DetectionModel, fallback: DetectionModel,
                            detect: DetectionModel -> seq<Detection>, useFallback: bool): (r: seq<Detection>)
    ensures TryDetector(loaded, primary, detect) != [] ==> r == TryDetector(loaded, primary, detect)
    ensures TryDetector(loaded, primary, detect) == [] && useFallback ==> r == TryDetector(loaded, fallback, detect)
    ensures TryDetector(loaded, primary, detect) == [] && !useFallback ==> r == []
    ensures r != [] ==> r == TryDetector(loaded, primary, detect) || r == TryDetector(loaded, fallback, detect)
  {
    var first := TryDetector(loaded, primary, detect);
    if first != [] then first
    else if useFallback then TryDetector(loaded, fallback, detect)
    else []
  }

  /** A detector that is not loaded is never the source of any face. */
  lemma UnloadedDetectorsFindNothing(libs: Libraries, primary: DetectionModel, fallback: DetectionModel,
                                     detect: DetectionModel -> seq<Detection>, useFallback: bool)
    requires !libs.insightFace && !libs.mediaPipe
    ensures DetectionOutcome(LoadedDetectors(libs, primary, fallback), primary, fallback, detect, useFallback) == []
  {
    var loaded := LoadedDetectors(libs, primary, fallback);
    assert loaded == [];
  }

  // -------------------------------------------------------------------- quality

  /** What OpenCV measures on the image; `Broken` when the conversion to grey raises. */
  datatype Frame = Broken | Frame(height: nat, width: nat, laplacianVar: NonNegReal, meanGray: real)

  datatype FaceBox = FaceBox(x1: real, y1: real, x2: real, y2: real)

  /**
   * The face-size part of `_assess_quality`: 0.7 without a box, full marks for a
   * face covering 15% to 40% of the image, proportionally less below, and
   * decreasing (but never below 0.4) above.
   */
  function FaceSizeScore(ratio: Option<real>): (s: real)
    ensures ratio.None? ==> s == 0.7
    ensures ratio.Some? && 0.15 <= ratio.value <= 0.40 ==> s == 1.0
    ensures ratio.Some? && ratio.value < 0.15 ==> s == ratio.value / 0.15
    ensures ratio.Some? && ratio.value > 0.40 ==> 0.4 <= s < 1.0
  {
    match ratio
    case None => 0.7
    case Some(r) =>
      if 0.15 <= r <= 0.40 then 1.0
      else if r < 0.15 then r / 0.15
      else Max(0.4, 1.0 - (r - 0.40) / 0.30)
  }

  /** For a non-negative ratio the score is in [0, 1], and it is full exactly on [0.15, 0.40]. */
  lemma FaceSizeScoreRange(r: real)
    requires r >= 0.0
    ensures 0.0 <= FaceSizeScore(Some(r)) <= 1.0
    ensures FaceSizeScore(Some(r)) == 1.0 <==> 0.15 <= r <= 0.40
  {
  }

  /** The face's share of the image area. */
  function FaceRatio(f: Frame, box: FaceBox): real
    requires f.Frame? && f.height * f.width > 0
  {
    ((box.x2 - box.x1) * (box.y2 - box.y1)) / (f.height * f.width) as real
  }

  /**
   * `_assess_quality`: `0.4 * sharpness + 0.3 * brightness + 0.3 * face_size`,
   * with sharpness `min(var / 150, 1)` and brightness `1 - min(|mean - 125| / 125, 1)`;
   * 0.5 when OpenCV raises (an unreadable or empty image).
   */
  function AssessQuality(f: Frame, box: Option<FaceBox>): (q: real)
    ensures f.Broken? || f.height * f.width == 0 ==> q == 0.5
    ensures f.Frame? && f.height * f.width > 0 && box.None? ==> q <= 0.91
  {
    if f.Broken? || f.height * f.width == 0 then 0.5
    else
      var sharpness := Min(f.laplacianVar / 150.0, 1.0);
      var brightness := 1.0 - Min(Abs(f.meanGray - 125.0) / 125.0, 1.0);
      var ratio := if box.Some? then Some(FaceRatio(f, box.value)) else None;
      0.4 * sharpness + 0.3 * brightness + 0.3 * FaceSizeScore(ratio)
  }

  /** The quality lies in [0, 1] when the box (if any) has a non-negative area. */
  lemma AssessQualityRange(f: Frame, box: Option<FaceBox>)
    requires box.Some? ==> (box.value.x2 - box.value.x1) * (box.value.y2 - box.value.y1) >= 0.0
    ensures 0.0 <= AssessQuality(f, box) <= 1.0
  {
    if f.Frame? && f.height * f.width > 0 && box.Some? {
      var r := FaceRatio(f, box.value);
      assert r >= 0.0;
      FaceSizeScoreRange(r);
    }
  }

  // --------------------------------------------------------- recogniser choice

  /** `extract_embedding` uses the primary recogniser exactly when the quality exceeds 0.75. */
  function ChosenRecognizer(quality: real, primary: RecognitionModel, fallback: RecognitionModel): (m: RecognitionModel)
    ensures quality > 0.75 ==> m == primary
    ensures quality <= 0.75 ==> m == fallback
  {
    if quality > 0.75 then primary else fallback
  }

  /** Without a face box, an image with a Laplacian variance below 75 never clears the primary recogniser's 0.75 bar. */
  lemma NoBoxNeedsSharpAndLit(f: Frame)
    requires f.Frame? && f.height * f.width > 0
    requires f.laplacianVar < 75.0
    ensures AssessQuality(f, None) <= 0.75
  {
  }

  /**
   * With the default configuration (primary ArcFace XL, fallback AdaFace) a
   * low-quality image gets no embedding at all: AdaFace is never loaded.
   */
  lemma DefaultFallbackNeverEmbeds(libs: Libraries, quality: real)
    requires quality <= 0.75
    ensures ChosenRecognizer(quality, ArcFaceXL, AdaFace) !in LoadedRecognizers(libs, ArcFaceXL, AdaFace)
  {
  }

  // ------------------------------------------------------------------ ensemble

  /** `_extract_single`: its body is `pass`, so it returns None for every model. */
  function ExtractSingle(m: RecognitionModel): Option<Vector>
  {
    None
  }

  /** The ensemble weight as written: 1.5 when the value contains "XL" or "adaface". */
  function EnsembleWeight(m: RecognitionModel): (w: real)
    ensures w == 1.5 || w == 1.0
  {
    if Contains(m.Value(), "XL") || Contains(m.Value(), "adaface") then 1.5 else 1.0
  }

  /** No enum value contains "XL": the values are lower-case package names. */
  lemma ValueHasNoXL(m: RecognitionModel)
    ensures !Contains(m.Value(), "XL")
  {
    match m
    case ArcFaceL => NotContainsByPair("buffalo_l", "XL");
    case ArcFaceXL => NotContainsByPair("antelopev2", "XL");
    case ArcFaceS => NotContainsByPair("buffalo_s", "XL");
    case AdaFace => NotContainsByPair("adaface", "XL");
    case DeepFaceArcFace => NotContainsByPair("deepface_arcface", "XL");
    case DeepFaceFaceNet => NotContainsByPair("deepface_facenet", "XL");
  }

  /** Only AdaFace's value contains "adaface". */
  lemma ValueMentionsAdaFace(m: RecognitionModel)
    ensures Contains(m.Value(), "adaface") <==> m == AdaFace
  {
    match m
    case ArcFaceL => NotContainsByPair("buffalo_l", "adaface");
    case ArcFaceXL => NotContainsByPair("antelopev2", "adaface");
    case ArcFaceS => NotContainsByPair("buffalo_s", "adaface");
    case AdaFace => ContainsAt("adaface", "adaface", 0);
    case DeepFaceArcFace => NotContainsByPair("deepface_arcface", "adaface");
    case DeepFaceFaceNet => NotContainsByPair("deepface_facenet", "adaface");
  }

  /** Only ArcFace XL's member name contains "XL". */
  lemma NameMentionsXL(m: RecognitionModel)
    ensures Contains(m.Name(), "XL") <==> m == ArcFaceXL
  {
    match m
    case ArcFaceL => NotContainsByPair("ARCFACE_L", "XL");
    case ArcFaceXL => ContainsAt("ARCFACE_XL", "XL", 8);
    case ArcFaceS => NotContainsByPair("ARCFACE_S", "XL");
    case AdaFace => NotContainsByPair("ADAFACE", "XL");
    case DeepFaceArcFace => NotContainsByPair("DEEPFACE_ARCFACE", "XL");
    case DeepFaceFaceNet => NotContainsByPair("DEEPFACE_FACENET", "XL");
  }

  /** As written only AdaFace gets the higher weight: ArcFace XL's value "antelopev2" has no "XL". */
  lemma EnsembleWeightFavoursOnlyAdaFace(m: RecognitionModel)
    ensures EnsembleWeight(m) == 1.5 <==> m == AdaFace
  {
    ValueHasNoXL(m);
    ValueMentionsAdaFace(m);
  }

  /** The weight with the "XL" test on the member's name, as the comment on ArcFace XL intends. */
  function EnsembleWeightByName(m: RecognitionModel): (w: real)
    ensures w == 1.5 || w == 1.0
  {
    if Contains(m.Name(), "XL") || Contains(m.Value(), "adaface") then 1.5 else 1.0
  }

  /** Testing the name gives the higher weight to exactly ArcFace XL and AdaFace. */
  lemma EnsembleWeightByNameFavoursXLAndAdaFace(m: RecognitionModel)
    ensures EnsembleWeightByName(m) == 1.5 <==> m == ArcFaceXL || m == AdaFace
  {
    NameMentionsXL(m);
    ValueMentionsAdaFace(m);
  }

  /** One turn of the ensemble loop: keep the recogniser's embedding, if any, with its weight. */
  function GatherStep(acc: (seq<Vector>, seq<real>), m: RecognitionModel): (seq<Vector>, seq<real>)
  {
    match ExtractSingle(m)
    case None => acc
    case Some(e) => (acc.0 + [e], acc.1 + [EnsembleWeight(m)])
  }

  /** The embeddings and weights the ensemble loop collects over the recognisers, in dict order. */
  function Gathered(order: seq<RecognitionModel>): (r: (seq<Vector>, seq<real>))
    ensures |r.0| == |r.1| <= |order|
    ensures forall i :: 0 <= i < |r.1| ==> 1.0 <= r.1[i] <= 1.5
  {
    if order == [] then ([], [])
    else GatherStep(Gathered(order[..|order| - 1]), order[|order| - 1])
  }

  /** Because `_extract_single` never returns an embedding, the loop collects nothing. */
  lemma {:induction false} GatheredIsEmpty(order: seq<RecognitionModel>)
    ensures Gathered(order) == ([], [])
  {
    if order != [] {
      GatheredIsEmpty(order[..|order| - 1]);
    }
  }

  /** `weights / weights.sum()`. */
  function NormalizeWeights(ws: seq<real>): (r: seq<real>)
    requires SumReals(ws) != 0.0
    ensures |r| == |ws|
    ensures forall i :: 0 <= i < |ws| ==> r[i] == ws[i] / SumReals(ws)
  {
    seq(|ws|, i requires 0 <= i < |ws| => ws[i] / SumReals(ws))
  }

  /** Dividing every weight by `c` divides the sum by `c`. */
  lemma {:induction false} SumOfQuotients(ws: seq<real>, qs: seq<real>, c: real)
    requires c != 0.0 && |qs| == |ws|
    requires forall i :: 0 <= i < |ws| ==> qs[i] == ws[i] / c
    ensures SumReals(qs) == SumReals(ws) / c
  {
    if |ws| > 0 {
      var n := |ws| - 1;
      SumOfQuotients(ws[..n], qs[..n], c);
      assert SumReals(ws[..n]) / c + ws[n] / c == (SumReals(ws[..n]) + ws[n]) / c;
    }
  }

  /** The normalised weights sum to 1, so `np.average` with them is their weighted sum. */
  lemma NormalizedWeightsSumToOne(ws: seq<real>)
    requires SumReals(ws) != 0.0
    ensures SumReals(NormalizeWeights(ws)) == 1.0
  {
    var total := SumReals(ws);
    SumOfQuotients(ws, NormalizeWeights(ws), total);
    assert total / total == 1.0;
  }

  /** `sum(w[i] * e[i])` over vectors of dimension `d`. */
  function WeightedSum(embs: seq<Vector>, ws: seq<real>, d: nat): (r: Vector)
    requires |embs| == |ws| && SameDim(embs, d)
    ensures |r| == d
  {
    if embs == [] then Zero(d)
    else
      var n := |embs| - 1;
      Vectors.Add(WeightedSum(embs[..n], ws[..n], d), Scale(embs[n], ws[n]))
  }

  /**
   * The combination step: the weighted average of the embeddings under the
   * normalised weights (whose sum is 1), divided by its measured norm.
   */
  function Combine(embs: seq<Vector>, ws: seq<real>, norm: Vector -> NonNegReal): (r: Option<Vector>)
    requires |embs| == |ws| > 0 && SameDim(embs, |embs[0]|)
    requires forall i :: 0 <= i < |ws| ==> 1.0 <= ws[i] <= 1.5
    ensures r.Some? && |r.value| == |embs[0]|
  {
    SumRealsBounds(ws, 1.0, 1.5);
    var avg := WeightedSum(embs, NormalizeWeights(ws), |embs[0]|);
    var n := norm(avg);
    Some(if n > 0.0 then Scale(avg, 1.0 / n) else avg)
  }

  /** What `extract_embedding_ensemble` returns in ensemble mode. */
  function EnsembleOutcome(order: seq<RecognitionModel>, norm: Vector -> NonNegReal): Option<Vector>
  {
    var (embs, ws) := Gathered(order);
    if embs == [] || !SameDim(embs, |embs[0]|) then None
    else Combine(embs, ws, norm)
  }

  /** Ensemble mode always returns None. */
  lemma EnsembleModeAlwaysNone(order: seq<RecognitionModel>, norm: Vector -> NonNegReal)
    ensures EnsembleOutcome(order, norm) == None
  {
    GatheredIsEmpty(order);
  }

  // ---------------------------------------------------------------- statistics

  /** `times[-100:]`. */
  function LastHundred(times: seq<real>): (r: seq<real>)
    ensures |r| == if |times| < 100 then |times| else 100
    ensures forall i :: 0 <= i < |r| ==> r[i] == times[|times| - |r| + i]
  {
    if |times| <= 100 then times else times[|times| - 100..]
  }

  /** `np.mean(times[-100:]) if times else 0`. */
  function RecentMean(times: seq<real>): real
  {
    if times == [] then 0.0 else MeanReals(LastHundred(times))
  }

  /** Only the last hundred entries matter: older ones never change the average. */
  lemma RecentMeanIgnoresOlder(older: seq<real>, recent: seq<real>)
    requires |recent| >= 100
    ensures RecentMean(older + recent) == RecentMean(recent)
  {
    assert LastHundred(older + recent) == LastHundred(recent);
  }

  /** The average lies between bounds that every recent entry respects. */
  lemma RecentMeanBounds(times: seq<real>, lo: real, hi: real)
    requires |times| > 0 && lo <= hi
    requires forall i :: 0 <= i < |times| ==> lo <= times[i] <= hi
    ensures lo <= RecentMean(times) <= hi
  {
    var last := LastHundred(times);
    assert forall i :: 0 <= i < |last| ==> lo <= last[i] <= hi;
    MeanRealsBounds(last, lo, hi);
  }

  /** `get_statistics()` without the rounding. */
  datatype Statistics = Statistics(avgDetectionMs: real, avgRecognitionMs: real, fallbackUsage: nat, ensembleUsage: nat,
                                   totalDetections: nat, totalRecognitions: nat, detectorsLoaded: nat, recognizersLoaded: nat)

  class AdvancedFaceRecognition {
    const primaryDetector: DetectionModel
    const fallbackDetector: DetectionModel
    const primaryRecognizer: RecognitionModel
    const fallbackRecognizer: RecognitionModel
    const useEnsemble: bool
    /** The keys of `self.detectors`, in insertion order. */
    const detectors: seq<DetectionModel>
    /** The keys of `self.recognizers`, in insertion order. */
    const recognizers: seq<RecognitionModel>
    var detectionTimes: seq<real>
    var recognitionTimes: seq<real>
    var fallbackUsed: nat
    var ensembleUsed: nat

    /** `__init__` and `_initialize_models`. */
    constructor (libs: Libraries, primaryDetector: DetectionModel, fallbackDetector: DetectionModel,
                 primaryRecognizer: RecognitionModel, fallbackRecognizer: RecognitionModel, useEnsemble: bool)
      ensures this.primaryDetector == primaryDetector && this.fallbackDetector == fallbackDetector
      ensures this.primaryRecognizer == primaryRecognizer && this.fallbackRecognizer == fallbackRecognizer
      ensures this.useEnsemble == useEnsemble
      ensures detectors == LoadedDetectors(libs, primaryDetector, fallbackDetector)
      ensures recognizers == LoadedRecognizers(libs, primaryRecognizer, fallbackRecognizer)
      ensures detectionTimes == [] && recognitionTimes == [] && fallbackUsed == 0 && ensembleUsed == 0
    {
      this.primaryDetector := primaryDetector;
      this.fallbackDetector := fallbackDetector;
      this.primaryRecognizer := primaryRecognizer;
      this.fallbackRecognizer := fallbackRecognizer;
      this.useEnsemble := useEnsemble;
      detectors := LoadedDetectors(libs, primaryDetector, fallbackDetector);
      recognizers := LoadedRecognizers(libs, primaryRecognizer, fallbackRecognizer);
      detectionTimes := [];
      recognitionTimes := [];
      fallbackUsed := 0;
      ensembleUsed := 0;
    }

    /**
     * `detect_faces`: a detection time is recorded exactly when faces are found,
     * and the fallback counter moves exactly when the fallback detector found them.
     */
    method DetectFaces(detect: DetectionModel -> seq<Detection>, useFallback: bool, elapsedMs: real) returns (faces: seq<Detection>)
      modifies this`detectionTimes, this`fallbackUsed
      ensures faces == DetectionOutcome(detectors, primaryDetector, fallbackDetector, detect, useFallback)
      ensures detectionTimes == old(detectionTimes) + (if faces != [] then [elapsedMs] else [])
      ensures fallbackUsed == old(fallbackUsed)
        + (if TryDetector(detectors, primaryDetector, detect) == [] && useFallback && faces != [] then 1 else 0)
    {
      if primaryDetector in detectors {
        faces := DetectWithModel(primaryDetector, detect(primaryDetector));
        if faces != [] {
          detectionTimes := detectionTimes + [elapsedMs];
          return;
        }
      }
      if useFallback && fallbackDetector in detectors {
        faces := DetectWithModel(fallbackDetector, detect(fallbackDetector));
        if faces != [] {
          fallbackUsed := fallbackUsed + 1;
          detectionTimes := detectionTimes + [elapsedMs];
          return;
        }
      }
      faces := [];
    }

    /**
     * `extract_embedding`: choose by quality (counting every fallback choice),
     * give up when the chosen recogniser is not loaded, and record a recognition
     * time exactly when an embedding comes back.
     */
    method ExtractEmbedding(f: Frame, box: Option<FaceBox>, recognize: RecognitionModel -> Option<Vector>, elapsedMs: real)
      returns (e: Option<Vector>)
      modifies this`recognitionTimes, this`fallbackUsed
      ensures var m := ChosenRecognizer(AssessQuality(f, box), primaryRecognizer, fallbackRecognizer);
        e == (if m in recognizers then recognize(m) else None)
      ensures fallbackUsed == old(fallbackUsed) + (if AssessQuality(f, box) > 0.75 then 0 else 1)
      ensures recognitionTimes == old(recognitionTimes) + (if e.Some? then [elapsedMs] else [])
    {
      var quality := AssessQuality(f, box);
      var m: RecognitionModel;
      if quality > 0.75 {
        m := primaryRecognizer;
      } else {
        m := fallbackRecognizer;
        fallbackUsed := fallbackUsed + 1;
      }
      if m !in recognizers {
        return None;
      }
      e := recognize(m);
      if e.Some? {
        recognitionTimes := recognitionTimes + [elapsedMs];
      }
    }

    /**
     * `extract_embedding_ensemble`: outside ensemble mode, `extract_embedding`
     * without a box; in ensemble mode, gather from every loaded recogniser and combine.
     */
    method ExtractEmbeddingEnsemble(f: Frame, recognize: RecognitionModel -> Option<Vector>, norm: Vector -> NonNegReal, elapsedMs: real)
      returns (e: Option<Vector>)
      modifies this`recognitionTimes, this`fallbackUsed, this`ensembleUsed
      ensures !useEnsemble ==>
        var m := ChosenRecognizer(AssessQuality(f, None), primaryRecognizer, fallbackRecognizer);
        e == (if m in recognizers then recognize(m) else None)
        && fallbackUsed == old(fallbackUsed) + (if AssessQuality(f, None) > 0.75 then 0 else 1)
        && recognitionTimes == old(recognitionTimes) + (if e.Some? then [elapsedMs] else [])
        && ensembleUsed == old(ensembleUsed)
      ensures useEnsemble ==>
        e == EnsembleOutcome(recognizers, norm)
        && ensembleUsed == old(ensembleUsed) + (if e.Some? then 1 else 0)
        && recognitionTimes == old(recognitionTimes) && fallbackUsed == old(fallbackUsed)
    {
      if !useEnsemble {
        e := ExtractEmbedding(f, None, recognize, elapsedMs);
        return;
      }
      var embeddings: seq<Vector> := [];
      var weights: seq<real> := [];
      for i := 0 to |recognizers|
        invariant (embeddings, weights) == Gathered(recognizers[..i])
      {
        assert recognizers[..i + 1][..i] == recognizers[..i];
        var acc := GatherStep((embeddings, weights), recognizers[i]);
        embeddings, weights := acc.0, acc.1;
      }
      assert recognizers[..|recognizers|] == recognizers;
      if embeddings == [] || !SameDim(embeddings, |embeddings[0]|) {
        return None;
      }
      e := Combine(embeddings, weights, norm);
      ensembleUsed := ensembleUsed + 1;
    }

    /** `get_statistics()`: averages over the last hundred timings, totals over all of them. */
    function GetStatistics(): (s: Statistics)
      reads this
      ensures s.totalDetections == |detectionTimes| && s.totalRecognitions == |recognitionTimes|
      ensures s.fallbackUsage == fallbackUsed && s.ensembleUsage == ensembleUsed
      ensures s.detectorsLoaded == |detectors| && s.recognizersLoaded == |recognizers|
      ensures detectionTimes == [] ==> s.avgDetectionMs == 0.0
      ensures recognitionTimes == [] ==> s.avgRecognitionMs == 0.0
    {
      Statistics(RecentMean(detectionTimes), RecentMean(recognitionTimes), fallbackUsed, ensembleUsed,
                 |detectionTimes|, |recognitionTimes|, |detectors|, |recognizers|)
    }
  }
}
