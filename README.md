# Face-gallery matching and attendance bookkeeping

This project is a Dafny model of the recognition core of a classroom attendance system, with the bookkeeping around it. It covers six pieces:

- **AI service gallery** (`ai_service/face_recognition.py`). A FAISS inner-product index and a parallel list of student ids.
  - Single-photo and multi-frame enrolment. Multi-frame enrolment is quality-ranked and averages the best `min(5, n)` frames.
  - Thresholded single-photo matching with a rescaled confidence.
  - Multi-frame voting and per-face matching.
- **Older L2 service** (`services/face_recognition.py`). The same parallel-array gallery over a FAISS L2 index, with the `1 / (1 + d) >= 1 - tolerance` match rule and the removal of a student.
- **Advanced recognizer** (`ai_service/advanced_face_recognition.py`):
  - the quality score;
  - primary/fallback detector and recognizer choice with usage counters;
  - the ensemble path;
  - statistics.
- **Attendance bookkeeping:**
  - session start/stop;
  - per-(session, student) record upsert with a max-confidence merge (`backend/attendance/views.py`);
  - per-day marking from a classroom photo, enrolment and manual override (`services/attendance_service.py`);
  - the counts and percentages of the attendance API (`api/attendance.py`).
- **Front-end helpers:**
  - the department table and year options (`frontend/src/constants/departments.js`);
  - the class-year lists (`frontend/src/types/api.ts`).
- **JWT middleware** (`backend/attendance_system/middleware.py`). It copies a bearer token or cookie into the admin session.

How the model represents the outside world:

- Detectors and embedding networks are foreign code. A photo is a value that carries what the detector found (boxes, scores, optional embeddings) and the pixel measurements the quality scores use (Laplacian variance, mean grey level).
- The Euclidean norm is a supplied measurement (`norm: Vector -> NonNegReal`).
- A FAISS flat index is a sequence of vectors:
  - inner-product search is the first maximum;
  - L2 search is a stable sort by squared distance, padded with label -1 when more neighbours are asked for than stored.
- Files on disk and database tables are in-memory values; the objects whose fields the code updates are classes.
- Real numbers stand in for floats.

Files, one module each:

| file | module |
|---|---|
| `wrappers.dfy` | Option and Result |
| `numeric.dfy` | Python's `min`, `max`, `abs`, clamping, truncation, percentages and means |
| `text.dfy` | `startswith`, `in`, decimal printing, `split`/`join` |
| `vectors.dfy` | inner product, squared distance, mean, normalisation |
| `ranking.dfy` | first arg-max, stable sort |
| `storage.dfy` | persisted files |
| `flat_index.dfy` | FAISS flat indexes |
| `face_recognition.dfy` | the AI-service recogniser |
| `l2_service.dfy` | the L2 recognition service |
| `advanced.dfy` | the advanced recogniser |
| `attendance_views.dfy` | the session view set |
| `attendance_service.dfy` | the attendance service |
| `attendance_api.dfy` | the attendance API |
| `departments.dfy` | the department table |
| `class_years.dfy` | the class-year lists |
| `middleware.dfy` | the JWT middleware |

Where the design description and the code disagree, the model follows the code. The code has none of the following, so none is modelled:

- a minimum-quality enrolment gate;
- a vote-ratio acceptance rule (the rule is a vote floor of `max(1, frames // 3)`);
- an approximate or graph index;
- backup rotation;
- per-identity enrolment metadata.

## Model

| member | source | states |
|---|---|---|
| Vectors.SqL2 | services/face_recognition.py:131 | a squared L2 distance is never negative |
| Vectors.Mean | services/attendance_service.py:72-76 | `np.mean(axis=0)` of same-length vectors keeps their length |
| Vectors.L2Normalize | ai_service/face_recognition.py:17-24 | normalisation keeps the vector's length |
| Vectors.NormFactor | ai_service/face_recognition.py:17-24 | the factor `1 / (norm + eps)` is positive whatever the measured norm |
| Vectors.DotScale | ai_service/face_recognition.py:17-24 | scaling a vector scales its inner products by the same factor |
| Vectors.DotSymmetric | ai_service/face_recognition.py:168-171 | the similarity of gallery vector and probe does not depend on argument order |
| Vectors.DotScaledQuery | ai_service/face_recognition.py:168-171 | the similarity against a scaled probe is the scaled similarity |
| Vectors.DotNormalizedQuery | ai_service/face_recognition.py:17-24 | the similarity against a normalised probe is the raw one times the positive factor |
| Vectors.DotGapScaled | ai_service/face_recognition.py:168-171 | scaling the probe scales the gap between two gallery similarities |
| Vectors.ScaledQueryKeepsOrder | ai_service/face_recognition.py:168-171 | a positive scaling of the probe keeps the order of any two similarities (both directions) |
| Vectors.NormalizedQueryKeepsOrder | ai_service/face_recognition.py:17-24 | normalising the probe never changes which gallery vector is nearer, so the top-1 neighbour is the raw probe's |
| Vectors.SumOfCopies | services/attendance_service.py:72-76 | summing k copies of a vector multiplies each component by k |
| Vectors.MeanOfCopies | services/attendance_service.py:72-76 | averaging identical embeddings gives that embedding |
| Vectors.MeanOfOne | services/attendance_service.py:72-76 | the mean of one embedding is the embedding, so the one-embedding branch agrees with the averaging branch |
| FlatIndex.Empty | ai_service/face_recognition.py:58-62 | a fresh flat index is well formed, has the given dimension and stores nothing |
| FlatIndex.Add | services/face_recognition.py:101 | adding a row gives it the next label and keeps every earlier vector at its label |
| FlatIndex.Similarities | ai_service/face_recognition.py:168-171 | one inner product per stored vector, by label |
| FlatIndex.SearchIP1 | ai_service/face_recognition.py:168-171 | top-1 inner-product search: label -1 exactly on an empty index, otherwise the first stored vector of maximal similarity, with its true score |
| FlatIndex.Candidates | services/face_recognition.py:131 | every stored vector paired with its true squared distance |
| FlatIndex.SearchL2 | services/face_recognition.py:131 | L2 search returns exactly k hits: the nearest `min(k, ntotal)` in ranked order, then padding label -1 at `FLT_MAX` |
| FlatIndex.RankedHitsAreGenuine | services/face_recognition.py:131 | every ranked hit names a stored vector and carries its true distance |
| FlatIndex.SearchL2Ordered | services/face_recognition.py:131 | real hits come in increasing distance |
| FlatIndex.SearchL2Nearest | services/face_recognition.py:131 | a stored vector missing from the real hits is at least as far as each hit |
| Ranking.ArgMaxFirst | ai_service/face_recognition.py:87-90 | `max(..., key=...)` picks the first element of maximal key |
| Ranking.SortBySorted | ai_service/face_recognition.py:148-151 | the stable sort orders by key |
| Ranking.SortByPermutes | ai_service/face_recognition.py:148-151 | the sort neither loses nor invents elements (same multiset) |
| Ranking.SortByPrefixIsSmallest | ai_service/face_recognition.py:148-151 | the first m sorted elements have keys no larger than any element left out |
| Numeric.Clamp01 | ai_service/face_recognition.py:177 | `max(0, min(1, x))` lies in [0, 1], is the identity inside it and saturates outside |
| Numeric.Percentage | api/attendance.py:94 | `part / whole * 100` is 0 without a whole, lies in [0, 100] for a part of the whole, and is 100 exactly for the whole |
| Numeric.Trunc | ai_service/face_recognition.py:242 | `int()` truncates toward zero |
| Numeric.MeanRealsBounds | ai_service/advanced_face_recognition.py:419-420 | a mean of values in [lo, hi] lies in [lo, hi] |
| Text.NatToStringRoundTrip | frontend/src/constants/departments.js:140 | printing a number in decimal and reading it back gives the number |
| Text.NatToStringInjective | frontend/src/constants/departments.js:140 | different numbers print differently |
| Text.TakeUntilSpace | backend/attendance_system/middleware.py:22 | the text before the first space: a prefix without spaces, followed by a space or the end |
| Text.SplitJoin | backend/attendance_system/middleware.py:22 | `split(sep)` loses nothing (joining gives the string back) and no field holds the separator |
| Text.SplitFirstField | backend/attendance_system/middleware.py:22 | the first field of a split on spaces is the text before the first space |
| Text.SplitAfterWord | backend/attendance_system/middleware.py:22 | a space-free word and a space split off as the first field, and the rest splits on its own |
| FaceRecognition.BestFace | ai_service/face_recognition.py:86-90 | the chosen face has the largest key `10 * det_score + area`, and is the first such face |
| FaceRecognition.ExtractEmbedding | ai_service/face_recognition.py:74-95 | an unreadable photo and a faceless photo fail with their messages; success exactly when the best face has an embedding, and the result is that embedding re-normalised |
| FaceRecognition.ImageQualityScore | ai_service/face_recognition.py:98-117 | the quality lies in [0, 1], and is 0 for an unreadable file |
| FaceRecognition.SharpMidGreyScoresOne | ai_service/face_recognition.py:106-117 | a sharp (focus at least 100), mid-grey (mean 130) picture scores the full 1.0 |
| FaceRecognition.PyPrefix | ai_service/face_recognition.py:124 | Python's `s[:k]`, counting from the end for a negative k |
| FaceRecognition.Aggregate | ai_service/face_recognition.py:119-125 | fails exactly on no embeddings, and succeeds for a positive `topk` |
| FaceRecognition.AggregateUsesPrefix | ai_service/face_recognition.py:119-125 | only the first `topk` embeddings influence the aggregate |
| FaceRecognition.AggregateOfOne | ai_service/face_recognition.py:119-125 | aggregating one embedding is normalising it |
| FaceRecognition.ScoredFrames | ai_service/face_recognition.py:138-146 | at most one scored entry per frame |
| FaceRecognition.ScoredFramesSkipFailures | ai_service/face_recognition.py:138-146 | one entry per frame whose extraction succeeds, each carrying that frame's embedding and quality |
| FaceRecognition.EmbeddingsOf | ai_service/face_recognition.py:151 | the embeddings of the scored frames, in order |
| FaceRecognition.FramesUsed | ai_service/face_recognition.py:151 | `min(5, n)` |
| FaceRecognition.EnrolmentUsesBestFrames | ai_service/face_recognition.py:148-151 | every usable frame left out of multi-frame enrolment has quality no higher than each frame used |
| FaceRecognition.EnrolmentEmbedding | ai_service/face_recognition.py:136-157 | multi-frame enrolment produces an embedding exactly when at least one frame is extractable |
| FaceRecognition.RescaleKeepsSides | ai_service/face_recognition.py:177 | below a threshold under 1, the rescaled similarity is on the same side of 0 and of 1 as the raw similarity |
| FaceRecognition.RescaledConfidence | ai_service/face_recognition.py:177 | the confidence lies in [0, 1], is 0 exactly at or below the threshold, and is 1 exactly from similarity 1 up |
| FaceRecognition.MatchHit | ai_service/face_recognition.py:173-180 | no match exactly when there is no hit or it is below the threshold; `IndexError` exactly when the id list is too short; otherwise the id at the hit's label with a confidence in [0, 1] |
| FaceRecognition.Winner | ai_service/face_recognition.py:211 | the winner has a vote count no other id exceeds, and every id seen before it has strictly fewer votes: ties go to the id seen first |
| FaceRecognition.FirstSeenWinsTies | ai_service/face_recognition.py:211 | when the first-seen id has the most votes it wins, whatever ties it has |
| FaceRecognition.Decide | ai_service/face_recognition.py:208-215 | no frame or no best frame means no match; an acceptance names the winner (the first-seen id with the most votes) and carries the best similarity (at least the threshold) and at least `max(1, frames // 3)` votes; acceptance holds exactly when both tests pass |
| FaceRecognition.TallyFramesWf | ai_service/face_recognition.py:193-206 | the voting loop keeps its vote dict and first-seen order consistent |
| FaceRecognition.FrameStepWf | ai_service/face_recognition.py:198-206 | one frame keeps every voted id in the order list exactly once, and the best id among the voted ids |
| FaceRecognition.TallyCountsExtractable | ai_service/face_recognition.py:193-206 | only frames whose extraction succeeds count toward `total_frames` |
| FaceRecognition.TallyCountsVotes | ai_service/face_recognition.py:200-204 | each id's vote count is the number of frames whose top-1 hit is that id at or above the threshold |
| FaceRecognition.AlignedTallyNeverFails | ai_service/face_recognition.py:200-204 | with an id for every stored vector the voting loop never raises |
| FaceRecognition.TallyFailurePersists | ai_service/face_recognition.py:193-206 | an `IndexError` on some frame aborts the whole call with that error |
| FaceRecognition.SimilarityMayComeFromAnotherId | ai_service/face_recognition.py:211-215 | the reported similarity is the best frame's even when that frame voted for another id (A wins with B's 0.9) |
| FaceRecognition.Rect | ai_service/face_recognition.py:242 | a face's reported box always has four integers |
| FaceRecognition.FaceOutcome | ai_service/face_recognition.py:240-275 | each face's entry keeps its box; with a non-empty gallery and an embedding, the face is recognised exactly when some stored vector's similarity to the normalised probe reaches the threshold, a recognised entry names the most similar entry (id, similarity) with a confidence in [0, 1], and an unrecognised one has no id or confidence and reports the top similarity, which is below the threshold; an empty gallery or a face without embedding is unrecognised with no similarity |
| FaceRecognition.FaceRecognitionSystem.constructor | ai_service/face_recognition.py:28-63 | a new system holds the persisted index and ids when both files exist with dimension 512, and an empty aligned gallery otherwise |
| FaceRecognition.FaceRecognitionSystem.LoadOrCreateIndex | ai_service/face_recognition.py:46-63 | loading fails exactly when an existing file is unreadable; a 512-dimensional pair is loaded as is; a dimension mismatch or a missing file gives an empty index and no ids |
| FaceRecognition.FaceRecognitionSystem.SaveIndex | ai_service/face_recognition.py:65-72 | both files hold the in-memory index and ids |
| FaceRecognition.FaceRecognitionSystem.RegisterFace | ai_service/face_recognition.py:127-134 | succeeds exactly when extraction does, then appends one vector and one id and persists them; on failure nothing changes; alignment is preserved |
| FaceRecognition.FaceRecognitionSystem.RegisterFaceMulti | ai_service/face_recognition.py:136-157 | fails (changing nothing) exactly when no frame is extractable; otherwise appends the aggregate of the best frames and one id; alignment is preserved |
| FaceRecognition.FaceRecognitionSystem.ScoreFrames | ai_service/face_recognition.py:138-145 | the loop collects the quality-scored embeddings of exactly the extractable frames, in frame order |
| FaceRecognition.FaceRecognitionSystem.RecognizeFace | ai_service/face_recognition.py:159-180 | no match on an empty gallery; a match is the most similar stored vector's id with similarity at or above the threshold; no match means every stored similarity is below it |
| FaceRecognition.FaceRecognitionSystem.RecognizeFaceMulti | ai_service/face_recognition.py:182-215 | the loop over the frames computes the voting outcome of the frames against the gallery |
| FaceRecognition.FaceRecognitionSystem.VoteFrame | ai_service/face_recognition.py:194-206 | one frame: skipped if not extractable, otherwise counted, voting for its top-1 id when the similarity reaches the threshold and raising on an id index past the list |
| FaceRecognition.FaceRecognitionSystem.Stats | ai_service/face_recognition.py:217-223 | the reported vector count equals the number of registered students exactly when the gallery is aligned |
| FaceRecognition.FaceRecognitionSystem.RecognizeFacesInImage | ai_service/face_recognition.py:226-278 | one entry per detected face in detector order, each the per-face outcome; a failure is the first face whose lookup raises |
| FaceRecognition.AlignedRecognizeNeverOutOfRange | ai_service/face_recognition.py:175 | on an aligned gallery single-photo matching never raises `IndexError` |
| FaceRecognition.HigherThresholdOnlyDropsMatches | ai_service/face_recognition.py:174 | raising the threshold can only turn a match into no match; it never changes the matched id or similarity |
| FaceRecognition.AlignedMultiNeverOutOfRange | ai_service/face_recognition.py:203 | on an aligned gallery multi-frame matching never raises `IndexError` |
| FaceRecognition.AlignedFaceNeverOutOfRange | ai_service/face_recognition.py:260 | on an aligned gallery per-face matching never raises `IndexError` |
| RecognitionService.PyIndex | services/face_recognition.py:136 | Python indexing, from the end for a negative index |
| RecognitionService.Collect | services/face_recognition.py:132-139 | the hit loop keeps at most one candidate per hit, and non-negative distances stay non-negative |
| RecognitionService.CollectFailurePersists | services/face_recognition.py:132-139 | an `IndexError` on some hit empties the whole result |
| RecognitionService.SearchL2ScoresNonNeg | services/face_recognition.py:131 | every L2 hit, padding included, has a non-negative distance |
| RecognitionService.LookupMatches | services/face_recognition.py:112-144 | [] for a missing or empty index or `k <= 0`; at most k candidates, all at non-negative distance |
| RecognitionService.CollectChecked | services/face_recognition.py:132-139 | with the intended `0 <= label` check every candidate comes from a hit whose label is a valid position |
| RecognitionService.LookupMatchesChecked | services/face_recognition.py:112-144 | with the intended check every candidate pairs a stored id with the true distance of that id's vector |
| RecognitionService.CollectAgrees | services/face_recognition.py:135 | without padding hits the loop as written and the checked loop agree |
| RecognitionService.LookupAgreesWithoutPadding | services/face_recognition.py:112-144 | for `k <= ntotal` the as-written lookup is the checked one |
| RecognitionService.PaddingLabelReadsLastId | services/face_recognition.py:135-136 | asking for two neighbours of a one-vector index reports the last student twice, the second time at `FLT_MAX` |
| RecognitionService.IsMatchWithoutDivision | services/face_recognition.py:146-159 | for d > -1 the match rule is `(1 - tolerance) * (1 + d) <= 1` |
| RecognitionService.IsMatchMonotone | services/face_recognition.py:146-159 | a smaller distance never turns a match into a non-match |
| RecognitionService.DefaultToleranceAcceptsUpTo | services/face_recognition.py:146-159 | with tolerance 0.6 a distance matches exactly when it is at most 1.5 |
| RecognitionService.EntryFor | services/face_recognition.py:174-199 | a face's entry keeps its position and box; it is recognised exactly when the best match passes `is_match`, with that id and confidence `1/(1+d)` in [1 - tolerance, 1]; otherwise no id and confidence 0 |
| RecognitionService.FaceEntries | services/face_recognition.py:161-202 | entries only for encodable boxes, in increasing face position, each tagged with its box; recognised entries carry an id |
| RecognitionService.EveryEncodableFaceHasEntry | services/face_recognition.py:174-199 | every encodable box gets its entry |
| RecognitionService.KeepIndices | services/face_recognition.py:214 | exactly the positions whose id is not the removed one, in increasing order |
| RecognitionService.Pick | services/face_recognition.py:222 | `[s[i] for i in keep]` |
| RecognitionService.RemoveAsWritten | services/face_recognition.py:204-231 | afterwards the id is gone and every other id remains; an absent id changes nothing; the index is kept as it was unless no id remains |
| RecognitionService.RemoveRebuilt | services/face_recognition.py:204-231 | the corrected removal keeps the gallery aligned, with every remaining id beside its own original vector |
| RecognitionService.RemovalMisattributesFaces | services/face_recognition.py:210-227 | after the as-written removal of student 1, student 1's own face is recognised as student 2 at distance 0 |
| RecognitionService.RemoveFirstOfTwo | services/face_recognition.py:210-227 | removing the first of two students as written leaves both vectors beside the single remaining id |
| RecognitionService.RebuildFirstOfTwo | services/face_recognition.py:210-227 | removing the first of two students with the rebuilt index leaves only the second student's vector |
| RecognitionService.FaceRecognitionService.constructor | services/face_recognition.py:11-36 | an unreadable file resets to an empty 128-dimensional index and no ids; otherwise each existing file is loaded and a missing index stays absent |
| RecognitionService.FaceRecognitionService.LoadIndex | services/face_recognition.py:18-31 | each existing file is read; a read that raises resets both parts to empty; a missing file leaves its part unchanged |
| RecognitionService.FaceRecognitionService.SaveIndex | services/face_recognition.py:38-48 | an absent index writes nothing; otherwise both files hold the state |
| RecognitionService.FaceRecognitionService.AddStudentEmbedding | services/face_recognition.py:85-110 | a missing index is created first; a wrong-dimension encoding changes nothing more; otherwise exactly one vector and one id are appended and saved, preserving alignment |
| RecognitionService.FaceRecognitionService.RecognizeFace | services/face_recognition.py:112-144 | the search and hit loop give the lookup's candidates |
| RecognitionService.FaceRecognitionService.RecognizeFacesInImage | services/face_recognition.py:161-202 | the loop over the boxes gives the per-face entries |
| RecognitionService.FaceRecognitionService.RecognizeOne | services/face_recognition.py:180-198 | one encoded face is recognised exactly when its nearest match is within the tolerance, with confidence 1/(1+distance) |
| RecognitionService.FaceRecognitionService.RemoveStudentEmbedding | services/face_recognition.py:204-231 | the ids are filtered as written and the index is not rebuilt; saved only when the id was present |
| RecognitionService.FaceRecognitionService.RemoveStudentEmbeddingRebuilt | services/face_recognition.py:204-231 | the corrected removal keeps the gallery aligned |
| AdvancedRecognition.LoadedDetectors | ai_service/advanced_face_recognition.py:113-221 | SCRFD and RetinaFace load exactly with InsightFace, MediaPipe exactly with MediaPipe, and only when configured; YOLOv8 and OpenCV DNN never load |
| AdvancedRecognition.LoadedRecognizers | ai_service/advanced_face_recognition.py:141-196 | an ArcFace package loads exactly with InsightFace and a DeepFace backend exactly with DeepFace, when configured; AdaFace never loads |
| AdvancedRecognition.DetectWithModel | ai_service/advanced_face_recognition.py:256-277 | the InsightFace detectors and MediaPipe report what they find; other detector types find nothing |
| AdvancedRecognition.DetectionOutcome | ai_service/advanced_face_recognition.py:223-254 | the primary's faces when it finds any, else the fallback's when allowed, else nothing |
| AdvancedRecognition.UnloadedDetectorsFindNothing | ai_service/advanced_face_recognition.py:223-254 | without InsightFace and MediaPipe detection always finds nothing |
| AdvancedRecognition.FaceSizeScore | ai_service/advanced_face_recognition.py:399-410 | 0.7 without a box, 1 on [0.15, 0.40], proportional below, and in [0.4, 1) above |
| AdvancedRecognition.FaceSizeScoreRange | ai_service/advanced_face_recognition.py:399-410 | for a non-negative ratio the size score lies in [0, 1] and is 1 exactly on [0.15, 0.40] |
| AdvancedRecognition.AssessQuality | ai_service/advanced_face_recognition.py:380-415 | 0.5 when OpenCV raises; without a box at most 0.91 |
| AdvancedRecognition.AssessQualityRange | ai_service/advanced_face_recognition.py:380-415 | the quality lies in [0, 1] for a box of non-negative area |
| AdvancedRecognition.ChosenRecognizer | ai_service/advanced_face_recognition.py:296-304 | the primary recogniser exactly above quality 0.75 |
| AdvancedRecognition.NoBoxNeedsSharpAndLit | ai_service/advanced_face_recognition.py:296-304 | without a box, a Laplacian variance under 75 never reaches the primary recogniser |
| AdvancedRecognition.DefaultFallbackNeverEmbeds | ai_service/advanced_face_recognition.py:296-304 | with the default configuration a low-quality image chooses AdaFace, which is never loaded |
| AdvancedRecognition.EnsembleWeight | ai_service/advanced_face_recognition.py:354-357 | a weight is 1.5 or 1 |
| AdvancedRecognition.ValueHasNoXL | ai_service/advanced_face_recognition.py:54-62 | no enum value contains "XL" |
| AdvancedRecognition.ValueMentionsAdaFace | ai_service/advanced_face_recognition.py:54-62 | only AdaFace's value contains "adaface" |
| AdvancedRecognition.NameMentionsXL | ai_service/advanced_face_recognition.py:54-62 | only ArcFace XL's member name contains "XL" |
| AdvancedRecognition.EnsembleWeightFavoursOnlyAdaFace | ai_service/advanced_face_recognition.py:354-357 | as written only AdaFace gets the higher weight |
| AdvancedRecognition.EnsembleWeightByName | ai_service/advanced_face_recognition.py:354-357 | a weight is 1.5 or 1 |
| AdvancedRecognition.EnsembleWeightByNameFavoursXLAndAdaFace | ai_service/advanced_face_recognition.py:354-357 | testing the member name favours exactly ArcFace XL and AdaFace |
| AdvancedRecognition.Gathered | ai_service/advanced_face_recognition.py:344-360 | one as-written weight per gathered embedding, each between 1 and 1.5 |
| AdvancedRecognition.GatheredIsEmpty | ai_service/advanced_face_recognition.py:375-378 | because `_extract_single` returns None, the ensemble loop gathers nothing |
| AdvancedRecognition.NormalizeWeights | ai_service/advanced_face_recognition.py:367 | each weight divided by the sum |
| AdvancedRecognition.SumOfQuotients | ai_service/advanced_face_recognition.py:367 | dividing every weight by c divides the sum by c |
| AdvancedRecognition.NormalizedWeightsSumToOne | ai_service/advanced_face_recognition.py:367 | the normalised weights sum to 1 |
| AdvancedRecognition.WeightedSum | ai_service/advanced_face_recognition.py:369 | the weighted sum keeps the dimension |
| AdvancedRecognition.Combine | ai_service/advanced_face_recognition.py:367-370 | the combination always yields a vector of the embeddings' dimension |
| AdvancedRecognition.EnsembleModeAlwaysNone | ai_service/advanced_face_recognition.py:336-373 | ensemble mode always returns None |
| AdvancedRecognition.LastHundred | ai_service/advanced_face_recognition.py:419-420 | `times[-100:]`: the last `min(100, n)` entries in order |
| AdvancedRecognition.RecentMeanIgnoresOlder | ai_service/advanced_face_recognition.py:419-420 | entries older than the last hundred never change the average |
| AdvancedRecognition.RecentMeanBounds | ai_service/advanced_face_recognition.py:419-420 | the average lies within bounds all entries respect |
| AdvancedRecognition.AdvancedFaceRecognition.constructor | ai_service/advanced_face_recognition.py:74-111 | the configuration is kept, the loaded models are those the libraries allow, and all counters start at zero |
| AdvancedRecognition.AdvancedFaceRecognition.DetectFaces | ai_service/advanced_face_recognition.py:223-254 | the faces are the detection outcome; a time is recorded exactly on success; the fallback counter moves exactly when the fallback found the faces |
| AdvancedRecognition.AdvancedFaceRecognition.ExtractEmbedding | ai_service/advanced_face_recognition.py:279-334 | the chosen recogniser's embedding if it is loaded, else None; every fallback choice is counted; a time is recorded exactly on success |
| AdvancedRecognition.AdvancedFaceRecognition.ExtractEmbeddingEnsemble | ai_service/advanced_face_recognition.py:336-373 | outside ensemble mode it is `extract_embedding` without a box; in ensemble mode the ensemble outcome, counted only on success |
| AdvancedRecognition.AdvancedFaceRecognition.GetStatistics | ai_service/advanced_face_recognition.py:417-433 | totals count all entries, counters and loaded models are reported, and an empty timing list averages 0 |
| AttendanceViews.InDepartment | backend/attendance/views.py:28 | exactly the sessions of the department |
| AttendanceViews.VisibleSessions | backend/attendance/views.py:20-34 | anonymous requests see everything; a teacher exactly their department's sessions; another user everything as superuser and nothing otherwise |
| AttendanceViews.TeacherSeesOnlyOwnDepartment | backend/attendance/views.py:25-28 | a teacher never sees another department's session |
| AttendanceViews.AttendanceSession.constructor | backend/attendance/views.py:14-18 | a new session is active, started now, not ended |
| AttendanceViews.AttendanceSession.EndSession | backend/attendance/views.py:36-45 | inactive, ended now, start time kept |
| AttendanceViews.AttendanceSession.StartSession | backend/attendance/views.py:47-58 | active, restarted now, end time cleared |
| AttendanceViews.MergeMaxMonotone | backend/attendance/views.py:69-77 | the upsert keeps every record, touches only its key, never lowers a confidence, and leaves the key with at least the new confidence (the maximum on an existing record) |
| AttendanceViews.MergeMaxIdempotent | backend/attendance/views.py:69-77 | marking twice with the same confidence is marking once |
| AttendanceViews.MarkOutcome | backend/attendance/views.py:60-82 | 404 for a missing or unknown student with no change; otherwise 201 for a new record and 200 for an existing one, with the max-merge |
| AttendanceViews.MarkNeverLowers | backend/attendance/views.py:60-82 | marking keeps every record, never lowers a confidence, keeps existing statuses, and answers 404 exactly for an unknown student |
| AttendanceViews.RecognizeChangesOnlyOnSuccess | backend/attendance/views.py:84-144 | every answer but 200/201 leaves the records unchanged; an inactive session gets 400 first; an unrecognised payload changes nothing |
| AttendanceViews.RecognizeMarksPresent | backend/attendance/views.py:114-144 | a recognised known student ends present with at least the reported confidence, and 201 exactly when the record is new |
| AttendanceViews.EntryFor | backend/attendance/views.py:261-310 | an entry is recognised exactly when the face is flagged with a non-zero id of a known student; it then names that student, else none; box and scores are passed through |
| AttendanceViews.FrameUpsertGrows | backend/attendance/views.py:270-281 | one face's update keeps every record, lowers no confidence, touches only this session and keeps present records present; a marked face ends present with at least its similarity |
| AttendanceViews.FrameRecordsMarkAll | backend/attendance/views.py:261-310 | after a frame every marked face's student is present in the session, nothing was lost or lowered, and other sessions are untouched |
| AttendanceViews.AttendanceStore.constructor | backend/attendance/models.py:1-34 | the store holds the given records |
| AttendanceViews.AttendanceStore.MarkAttendance | backend/attendance/views.py:60-82 | the status and new records are the marking outcome |
| AttendanceViews.AttendanceStore.Recognize | backend/attendance/views.py:84-144 | the status and new records are the recognition outcome |
| AttendanceViews.AttendanceStore.RecognizeMulti | backend/attendance/views.py:146-203 | the same outcome, with an empty upload list as the missing upload |
| AttendanceViews.AttendanceStore.RecognizeFrame | backend/attendance/views.py:230-312 | 400 for an inactive session or no frame, 503/502 for the AI service, all with no entries and no change; otherwise one entry per face in order and the per-face upserts |
| AttendanceService.Database.constructor | models/attendance.py:1-38 | a database with the given students and empty tables |
| AttendanceService.LargestFaceIndex | services/attendance_service.py:60 | the first face of largest `w * h` |
| AttendanceService.CollectEmbeddings | services/attendance_service.py:44-67 | at most one embedding per photo |
| AttendanceService.CollectedComeFromFiles | services/attendance_service.py:44-67 | each collected embedding is some photo's largest-face encoding |
| AttendanceService.UsableFilesAreCollected | services/attendance_service.py:44-67 | every usable photo's encoding is collected, so only missing, unreadable, faceless or unencodable photos are skipped |
| AttendanceService.StoredEmbedding | services/attendance_service.py:72-76 | the stored embedding keeps the encodings' length |
| AttendanceService.StoredEmbeddingOfCopies | services/attendance_service.py:72-76 | enrolling one encoding from k photos stores it unchanged, with no re-normalisation |
| AttendanceService.RegisterOutcomeFacts | services/attendance_service.py:36-89 | a known student with a usable photo is refused only for mixed encoding lengths; the count is the number of collected encodings (at least 1); one usable photo stores its encoding as is |
| AttendanceService.CountRecognized | services/attendance_service.py:130 | at most one per result |
| AttendanceService.DedupStepKeeps | services/attendance_service.py:139-161 | one turn of the marking loop keeps the loop invariant |
| AttendanceService.AddedRowsAreRecognized | services/attendance_service.py:139-161 | the rows the marking loop adds follow the old rows, each for a student recognised on some face |
| AttendanceService.DedupAgreesWhenDistinct | services/attendance_service.py:139-161 | when no student is recognised on two faces, the loop's outcome is the same whether or not the session flushes before each query |
| AttendanceService.RepeatedStudentDependsOnFlush | services/attendance_service.py:139-161 | a student recognised on two faces is added once (and reported as already marked) on a flushing session, twice on a non-flushing one |
| AttendanceService.DedupFacts | services/attendance_service.py:139-161 | the marked and already-marked lists together are as long as the recognised results; every recognised student has a row for today; a marked student had no row for today before and is marked at most once; an already-marked one had a row before or was marked earlier in the call; one row for today is appended per marked student, after the old rows |
| AttendanceService.RecognizedIds | services/attendance_service.py:139-141 | one id per recognised result |
| AttendanceService.DedupReportsEachOnce | services/attendance_service.py:139-161 | each recognised result is reported exactly once: as multisets, marked plus already-marked equals the recognised ids |
| AttendanceService.DedupReportsEveryResult | services/attendance_service.py:139-161 | every recognised result's id is in marked or in already-marked; a student with a row for today before the call is in already-marked |
| AttendanceService.UnrecognizedFacesBreakdown | services/attendance_service.py:186 | the unrecognised-face count (detected faces minus recognised results) equals the results not recognised plus the faces that could not be encoded, so it is never negative |
| AttendanceService.CountUnrecognized | services/attendance_service.py:186 | the unrecognised and recognised results together are all the results |
| AttendanceService.FirstRowIndex | services/attendance_service.py:274-277 | `.first()`: the first row for (student, date), absent exactly when there is none |
| AttendanceService.OverrideThenLookup | services/attendance_service.py:274-293 | after an override the (student, date) status reads back as the new one, and every other key reads as before |
| AttendanceService.FirstRowUnderOverride | services/attendance_service.py:274-293 | after an override the key's first row holds the new status; every other key's first row is the same row, unchanged |
| AttendanceService.AttendanceService.constructor | services/attendance_service.py:14-22 | the service uses the given recogniser |
| AttendanceService.AttendanceService.RegisterStudentFaces | services/attendance_service.py:24-92 | the outcome is the registration outcome; a refusal changes nothing; success stores the average on the student's row and appends it to the gallery, preserving alignment; an average of the wrong dimension leaves the ids and disk as they were, with a missing index created empty |
| AttendanceService.AttendanceService.CollectFaces | services/attendance_service.py:41-67 | the loop encodes the largest face of each readable photo with faces, and counts one processed image per encoding |
| AttendanceService.AttendanceService.MarkAttendanceFromImage | services/attendance_service.py:94-191 | an unreadable or faceless photo is refused with no write; otherwise one session row and the dedup rows are added, and the report's counts come from the per-face results |
| AttendanceService.AttendanceService.RecordSession | services/attendance_service.py:122-186 | one session row with the detected and recognised counts is appended, the dedup rows are added, and the report counts the marked, the already-marked and the unrecognised faces |
| AttendanceService.AttendanceService.MarkRecognized | services/attendance_service.py:136-161 | the loop over the recognised faces adds exactly the rows of the dedup specification and splits the ids into marked and already marked |
| AttendanceService.AttendanceService.OverrideAttendance | services/attendance_service.py:259-301 | the table becomes the overridden table, with an update exactly when a row for (student, date) existed |
| AttendanceApi.ImageTypeMeansImagePrefix | api/attendance.py:44-45 | an upload is accepted exactly when its content type begins with the six characters "image/" |
| AttendanceApi.MarkResponse | api/attendance.py:34-76 | 200 exactly for an image upload the service accepts, with its report; otherwise 400 and no report |
| AttendanceApi.CountPresent | api/attendance.py:86 | at most one per row |
| AttendanceApi.RowsOn | api/attendance.py:82 | exactly the rows of the date |
| AttendanceApi.ByDate | api/attendance.py:85-94 | present plus absent is the active student count; present counts the date's "Present" rows; 0% without students; with present at most total, absent is non-negative and the percentage in [0, 100]; 100% exactly when none is absent |
| AttendanceApi.AbsentCanBeNegative | api/attendance.py:87 | the absent count is not clamped: a present row and no active student give -1 |
| AttendanceApi.OverrideEndpoint | api/attendance.py:144-176 | 404 for an unknown student (before the status check), 400 for a status outside Present/Absent, both with no change; otherwise 200 and the override |
| AttendanceApi.OverrideReadsBack | api/attendance.py:157-166 | after an accepted override the status reads back as the new, valid one |
| AttendanceApi.RecognitionRate | api/attendance.py:198 | 0 with nothing detected; in [0, 100] when recognised is at most detected |
| AttendanceApi.SessionsOn | api/attendance.py:184-186 | exactly the sessions of the date |
| AttendanceApi.RowsBetween | api/attendance.py:245-248 | exactly the rows within the date range |
| AttendanceApi.Dates | api/attendance.py:257 | every row's date is in it, and each of its dates has a row |
| AttendanceApi.Summary | api/attendance.py:251-260 | the day count is the number of distinct dates; present counts the rows with status "Present"; present plus absent is the record count, absent non-negative; the student count is the number of distinct student ids; the average is 0 without records and in [0, 100] |
| AttendanceApi.DailyKeys | api/attendance.py:257-272 | the breakdown has one entry per distinct date, so `total_days` is its size |
| AttendanceApi.NoRowsOffTheDates | api/attendance.py:257 | a date without a record has no rows |
| AttendanceApi.DailyCounts | api/attendance.py:263-272 | each day counts exactly that day's "Present" rows as present and the rest as absent |
| AttendanceApi.DailyCountsSameDay | api/attendance.py:263-272 | a record on day d moves day d's counters in step with day d's rows |
| AttendanceApi.DailyCountsOtherDay | api/attendance.py:263-272 | a record on another day leaves day d's counters and rows unchanged |
| AttendanceApi.DateList | api/attendance.py:257 | the distinct dates, each once |
| AttendanceApi.DaySumUpdate | api/attendance.py:263-272 | changing one day's counters changes the sum over the distinct days by exactly that change |
| AttendanceApi.DaySumStep | api/attendance.py:264-272 | counting one more record adds one to the sum over the days |
| AttendanceApi.DailySum | api/attendance.py:251-272 | the per-day present and absent counts add up to `total_records` |
| AttendanceApi.DailyExtend | api/attendance.py:264-272 | counting one more record is one step of the loop |
| AttendanceApi.CountRecord | api/attendance.py:265-272 | the loop body: a new day starts at (0, 0), then one counter goes up |
| AttendanceApi.GetAttendanceAnalytics | api/attendance.py:236-288 | the loop builds the breakdown; its days are the distinct dates (`total_days`); each day's counts total that day's rows; over all days they total `total_records` |
| Departments.DepartmentTable | frontend/src/constants/departments.js:3-120 | 26 departments: 16 four-year undergraduate, then 10 two-year postgraduate |
| Departments.Find | frontend/src/constants/departments.js:124 | none exactly when no department has the value; otherwise the first that does |
| Departments.OrdinalLabels | frontend/src/constants/departments.js:138-141 | years 1 to 4 are "First Year" to "Fourth Year"; other years read "Year n" |
| Departments.YearLabelInjective | frontend/src/constants/departments.js:138-141 | different year numbers get different labels |
| Departments.IntToStringInjective | frontend/src/constants/departments.js:140 | different integers print differently |
| Departments.GetYearOptions | frontend/src/constants/departments.js:123-135 | [] for an unknown department; otherwise one option per year, the k-th with value and label the k-th year label, no value repeated |
| Departments.YearOptions | frontend/src/constants/departments.js:127-134 | the loop yields one option per year, the k-th with value and label the k-th year label, no value repeated |
| Departments.OptionsDistinct | frontend/src/constants/departments.js:127-134 | options labelled by consecutive years never repeat a value |
| Departments.OptionsByDegree | frontend/src/constants/departments.js:127-149 | an undergraduate department offers the four filter years, a postgraduate one the first two |
| ClassYears.GetClassYears | frontend/src/types/api.ts:143-145 | 4 years for UG, 2 for PG, always a prefix of the undergraduate list |
| ClassYears.ClassYearListsAgree | frontend/src/types/api.ts:125-135 | the postgraduate list is the first two undergraduate years, and the undergraduate list is the filter years |
| ClassYears.YearName | frontend/src/types/api.ts:151-152 | an ordinal exactly for 1 to 5, `undefined` otherwise |
| ClassYears.GetClassYearsForDepartment | frontend/src/types/api.ts:148-155 | as many entries as the duration (none for a negative one), entry i the i-th ordinal plus " Year" |
| ClassYears.DepartmentYearsAgree | frontend/src/types/api.ts:148-155 | up to four years the list is the undergraduate prefix and agrees with the department labels; a fifth year reads "Fifth Year" where the department labels say "Year 5"; later years read "undefined Year" |
| Middleware.Session.constructor | backend/attendance_system/middleware.py:23 | a session holding the given data |
| Middleware.TokenFor | backend/attendance_system/middleware.py:16-28 | a token is stored exactly on admin paths with a bearer header or a `teacher_token` cookie |
| Middleware.BearerSplit | backend/attendance_system/middleware.py:22 | after "Bearer " there is a second field: the text up to the next space |
| Middleware.BearerTokenWins | backend/attendance_system/middleware.py:21-23 | the bearer header wins over the cookie, and the stored token is space-free |
| Middleware.CookieFallback | backend/attendance_system/middleware.py:18-28 | other paths store nothing; without a bearer header the cookie value is stored as is |
| Middleware.JwtToSessionMiddleware.constructor | backend/attendance_system/middleware.py:13-14 | the next handler is kept |
| Middleware.JwtToSessionMiddleware.Call | backend/attendance_system/middleware.py:16-31 | the session gains `jwt_token` exactly when a token is found, nothing else changes, and the response is the next handler's, unmodified |

## Left out

- Detection, landmark and embedding networks (InsightFace, DeepFace, MediaPipe, YOLO, `face_recognition`) are foreign calls. The photo value carries their output, and `encode`/`detect`/`recognize` are parameters.
- The Euclidean norm (`np.linalg.norm`, a square root) is a supplied measurement, so normalised vectors are not proved to have unit length.
- Floating point is modelled as exact real arithmetic:
  - no float32 rounding;
  - FAISS's order among exactly tied scores is taken as the lowest label first.
- File, pickle and FAISS-file I/O is left out; the disk is a value, and temporary-file handling and upload saving are left out. The ORM is in-memory tables, and `flush`/`commit`/`rollback` are not modelled.
- HTTP glue is left out:
  - routing;
  - the requests to the AI service (their reply is a parameter);
  - response bodies beyond status codes and the fields named in the table;
  - CSV export;
  - time zones.
- Exceptions other than those named in the contracts are left out: the generic `except Exception` branches, and the 500 answers of the API.
- Clocks are left out: `date.today()`, `timezone.now()` and `datetime.utcnow()` are parameters.
- The callers' bounds of `ai_service/main.py` (3 to 15 frames for multi-frame enrolment, threshold 0.7 for per-face matching) are not preconditions. The model holds for every frame count and threshold except a threshold of exactly 1, where the rescale divides by zero; that case is a modelled error.
- FaceRecognition.FaceRecognitionSystem.constructor: requires that no existing file is unreadable, because the source's constructor then raises. `LoadOrCreateIndex` models that error path.
- RecognitionService.FaceRecognitionService.AddStudentEmbedding: the dimension-mismatch exception FAISS raises is swallowed by the source's `except`, so the method changes nothing in that case; the printed message is not modelled.
- AttendanceApi.ByDate: the percentage is exact, and the rounding to two decimals is not modelled.
- AttendanceApi.Summary: the average percentage is exact, and the rounding to two decimals is not modelled.
- AttendanceApi.RecognitionRate: the rate is exact, and the rounding to two decimals is not modelled.
- AttendanceService.AttendanceService.MarkAttendanceFromImage: the confidence string (`f"{c:.2f}"`) and the student name lists of the report are not modelled; the report carries the marked and already-marked ids.
- AdvancedRecognition.AdvancedFaceRecognition.GetStatistics: the average times are exact means of the last hundred entries; the rounding to two decimals is not modelled.
- AttendanceService.Dedup: the session's `autoflush` setting lives in `app/database.py`, which is not part of this model. `Dedup` assumes SQLAlchemy's default, a session that flushes before each query, so a row added earlier in the loop is found by a later `.first()`. `DedupUnflushed` is the loop on a session that does not flush. `DedupAgreesWhenDistinct` shows the two agree whenever no student is recognised on two faces. `RepeatedStudentDependsOnFlush` shows the difference otherwise.
- AttendanceService.DedupFacts: states the loop's guarantees on a flushing session (see `AttendanceService.Dedup`); on a non-flushing session a student recognised twice is marked twice.
- AttendanceService.AttendanceService.MarkRecognized: follows `Dedup`, so it assumes a flushing session (see `AttendanceService.Dedup`).
- AdvancedRecognition.Combine: the ensemble combination is dead code (the gathered list is always empty), so its contract only states the result's shape.
- AdvancedRecognition.AdvancedFaceRecognition.constructor: the YOLO library flag has no effect, because the YOLO loader is a placeholder that loads nothing.
- ClassYears.GetClassYearsForDepartment: a non-integer `duration_years` is not modelled; the duration is an integer.
- `get_student_attendance_history`, `get_attendance_range`, `delete_attendance_session`, `export_csv` and the enrolment endpoints outside the named operations are not part of this model.

## Findings

| source | as written | input that shows it | evidently intended | confidence | as-written member | corrected member |
|---|---|---|---|---|---|---|
| services/face_recognition.py:210-227 | `remove_student_embedding` filters the id list but keeps every vector in the index, so later ids shift onto earlier vectors | students 1 and 2 enrolled as [0] and [1]; remove 1; probe [0] | the removed student's vectors go too, and each remaining id stays beside its own vector | not executed | RecognitionService.RemovalMisattributesFaces | RecognitionService.RemoveRebuilt |
| services/face_recognition.py:131-138 | the label check `idx < len(student_ids)` lets FAISS's padding label -1 through, and `student_ids[-1]` reads the last id | one stored vector for student 7, `k = 2` | padding hits (label -1) are discarded | not executed | RecognitionService.PaddingLabelReadsLastId | RecognitionService.LookupMatchesChecked |
| ai_service/advanced_face_recognition.py:354-357 | the ensemble weight tests `'XL' in recognizer_type.value`, but ArcFace XL's value is "antelopev2", so only AdaFace gets weight 1.5 | `RecognitionModel.ARCFACE_XL` | ArcFace XL and AdaFace are both weighted 1.5 (the member name holds "XL") | not executed | AdvancedRecognition.EnsembleWeightFavoursOnlyAdaFace | AdvancedRecognition.EnsembleWeightByNameFavoursXLAndAdaFace |

The recognition service class keeps the as-written removal (`RemoveStudentEmbedding`) and offers the corrected one beside it (`RemoveStudentEmbeddingRebuilt`). The ensemble loop (`Gathered`) uses the as-written weight (`EnsembleWeight`); `GatheredIsEmpty` shows the loop gathers nothing, so the weight changes no result. `LookupAgreesWithoutPadding` shows that the as-written and corrected lookups agree whenever no more neighbours are asked for than stored, which covers the `k = 1` calls of `recognize_faces_in_image`.
