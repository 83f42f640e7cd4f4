/**
 * The SQLAlchemy-backed attendance service (`AttendanceService`): enrolment of
 * a student from several photos, marking a whole class from one photo with a
 * per-day duplicate check, and the manual override of one day's status.
 *
 * The database is a `Database` object whose tables are fields: the attendance
 * rows in insertion order, the attendance sessions, the stored enrolment
 * embedding per student, and the set of existing student ids. The face detector
 * has already run on every loaded photo (its boxes are part of the photo), the
 * encoder is a function supplied by the caller, and the clock is a parameter.
 */
module AttendanceService {
  import opened Wrappers
  import opened Vectors
  import opened Ranking
  import FlatIndex
  import opened RecognitionService

  /** A photo on disk: absent, not decodable by OpenCV, or loaded with the detector's boxes. */
  datatype ImageFile = Missing | Unreadable | Loaded(faces: seq<Box>)

  /** What `confidence_score` holds: the recognition confidence, or "Manual". */
  datatype Score = Scored(confidence: real) | Manual

  datatype AttendanceRow = AttendanceRow(studentId: int, date: int, status: string, markedAt: int, score: Score)

  datatype SessionRow = SessionRow(date: int, className: Option<string>, teacherName: Option<string>, imagePath: string,
                                   totalDetected: nat, totalRecognized: nat)

  class Database {
    const students: set<int>
    var attendance: seq<AttendanceRow>
    var sessions: seq<SessionRow>
    /** `Student.face_embedding`, per student. */
    var studentEmbeddings: map<int, Vector>

    constructor (students: set<int>)
      ensures this.students == students && attendance == [] && sessions == [] && studentEmbeddings == map[]
    {
      this.students := students;
      attendance := [];
      sessions := [];
      studentEmbeddings := map[];
    }
  }

  // ----------------------------------------------------------------- enrolment

  function Area(b: Box): int
  {
    b.w * b.h
  }

  /** `max(faces, key=lambda f: f[2] * f[3])`: the first face of the largest area. */
  function LargestFaceIndex(faces: seq<Box>): (i: nat)
    requires |faces| > 0
    ensures i < |faces|
    ensures forall j :: 0 <= j < |faces| ==> Area(faces[j]) <= Area(faces[i])
    ensures forall j :: 0 <= j < i ==> Area(faces[j]) < Area(faces[i])
  {
    var areas := seq(|faces|, j requires 0 <= j < |faces| => Area(faces[j]) as real);
    var i := ArgMaxFirst(areas);
    assert forall j :: 0 <= j < |faces| ==> areas[j] == Area(faces[j]) as real;
    i
  }

  /** What one photo (at position `pos` of the upload list) contributes: the encoding of its largest face, if any. */
  function FileEmbedding(file: ImageFile, pos: nat, encode: (nat, Box) -> Option<Vector>): Option<Vector>
  {
    match file
    case Missing => None
    case Unreadable => None
    case Loaded(faces) => if faces == [] then None else encode(pos, faces[LargestFaceIndex(faces)])
  }

  /** The embeddings the enrolment loop collects, in upload order. */
  function CollectEmbeddings(files: seq<ImageFile>, encode: (nat, Box) -> Option<Vector>): (r: seq<Vector>)
    ensures |r| <= |files|
  {
    if files == [] then []
    else
      var n := |files| - 1;
      CollectEmbeddings(files[..n], encode) + (match FileEmbedding(files[n], n, encode) case None => [] case Some(e) => [e])
  }

  /** Photo `i` yields embedding `e`. */
  predicate ComesFrom(e: Vector, files: seq<ImageFile>, encode: (nat, Box) -> Option<Vector>, i: nat)
  {
    i < |files| && FileEmbedding(files[i], i, encode) == Some(e)
  }

  /** Each collected embedding is the encoding of some photo's largest face. */
  lemma {:induction false} CollectedComeFromFiles(files: seq<ImageFile>, encode: (nat, Box) -> Option<Vector>, j: nat)
    requires j < |CollectEmbeddings(files, encode)|
    ensures exists i :: ComesFrom(CollectEmbeddings(files, encode)[j], files, encode, i)
  {
    var n := |files| - 1;
    var prefix := files[..n];
    var rest := CollectEmbeddings(prefix, encode);
    var r := CollectEmbeddings(files, encode);
    if j < |rest| {
      assert r[j] == rest[j];
      CollectedComeFromFiles(prefix, encode, j);
      var i: nat :| ComesFrom(rest[j], prefix, encode, i);
      assert prefix[i] == files[i];
      assert ComesFrom(r[j], files, encode, i);
    } else {
      assert ComesFrom(r[j], files, encode, n);
    }
  }

  /**
   * Every photo that yields an embedding contributes it; so missing, unreadable
   * and faceless photos are the only ones that contribute nothing.
   */
  lemma {:induction false} UsableFilesAreCollected(files: seq<ImageFile>, encode: (nat, Box) -> Option<Vector>, i: nat)
    requires i < |files| && FileEmbedding(files[i], i, encode).Some?
    ensures FileEmbedding(files[i], i, encode).value in CollectEmbeddings(files, encode)
  {
    var n := |files| - 1;
    var prefix := files[..n];
    var rest := CollectEmbeddings(prefix, encode);
    var e := FileEmbedding(files[i], i, encode).value;
    var tail := match FileEmbedding(files[n], n, encode) case None => [] case Some(x) => [x];
    assert CollectEmbeddings(files, encode) == rest + tail;
    if i < n {
      assert e in rest by {
        assert prefix[i] == files[i];
        UsableFilesAreCollected(prefix, encode, i);
      }
    } else {
      assert tail == [e];
    }
  }

  /** `np.mean(embeddings, axis=0)` for several embeddings, the embedding itself for one; never re-normalised. */
  function StoredEmbedding(embs: seq<Vector>): (v: Vector)
    requires |embs| > 0 && SameDim(embs, |embs[0]|)
    ensures |v| == |embs[0]|
  {
    if |embs| > 1 then Mean(embs, |embs[0]|) else embs[0]
  }

  /**
   * Enrolling the same encoding from `k` photos stores that encoding unchanged:
   * the average is not re-normalised, so a non-unit encoding stays non-unit.
   */
  lemma StoredEmbeddingOfCopies(v: Vector, k: nat)
    requires k > 0
    ensures SameDim(seq(k, j => v), |v|)
    ensures StoredEmbedding(seq(k, j => v)) == v
  {
    MeanOfCopies(v, k);
  }

  datatype RegisterError = StudentNotFound | NoValidEmbeddings | MixedDimensions

  /** The outcome of `register_student_faces`: the count reported and the embedding stored. */
  datatype Registration = Registered(processed: nat, stored: Vector) | NotRegistered(error: RegisterError)

  /**
   * `register_student_faces`: an unknown student and an upload without a usable
   * photo are refused; encodings of different lengths make `np.mean` raise;
   * otherwise the average is stored and the number of usable photos reported.
   */
  function RegisterOutcome(studentExists: bool, files: seq<ImageFile>, encode: (nat, Box) -> Option<Vector>): (r: Registration)
  {
    var embs := CollectEmbeddings(files, encode);
    if !studentExists then NotRegistered(StudentNotFound)
    else if embs == [] then NotRegistered(NoValidEmbeddings)
    else if !SameDim(embs, |embs[0]|) then NotRegistered(MixedDimensions)
    else Registered(|embs|, StoredEmbedding(embs))
  }

  /**
   * A known student with at least one usable photo is refused only for mixed
   * encoding lengths; the reported count is the number of collected encodings,
   * and with a single usable photo its encoding is stored as is.
   */
  lemma RegisterOutcomeFacts(studentExists: bool, files: seq<ImageFile>, encode: (nat, Box) -> Option<Vector>, i: nat)
    requires i < |files| && FileEmbedding(files[i], i, encode).Some?
    ensures var r := RegisterOutcome(studentExists, files, encode);
      (studentExists ==> r != NotRegistered(NoValidEmbeddings) && r != NotRegistered(StudentNotFound))
      && (r.Registered? ==> r.processed == |CollectEmbeddings(files, encode)| && r.processed >= 1)
      && (r.Registered? && |CollectEmbeddings(files, encode)| == 1 ==> r.stored == FileEmbedding(files[i], i, encode).value)
  {
    UsableFilesAreCollected(files, encode, i);
  }

  // ----------------------------------------------------------------- marking

  /** A row for (student, date) exists. */
  predicate HasRow(rows: seq<AttendanceRow>, s: int, d: int)
  {
    exists i :: 0 <= i < |rows| && rows[i].studentId == s && rows[i].date == d
  }

  /** Every recognised result carries a student id, as `recognize_faces_in_image` guarantees. */
  predicate RecognizedHaveIds(results: seq<FaceEntry>)
  {
    forall j :: 0 <= j < |results| && results[j].recognized ==> results[j].studentId.Some?
  }

  function CountRecognized(results: seq<FaceEntry>): (n: nat)
    ensures n <= |results|
  {
    if results == [] then 0
    else CountRecognized(results[..|results| - 1]) + (if results[|results| - 1].recognized then 1 else 0)
  }

  /** One turn of the marking loop: the rows so far, the students marked, the students already marked. */
  function DedupStep(acc: (seq<AttendanceRow>, seq<int>, seq<int>), e: FaceEntry, today: int, now: int): (seq<AttendanceRow>, seq<int>, seq<int>)
    requires e.recognized ==> e.studentId.Some?
  {
    if !e.recognized then acc
    else
      var s := e.studentId.value;
      if HasRow(acc.0, s, today) then (acc.0, acc.1, acc.2 + [s])
      else (acc.0 + [AttendanceRow(s, today, "Present", now, Scored(e.confidence))], acc.1 + [s], acc.2)
  }

  /** The marking loop over the results in order; rows added earlier in the loop are seen by later checks. */
  function Dedup(rows: seq<AttendanceRow>, results: seq<FaceEntry>, today: int, now: int): (seq<AttendanceRow>, seq<int>, seq<int>)
    requires RecognizedHaveIds(results)
  {
    if results == [] then (rows, [], [])
    else
      var n := |results| - 1;
      DedupStep(Dedup(rows, results[..n], today, now), results[n], today, now)
  }

  /**
   * What the marking loop guarantees of its state `acc` after `results`:
   * every recognised result lands in exactly one of the two lists; one row for
   * today is appended per marked student, in order, after the old rows; every
   * recognised student has a row for today; a marked student had no row for
   * today before and is marked once; an already-marked one had a row before or
   * was marked earlier in the same call.
   */
  predicate DedupInv(rows: seq<AttendanceRow>, results: seq<FaceEntry>, today: int, acc: (seq<AttendanceRow>, seq<int>, seq<int>))
    requires RecognizedHaveIds(results)
  {
    var (after, marked, already) := acc;
    |marked| + |already| == CountRecognized(results)
    && |after| == |rows| + |marked| && after[..|rows|] == rows
    && (forall i :: |rows| <= i < |after| ==> after[i].studentId == marked[i - |rows|] && after[i].date == today)
    && (forall j :: 0 <= j < |results| && results[j].recognized ==> HasRow(after, results[j].studentId.value, today))
    && (forall s :: s in marked ==> !HasRow(rows, s, today))
    && (forall a, b :: 0 <= a < b < |marked| ==> marked[a] != marked[b])
    && (forall s :: s in already ==> HasRow(rows, s, today) || s in marked)
  }

  /** One turn of the loop keeps `DedupInv`. */
  lemma DedupStepKeeps(rows: seq<AttendanceRow>, prefix: seq<FaceEntry>, e: FaceEntry, today: int, now: int,
                       acc: (seq<AttendanceRow>, seq<int>, seq<int>))
    requires RecognizedHaveIds(prefix) && (e.recognized ==> e.studentId.Some?)
    requires DedupInv(rows, prefix, today, acc)
    ensures RecognizedHaveIds(prefix + [e])
    ensures DedupInv(rows, prefix + [e], today, DedupStep(acc, e, today, now))
  {
    var results := prefix + [e];
    assert results[..|prefix|] == prefix;
    assert forall j :: 0 <= j < |prefix| ==> results[j] == prefix[j];
    assert CountRecognized(results) == CountRecognized(prefix) + (if e.recognized then 1 else 0);
    var (after, marked, already) := acc;
    var (after', marked', already') := DedupStep(acc, e, today, now);
    if e.recognized && !HasRow(after, e.studentId.value, today) {
      var s := e.studentId.value;
      assert after' == after + [AttendanceRow(s, today, "Present", now, Scored(e.confidence))];
      assert marked' == marked + [s];
      assert after'[..|after|] == after;
      assert after'[..|rows|] == rows;
      forall j | 0 <= j < |results| && results[j].recognized
        ensures HasRow(after', results[j].studentId.value, today)
      {
        if j < |prefix| {
          var k :| 0 <= k < |after| && after[k].studentId == prefix[j].studentId.value && after[k].date == today;
          assert after'[k] == after[k];
        } else {
          assert after'[|after|].studentId == s && after'[|after|].date == today;
        }
      }
      assert !HasRow(rows, s, today) by {
        forall i | 0 <= i < |rows|
          ensures !(rows[i].studentId == s && rows[i].date == today)
        {
          assert rows[i] == after[i];
        }
      }
      forall a, b | 0 <= a < b < |marked'|
        ensures marked'[a] != marked'[b]
      {
        if b == |marked| {
          assert after[|rows| + a].studentId == marked[a] && after[|rows| + a].date == today;
          assert HasRow(after, marked[a], today);
        }
      }
    } else if e.recognized {
      var s := e.studentId.value;
      var i :| 0 <= i < |after| && after[i].studentId == s && after[i].date == today;
      if i < |rows| {
        assert rows[i] == after[i];
        assert HasRow(rows, s, today);
      } else {
        assert s == marked[i - |rows|];
      }
    }
  }

  /** The marking loop, run over all results, ends in a state satisfying `DedupInv`. */
  lemma {:induction false} DedupFacts(rows: seq<AttendanceRow>, results: seq<FaceEntry>, today: int, now: int)
    requires RecognizedHaveIds(results)
    ensures DedupInv(rows, results, today, Dedup(rows, results, today, now))
  {
    if results == [] {
      assert rows[..|rows|] == rows;
    } else {
      var n := |results| - 1;
      var prefix := results[..n];
      assert RecognizedHaveIds(prefix) by {
        forall j | 0 <= j < |prefix| && prefix[j].recognized
          ensures prefix[j].studentId.Some?
        {
          assert prefix[j] == results[j];
        }
      }
      DedupFacts(rows, prefix, today, now);
      DedupStepKeeps(rows, prefix, results[n], today, now, Dedup(rows, prefix, today, now));
      assert prefix + [results[n]] == results;
    }
  }

  /** The ids of the recognised results, in order. */
  function RecognizedIds(results: seq<FaceEntry>): (ids: seq<int>)
    requires RecognizedHaveIds(results)
    ensures |ids| == CountRecognized(results)
  {
    if results == [] then []
    else
      var n := |results| - 1;
      assert RecognizedHaveIds(results[..n]) by {
        assert forall j :: 0 <= j < n ==> results[..n][j] == results[j];
      }
      RecognizedIds(results[..n]) + (if results[n].recognized then [results[n].studentId.value] else [])
  }

  /**
   * The loop reports each recognised result once: as multisets, the marked and
   * already-marked lists together are exactly the recognised ids.
   */
  lemma {:induction false} DedupReportsEachOnce(rows: seq<AttendanceRow>, results: seq<FaceEntry>, today: int, now: int)
    requires RecognizedHaveIds(results)
    ensures var d := Dedup(rows, results, today, now);
      multiset(d.1) + multiset(d.2) == multiset(RecognizedIds(results))
  {
    if results != [] {
      var n := |results| - 1;
      var prefix := results[..n];
      assert RecognizedHaveIds(prefix) by {
        assert forall j :: 0 <= j < n ==> prefix[j] == results[j];
      }
      DedupReportsEachOnce(rows, prefix, today, now);
      var acc := Dedup(rows, prefix, today, now);
      var d := Dedup(rows, results, today, now);
      var e := results[n];
      if !e.recognized {
        assert d == acc && RecognizedIds(results) == RecognizedIds(prefix);
      } else {
        var s := e.studentId.value;
        assert RecognizedIds(results) == RecognizedIds(prefix) + [s];
        if HasRow(acc.0, s, today) {
          assert d.1 == acc.1 && d.2 == acc.2 + [s];
        } else {
          assert d.1 == acc.1 + [s] && d.2 == acc.2;
        }
      }
    }
  }

  /**
   * Every recognised result's id is reported as marked or as already marked,
   * and a student who had a row for today before the call is reported as
   * already marked.
   */
  lemma {:induction false} DedupReportsEveryResult(rows: seq<AttendanceRow>, results: seq<FaceEntry>, today: int, now: int)
    requires RecognizedHaveIds(results)
    ensures var d := Dedup(rows, results, today, now);
      forall j :: 0 <= j < |results| && results[j].recognized ==>
        results[j].studentId.value in d.1 || results[j].studentId.value in d.2
    ensures var d := Dedup(rows, results, today, now);
      forall j :: 0 <= j < |results| && results[j].recognized && HasRow(rows, results[j].studentId.value, today) ==>
        results[j].studentId.value in d.2
  {
    if results != [] {
      var n := |results| - 1;
      var prefix := results[..n];
      assert forall j :: 0 <= j < n ==> prefix[j] == results[j];
      DedupReportsEveryResult(rows, prefix, today, now);
      AddedRowsAreRecognized(rows, prefix, today, now);
      var acc := Dedup(rows, prefix, today, now);
      var d := Dedup(rows, results, today, now);
      var e := results[n];
      if !e.recognized {
        assert d == acc;
      } else {
        var s := e.studentId.value;
        assert HasRow(rows, s, today) ==> HasRow(acc.0, s, today) by {
          if HasRow(rows, s, today) {
            var i :| 0 <= i < |rows| && rows[i].studentId == s && rows[i].date == today;
            assert acc.0[i] == rows[i];
          }
        }
        if HasRow(acc.0, s, today) {
          assert d.1 == acc.1 && d.2 == acc.2 + [s];
        } else {
          assert d.1 == acc.1 + [s] && d.2 == acc.2;
        }
      }
    }
  }

  /**
   * The marking loop on a session that does not flush before a query
   * (`autoflush=False`): each `.first()` sees only the rows stored before the
   * loop, so the rows the loop adds are never found by its own checks.
   */
  function DedupUnflushed(rows: seq<AttendanceRow>, results: seq<FaceEntry>, today: int, now: int): (seq<AttendanceRow>, seq<int>, seq<int>)
    requires RecognizedHaveIds(results)
  {
    if results == [] then (rows, [], [])
    else
      var n := |results| - 1;
      var acc := DedupUnflushed(rows, results[..n], today, now);
      var e := results[n];
      if !e.recognized then acc
      else
        var s := e.studentId.value;
        if HasRow(rows, s, today) then (acc.0, acc.1, acc.2 + [s])
        else (acc.0 + [AttendanceRow(s, today, "Present", now, Scored(e.confidence))], acc.1 + [s], acc.2)
  }

  /** No student is recognised on two faces. */
  predicate DistinctRecognized(results: seq<FaceEntry>)
  {
    forall i, j :: 0 <= i < j < |results| && results[i].recognized && results[j].recognized ==>
      results[i].studentId != results[j].studentId
  }

  /** Every row after the old ones is for a student recognised on some face. */
  predicate AddedFromResults(rows: seq<AttendanceRow>, results: seq<FaceEntry>, after: seq<AttendanceRow>)
  {
    |rows| <= |after| && after[..|rows|] == rows
    && forall i :: |rows| <= i < |after| ==> RecognizedAs(results, after[i].studentId)
  }

  /** Some face of the results is recognised as student `s`. */
  predicate RecognizedAs(results: seq<FaceEntry>, s: int)
  {
    exists j :: 0 <= j < |results| && results[j].recognized && results[j].studentId == Some(s)
  }

  /** The rows the marking loop adds follow the old rows, each for a student recognised on some face. */
  lemma {:induction false} AddedRowsAreRecognized(rows: seq<AttendanceRow>, results: seq<FaceEntry>, today: int, now: int)
    requires RecognizedHaveIds(results)
    ensures AddedFromResults(rows, results, Dedup(rows, results, today, now).0)
  {
    if results == [] {
      assert rows[..|rows|] == rows;
    } else {
      var n := |results| - 1;
      var prefix := results[..n];
      AddedRowsAreRecognized(rows, prefix, today, now);
      var before := Dedup(rows, prefix, today, now).0;
      var after := Dedup(rows, results, today, now).0;
      assert after[..|before|] == before;
      forall i | |rows| <= i < |after|
        ensures RecognizedAs(results, after[i].studentId)
      {
        if i < |before| {
          assert RecognizedAs(prefix, before[i].studentId);
          var j :| 0 <= j < |prefix| && prefix[j].recognized && prefix[j].studentId == Some(before[i].studentId);
          assert results[j] == prefix[j];
        } else {
          assert results[n].recognized && results[n].studentId == Some(after[i].studentId);
        }
      }
    }
  }

  /**
   * When no student is recognised twice, flushing makes no difference: the loop
   * adds, marks and reports the same on either kind of session.
   */
  lemma {:induction false} DedupAgreesWhenDistinct(rows: seq<AttendanceRow>, results: seq<FaceEntry>, today: int, now: int)
    requires RecognizedHaveIds(results) && DistinctRecognized(results)
    ensures Dedup(rows, results, today, now) == DedupUnflushed(rows, results, today, now)
  {
    if results != [] {
      var n := |results| - 1;
      var prefix := results[..n];
      assert forall j :: 0 <= j < n ==> prefix[j] == results[j];
      DedupAgreesWhenDistinct(rows, prefix, today, now);
      var e := results[n];
      if e.recognized {
        var s := e.studentId.value;
        var after := Dedup(rows, prefix, today, now).0;
        AddedRowsAreRecognized(rows, prefix, today, now);
        assert forall i :: |rows| <= i < |after| ==> after[i].studentId != s by {
          forall i | |rows| <= i < |after|
            ensures after[i].studentId != s
          {
            assert RecognizedAs(prefix, after[i].studentId);
            var j :| 0 <= j < |prefix| && prefix[j].recognized && prefix[j].studentId == Some(after[i].studentId);
            assert results[j] == prefix[j];
          }
        }
        assert HasRow(after, s, today) == HasRow(rows, s, today) by {
          if HasRow(rows, s, today) {
            var i :| 0 <= i < |rows| && rows[i].studentId == s && rows[i].date == today;
            assert after[i] == rows[i];
          }
          if HasRow(after, s, today) {
            var i :| 0 <= i < |after| && after[i].studentId == s && after[i].date == today;
            assert i < |rows|;
            assert rows[i] == after[i];
          }
        }
      }
    }
  }

  /**
   * A student recognised on two faces with no row for today: a flushing session
   * adds one row and reports the student as marked and as already marked; a
   * non-flushing one adds two rows and marks the student twice.
   */
  lemma RepeatedStudentDependsOnFlush(rows: seq<AttendanceRow>, e1: FaceEntry, e2: FaceEntry, s: int, today: int, now: int)
    requires e1.recognized && e2.recognized && e1.studentId == Some(s) && e2.studentId == Some(s)
    requires !HasRow(rows, s, today)
    ensures RecognizedHaveIds([e1, e2])
    ensures var (after, marked, already) := Dedup(rows, [e1, e2], today, now);
      |after| == |rows| + 1 && marked == [s] && already == [s]
    ensures var (after, marked, already) := DedupUnflushed(rows, [e1, e2], today, now);
      |after| == |rows| + 2 && marked == [s, s] && already == []
  {
    var results := [e1, e2];
    var row := AttendanceRow(s, today, "Present", now, Scored(e1.confidence));
    assert results[..1] == [e1];
    assert [e1][..0] == [];
    assert Dedup(rows, [], today, now) == (rows, [], []);
    assert DedupUnflushed(rows, [], today, now) == (rows, [], []);
    var empty: seq<int> := [];
    assert empty + [s] == [s];
    assert DedupStep((rows, empty, empty), e1, today, now) == (rows + [row], [s], []);
    var one := Dedup(rows, [e1], today, now);
    assert one == DedupStep(Dedup(rows, [], today, now), e1, today, now);
    assert one == (rows + [row], [s], []);
    assert DedupUnflushed(rows, [e1], today, now) == (rows + [row], [s], []);
    assert (rows + [row])[|rows|] == row;
    assert HasRow(one.0, s, today);
  }

  datatype MarkError = ImageLoadFailed | NoFacesDetected

  /** The counts and lists `mark_attendance_from_image` reports (the student details are looked up by id). */
  datatype MarkReport = MarkReport(sessionId: nat, totalDetected: nat, totalRecognized: nat,
                                   marked: seq<int>, already: seq<int>, unrecognized: int)

  /** The results whose face was not recognised. */
  function CountUnrecognized(results: seq<FaceEntry>): (n: nat)
    ensures n + CountRecognized(results) == |results|
  {
    if results == [] then 0
    else
      var k := |results| - 1;
      CountUnrecognized(results[..k]) + (if results[k].recognized then 0 else 1)
  }

  /** The detected faces that cannot be encoded, and so produce no result. */
  function CountUnencodable(boxes: seq<Box>, encode: Box -> Option<Vector>): (n: nat)
    ensures n <= |boxes|
  {
    if boxes == [] then 0
    else
      var k := |boxes| - 1;
      CountUnencodable(boxes[..k], encode) + (if encode(boxes[k]).None? then 1 else 0)
  }

  /**
   * `unrecognized_faces` (detected faces minus recognised results) counts two
   * kinds of face: those whose entry is not recognised, and those that could
   * not be encoded and so have no entry at all. It is therefore never negative.
   */
  lemma {:induction false} UnrecognizedFacesBreakdown(index: Option<FlatIndex.Flat>, ids: seq<int>, tolerance: real,
                                                      boxes: seq<Box>, encode: Box -> Option<Vector>)
    requires index.Some? ==> FlatIndex.Wf(index.value)
    ensures var results := FaceEntries(index, ids, tolerance, boxes, encode);
      |boxes| - CountRecognized(results) == CountUnrecognized(results) + CountUnencodable(boxes, encode)
  {
    if boxes != [] {
      var n := |boxes| - 1;
      UnrecognizedFacesBreakdown(index, ids, tolerance, boxes[..n], encode);
      var rest := FaceEntries(index, ids, tolerance, boxes[..n], encode);
      match encode(boxes[n])
      case None =>
      case Some(e) =>
        var results := rest + [EntryFor(index, ids, tolerance, n, boxes[n], e)];
        assert results[..|rest|] == rest;
    }
  }

  // ----------------------------------------------------------------- override

  /** The first row for (student, date), as `.first()` returns it. */
  function FirstRowIndex(rows: seq<AttendanceRow>, s: int, d: int): (r: Option<nat>)
    ensures r.Some? ==>
      (r.value < |rows| && rows[r.value].studentId == s && rows[r.value].date == d
       && forall j :: 0 <= j < r.value ==> !(rows[j].studentId == s && rows[j].date == d))
    ensures r.None? <==> !HasRow(rows, s, d)
  {
    if rows == [] then None
    else if rows[0].studentId == s && rows[0].date == d then Some(0)
    else
      var rest := FirstRowIndex(rows[1..], s, d);
      assert HasRow(rows[1..], s, d) ==> HasRow(rows, s, d) by {
        if HasRow(rows[1..], s, d) {
          var i :| 0 <= i < |rows[1..]| && rows[1..][i].studentId == s && rows[1..][i].date == d;
          assert rows[i + 1] == rows[1..][i];
        }
      }
      assert HasRow(rows, s, d) ==> HasRow(rows[1..], s, d) by {
        if HasRow(rows, s, d) {
          var i :| 0 <= i < |rows| && rows[i].studentId == s && rows[i].date == d;
          assert rows[1..][i - 1] == rows[i];
        }
      }
      if rest.None? then None else Some(rest.value + 1)
  }

  /** The status the first row for (student, date) holds, if there is one. */
  function StatusOn(rows: seq<AttendanceRow>, s: int, d: int): Option<string>
  {
    match FirstRowIndex(rows, s, d)
    case None => None
    case Some(i) => Some(rows[i].status)
  }

  /** `override_attendance`: update the first row's status and time, or add a manual row. */
  function OverrideRows(rows: seq<AttendanceRow>, s: int, d: int, status: string, now: int): seq<AttendanceRow>
  {
    match FirstRowIndex(rows, s, d)
    case Some(i) => rows[i := rows[i].(status := status, markedAt := now)]
    case None => rows + [AttendanceRow(s, d, status, now, Manual)]
  }

  /**
   * After an override the (student, date) status reads back as the new one,
   * and every other (student, date) reads as before.
   */
  lemma OverrideThenLookup(rows: seq<AttendanceRow>, s: int, d: int, status: string, now: int, s': int, d': int)
    ensures StatusOn(OverrideRows(rows, s, d, status, now), s, d) == Some(status)
    ensures (s', d') != (s, d) ==> StatusOn(OverrideRows(rows, s, d, status, now), s', d') == StatusOn(rows, s', d')
  {
    var after := OverrideRows(rows, s, d, status, now);
    var first := FirstRowIndex(rows, s, d);
    FirstRowUnderOverride(rows, s, d, status, now, s, d);
    if (s', d') != (s, d) {
      FirstRowUnderOverride(rows, s, d, status, now, s', d');
    }
  }

  /** Where the first row of each key sits after an override. */
  lemma FirstRowUnderOverride(rows: seq<AttendanceRow>, s: int, d: int, status: string, now: int, s': int, d': int)
    ensures var after := OverrideRows(rows, s, d, status, now);
      var before := FirstRowIndex(rows, s', d');
      var first := FirstRowIndex(after, s', d');
      ((s', d') == (s, d) ==> first.Some? && after[first.value].status == status)
      && ((s', d') != (s, d) ==> first == before && (before.Some? ==> after[before.value] == rows[before.value]))
  {
    var after := OverrideRows(rows, s, d, status, now);
    var target := FirstRowIndex(rows, s, d);
    var first := FirstRowIndex(after, s', d');
    var before := FirstRowIndex(rows, s', d');
    assert |after| >= |rows|;
    assert forall j :: 0 <= j < |rows| ==> after[j].studentId == rows[j].studentId && after[j].date == rows[j].date;
    assert forall j :: 0 <= j < |rows| && (target.None? || j != target.value) ==> after[j] == rows[j];
    if (s', d') == (s, d) {
      if target.Some? {
        assert after[target.value].studentId == s && after[target.value].date == d;
        assert HasRow(after, s, d);
        assert first == target;
      } else {
        assert after[|rows|].studentId == s && after[|rows|].date == d;
        assert HasRow(after, s, d);
        assert first.value == |rows|;
      }
    } else {
      if before.Some? {
        assert after[before.value].studentId == s' && after[before.value].date == d';
        assert HasRow(after, s', d');
        assert first == before;
      } else {
        forall i | 0 <= i < |after|
          ensures !(after[i].studentId == s' && after[i].date == d')
        {
          if i < |rows| {
            assert !(rows[i].studentId == s' && rows[i].date == d');
          }
        }
        assert !HasRow(after, s', d');
      }
    }
  }

  datatype OverrideOutcome = Updated | Created

  class AttendanceService {
    const recognizer: FaceRecognitionService

    constructor (recognizer: FaceRecognitionService)
      ensures this.recognizer == recognizer
    {
      this.recognizer := recognizer;
    }

    /**
     * `register_student_faces`: the outcome is `RegisterOutcome`; on success the
     * average goes to the recogniser through `add_student_embedding` (which
     * itself swallows a dimension mismatch) and onto the student's row.
     */
    method RegisterStudentFaces(studentId: int, files: seq<ImageFile>, encode: (nat, Box) -> Option<Vector>, db: Database)
      returns (r: Registration)
      requires recognizer.Valid()
      modifies recognizer, db
      ensures r == RegisterOutcome(studentId in db.students, files, encode)
      ensures r.NotRegistered? ==> unchanged(recognizer) && unchanged(db)
      ensures r.Registered? ==>
        db.studentEmbeddings == old(db.studentEmbeddings)[studentId := r.stored]
        && db.attendance == old(db.attendance) && db.sessions == old(db.sessions)
        && recognizer.Valid()
        && (old(recognizer.Aligned()) ==> recognizer.Aligned())
        && var base := if old(recognizer.index).None? then FlatIndex.Empty(EmbeddingDim) else old(recognizer.index).value;
           var baseIds := if old(recognizer.index).None? then [] else old(recognizer.studentIds);
           |r.stored| == base.d ==>
             recognizer.index == Some(FlatIndex.Add(base, r.stored)) && recognizer.studentIds == baseIds + [studentId]
      ensures r.Registered? ==>
        var base := if old(recognizer.index).None? then FlatIndex.Empty(EmbeddingDim) else old(recognizer.index).value;
        var baseIds := if old(recognizer.index).None? then [] else old(recognizer.studentIds);
        |r.stored| != base.d ==>
          recognizer.index == Some(base) && recognizer.studentIds == baseIds && recognizer.disk == old(recognizer.disk)
    {
      if studentId !in db.students {
        return NotRegistered(StudentNotFound);
      }
      var embeddings, processed := CollectFaces(files, encode);
      if embeddings == [] {
        return NotRegistered(NoValidEmbeddings);
      }
      if !SameDim(embeddings, |embeddings[0]|) {
        return NotRegistered(MixedDimensions);
      }
      var avg := if |embeddings| > 1 then Mean(embeddings, |embeddings[0]|) else embeddings[0];
      recognizer.AddStudentEmbedding(studentId, avg);
      db.studentEmbeddings := db.studentEmbeddings[studentId := avg];
      r := Registered(processed, avg);
    }

    /**
     * The photo loop of `register_student_faces`: skip missing, unreadable and
     * faceless photos, encode the largest face of the others, and count the
     * encodings obtained.
     */
    method CollectFaces(files: seq<ImageFile>, encode: (nat, Box) -> Option<Vector>)
      returns (embeddings: seq<Vector>, processed: nat)
      ensures embeddings == CollectEmbeddings(files, encode)
      ensures processed == |embeddings|
    {
      embeddings, processed := [], 0;
      for i := 0 to |files|
        invariant embeddings == CollectEmbeddings(files[..i], encode)
        invariant processed == |embeddings|
      {
        assert files[..i + 1][..i] == files[..i];
        var file := files[i];
        if file.Missing? || file.Unreadable? {
          continue;
        }
        if file.faces == [] {
          continue;
        }
        var largest := file.faces[LargestFaceIndex(file.faces)];
        var e := encode(i, largest);
        if e.Some? {
          embeddings := embeddings + [e.value];
          processed := processed + 1;
        }
      }
      assert files[..|files|] == files;
    }

    /**
     * `mark_attendance_from_image`: an unreadable photo or one without faces is
     * refused before anything is written; otherwise a session row is added and
     * the recognised students are marked for today, once per day.
     */
    method MarkAttendanceFromImage(image: ImageFile, encode: Box -> Option<Vector>, className: Option<string>,
                                   teacherName: Option<string>, imagePath: string, today: int, now: int, db: Database)
      returns (r: Result<MarkReport, MarkError>)
      requires recognizer.Valid()
      modifies db
      ensures !image.Loaded? ==> r == Failure(ImageLoadFailed) && unchanged(db)
      ensures image.Loaded? && image.faces == [] ==> r == Failure(NoFacesDetected) && unchanged(db)
      ensures image.Loaded? && image.faces != [] ==>
        var results := FaceEntries(recognizer.index, recognizer.studentIds, recognizer.tolerance, image.faces, encode);
        var recognized := CountRecognized(results);
        var outcome := Dedup(old(db.attendance), results, today, now);
        r == Success(MarkReport(|old(db.sessions)| + 1, |image.faces|, recognized, outcome.1, outcome.2,
                                |image.faces| - recognized))
        && db.attendance == outcome.0
        && db.sessions == old(db.sessions) + [SessionRow(today, className, teacherName, imagePath, |image.faces|, recognized)]
        && db.studentEmbeddings == old(db.studentEmbeddings)
    {
      if !image.Loaded? {
        return Failure(ImageLoadFailed);
      }
      var faces := image.faces;
      if faces == [] {
        return Failure(NoFacesDetected);
      }
      var results := recognizer.RecognizeFacesInImage(faces, encode);
      var report := RecordSession(results, |faces|, className, teacherName, imagePath, today, now, db);
      r := Success(report);
    }

    /**
     * The writes of `mark_attendance_from_image` once the faces are recognised:
     * the session row, then the marking loop.
     */
    method RecordSession(results: seq<FaceEntry>, detected: nat, className: Option<string>, teacherName: Option<string>,
                         imagePath: string, today: int, now: int, db: Database)
      returns (report: MarkReport)
      requires RecognizedHaveIds(results)
      modifies db`sessions, db`attendance
      ensures var recognized := CountRecognized(results);
        var outcome := Dedup(old(db.attendance), results, today, now);
        report == MarkReport(|old(db.sessions)| + 1, detected, recognized, outcome.1, outcome.2, detected - recognized)
        && db.attendance == outcome.0
        && db.sessions == old(db.sessions) + [SessionRow(today, className, teacherName, imagePath, detected, recognized)]
    {
      var recognized := CountRecognized(results);
      db.sessions := db.sessions + [SessionRow(today, className, teacherName, imagePath, detected, recognized)];
      var sessionId := |db.sessions|;
      var marked, already := MarkRecognized(results, today, now, db);
      report := MarkReport(sessionId, detected, recognized, marked, already, detected - recognized);
    }

    /**
     * The marking loop of `mark_attendance_from_image`: each recognised student
     * without a row for today gets a "Present" row, the others are reported as
     * already marked.
     */
    method MarkRecognized(results: seq<FaceEntry>, today: int, now: int, db: Database)
      returns (marked: seq<int>, already: seq<int>)
      requires RecognizedHaveIds(results)
      modifies db`attendance
      ensures (db.attendance, marked, already) == Dedup(old(db.attendance), results, today, now)
    {
      marked, already := [], [];
      ghost var rows0 := db.attendance;
      for i := 0 to |results|
        invariant RecognizedHaveIds(results[..i])
        invariant (db.attendance, marked, already) == Dedup(rows0, results[..i], today, now)
      {
        assert results[..i + 1][..i] == results[..i];
        var result := results[i];
        if result.recognized {
          var studentId := result.studentId.value;
          if HasRow(db.attendance, studentId, today) {
            already := already + [studentId];
            continue;
          }
          db.attendance := db.attendance + [AttendanceRow(studentId, today, "Present", now, Scored(result.confidence))];
          marked := marked + [studentId];
        }
      }
      assert results[..|results|] == results;
    }

    /** `override_attendance`: the first (student, date) row gets the new status and time, or a manual row is added. */
    method OverrideAttendance(studentId: int, date: int, status: string, now: int, db: Database) returns (r: OverrideOutcome)
      modifies db`attendance
      ensures db.attendance == OverrideRows(old(db.attendance), studentId, date, status, now)
      ensures r == (if HasRow(old(db.attendance), studentId, date) then Updated else Created)
    {
      var first := FirstRowIndex(db.attendance, studentId, date);
      if first.Some? {
        var i := first.value;
        db.attendance := db.attendance[i := db.attendance[i].(status := status, markedAt := now)];
        r := Updated;
      } else {
        db.attendance := db.attendance + [AttendanceRow(studentId, date, status, now, Manual)];
        r := Created;
      }
    }
  }
}
