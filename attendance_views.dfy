/**
 * The Django attendance views (`AttendanceSessionViewSet`): which sessions a
 * user sees, starting and ending a session, and the record upserts behind
 * `mark_attendance`, `recognize`, `recognize_multi` and `recognize_frame`.
 *
 * The `AttendanceRecord` table is a map keyed by (session id, student id), which
 * is what `unique_together` and `get_or_create` guarantee; the `Student` table is
 * the set of existing student ids. The AI service's reply is a parameter, the
 * clock is a parameter, and serialisation of the response bodies is left out.
 */
module AttendanceViews {
  import opened Wrappers
  import opened Numeric

  const HttpOk: nat := 200
  const HttpCreated: nat := 201
  const HttpBadRequest: nat := 400
  const HttpNotFound: nat := 404
  const HttpBadGateway: nat := 502
  const HttpServiceUnavailable: nat := 503

  /** The model's default status. */
  const Present: string := "present"

  // ------------------------------------------------------------------ sessions

  /** The parts of a session the queryset filter looks at. */
  datatype SessionInfo = SessionInfo(id: nat, department: string)

  /** The requesting user: anonymous, or logged in with or without a teacher profile. */
  datatype User = Anonymous | Authenticated(teacherDepartment: Option<string>, isSuperuser: bool)

  /** `queryset.filter(department=d)`, keeping the queryset's order. */
  function InDepartment(all: seq<SessionInfo>, d: string): (r: seq<SessionInfo>)
    ensures forall s :: s in r <==> s in all && s.department == d
    ensures |r| <= |all|
  {
    if all == [] then []
    else (if all[0].department == d then [all[0]] else []) + InDepartment(all[1..], d)
  }

  /**
   * `get_queryset`: a teacher sees their department's sessions (even when also a
   * superuser), another logged-in user sees everything only as a superuser, and
   * an anonymous request is not filtered at all.
   */
  function VisibleSessions(all: seq<SessionInfo>, user: User): (r: seq<SessionInfo>)
    ensures user.Anonymous? ==> r == all
    ensures user.Authenticated? && user.teacherDepartment.Some? ==>
      forall s :: s in r <==> s in all && s.department == user.teacherDepartment.value
    ensures user.Authenticated? && user.teacherDepartment.None? ==> r == (if user.isSuperuser then all else [])
  {
    match user
    case Anonymous => all
    case Authenticated(Some(d), _) => InDepartment(all, d)
    case Authenticated(None, superuser) => if superuser then all else []
  }

  /** A teacher never sees another department's session. */
  lemma TeacherSeesOnlyOwnDepartment(all: seq<SessionInfo>, d: string, superuser: bool, s: SessionInfo)
    requires s in VisibleSessions(all, Authenticated(Some(d), superuser))
    ensures s.department == d && s in all
  {
  }

  /** A row of `AttendanceSession` whose activity flag and times the views update in place. */
  class AttendanceSession {
    const id: nat
    const department: string
    var isActive: bool
    var startTime: int
    var endTime: Option<int>

    /** A new session is active, started now, not ended. */
    constructor (id: nat, department: string, now: int)
      ensures this.id == id && this.department == department
      ensures isActive && startTime == now && endTime == None
    {
      this.id := id;
      this.department := department;
      isActive := true;
      startTime := now;
      endTime := None;
    }

    /** `end_session`: inactive, ended now; the start time stays. */
    method EndSession(now: int)
      modifies this
      ensures !isActive && endTime == Some(now) && startTime == old(startTime)
    {
      isActive := false;
      endTime := Some(now);
    }

    /** `start_session`: active again, restarted now, the end time cleared. */
    method StartSession(now: int)
      modifies this
      ensures isActive && startTime == now && endTime == None
    {
      isActive := true;
      startTime := now;
      endTime := None;
    }
  }

  // ------------------------------------------------------------------- records

  type Key = (nat, nat)

  datatype Record = Record(confidence: real, status: string)

  /** Nothing was removed and no confidence went down. */
  predicate Grows(before: map<Key, Record>, after: map<Key, Record>)
  {
    forall k :: k in before ==> k in after && after[k].confidence >= before[k].confidence
  }

  /** Only `key` may have changed. */
  predicate OnlyTouches(before: map<Key, Record>, after: map<Key, Record>, key: Key)
  {
    (forall k :: k in after && k != key ==> k in before && after[k] == before[k])
    && (forall k :: k in before && k != key ==> k in after)
  }

  /**
   * `get_or_create` with `defaults={'confidence': c}` (and the given status for
   * a new row), then on an existing row `confidence = max(old, c)` and, when
   * `setPresent`, `status = 'present'`.
   */
  function MergeMax(records: map<Key, Record>, key: Key, c: real, setPresent: bool): (r: map<Key, Record>)
  {
    if key in records then
      var prev := records[key];
      records[key := Record(Max(prev.confidence, c), if setPresent then Present else prev.status)]
    else records[key := Record(c, Present)]
  }

  /** The merge keeps every record and never lowers a confidence; the key ends up with at least `c`. */
  lemma MergeMaxMonotone(records: map<Key, Record>, key: Key, c: real, setPresent: bool)
    ensures Grows(records, MergeMax(records, key, c, setPresent))
    ensures OnlyTouches(records, MergeMax(records, key, c, setPresent), key)
    ensures key in MergeMax(records, key, c, setPresent)
    ensures MergeMax(records, key, c, setPresent)[key].confidence >= c
    ensures key in records ==> MergeMax(records, key, c, setPresent)[key].confidence
                                 == Max(records[key].confidence, c)
  {
  }

  /** Marking twice with the same confidence is the same as marking once. */
  lemma MergeMaxIdempotent(records: map<Key, Record>, key: Key, c: real, setPresent: bool)
    ensures var once := MergeMax(records, key, c, setPresent);
      MergeMax(once, key, c, setPresent) == once
  {
    var once := MergeMax(records, key, c, setPresent);
    assert once[key].confidence >= c;
  }

  /** `mark_attendance`: 404 for an unknown student, otherwise 201 for a new record and 200 for an update. */
  function MarkOutcome(records: map<Key, Record>, session: nat, studentId: Option<nat>, students: set<nat>,
                       confidence: real): (r: (nat, map<Key, Record>))
    ensures studentId.None? || studentId.value !in students ==> r == (HttpNotFound, records)
    ensures studentId.Some? && studentId.value in students ==>
      r.0 == (if (session, studentId.value) in records then HttpOk else HttpCreated)
      && r.1 == MergeMax(records, (session, studentId.value), confidence, false)
  {
    if studentId.None? || studentId.value !in students then (HttpNotFound, records)
    else
      var key := (session, studentId.value);
      (if key in records then HttpOk else HttpCreated, MergeMax(records, key, confidence, false))
  }

  /**
   * `mark_attendance` keeps every record and never lowers a confidence; the
   * status stays what it was on an existing record.
   */
  lemma MarkNeverLowers(records: map<Key, Record>, session: nat, studentId: Option<nat>, students: set<nat>,
                        confidence: real)
    ensures var (status, after) := MarkOutcome(records, session, studentId, students, confidence);
      Grows(records, after)
      && (status == HttpOk || status == HttpCreated || status == HttpNotFound)
      && (status == HttpNotFound <==> studentId.None? || studentId.value !in students)
      && (forall k :: k in records ==> after[k].status == records[k].status)
  {
    if studentId.Some? {
      MergeMaxMonotone(records, (session, studentId.value), confidence, false);
    }
  }

  /** What the AI service answered to a single- or multi-frame recognition request. */
  datatype AiReply =
    | Unreachable
    | Reply(httpStatus: int, recognized: bool, studentId: Option<nat>, confidence: real)

  /**
   * `recognize` / `recognize_multi`: 400 for an inactive session or a missing
   * upload, 503 when the AI service cannot be reached, 502 on a non-200 reply,
   * 200 without a change when nothing was recognised, 404 for an unknown
   * student, and otherwise the upsert with status 'present' (201 new, 200 updated).
   */
  function RecognizeOutcome(records: map<Key, Record>, session: nat, isActive: bool, hasUpload: bool,
                            reply: AiReply, students: set<nat>): (nat, map<Key, Record>)
  {
    if !isActive || !hasUpload then (HttpBadRequest, records)
    else if reply.Unreachable? then (HttpServiceUnavailable, records)
    else if reply.httpStatus != 200 then (HttpBadGateway, records)
    else if !reply.recognized then (HttpOk, records)
    else if reply.studentId.None? || reply.studentId.value !in students then (HttpNotFound, records)
    else
      var key := (session, reply.studentId.value);
      (if key in records then HttpOk else HttpCreated, MergeMax(records, key, reply.confidence, true))
  }

  /** Any outcome other than 200/201 leaves the table as it was; a 400 comes from an inactive session or a missing upload. */
  lemma RecognizeChangesOnlyOnSuccess(records: map<Key, Record>, session: nat, isActive: bool, hasUpload: bool,
                                      reply: AiReply, students: set<nat>)
    ensures var (status, after) := RecognizeOutcome(records, session, isActive, hasUpload, reply, students);
      (status != HttpOk && status != HttpCreated ==> after == records)
      && (!isActive ==> status == HttpBadRequest && after == records)
      && (reply.Reply? && !reply.recognized ==> after == records)
      && Grows(records, after)
  {
    var (status, after) := RecognizeOutcome(records, session, isActive, hasUpload, reply, students);
    if reply.Reply? && reply.studentId.Some? {
      MergeMaxMonotone(records, (session, reply.studentId.value), reply.confidence, true);
    }
  }

  /** A recognised, known student ends up present in the session with at least the reported confidence. */
  lemma RecognizeMarksPresent(records: map<Key, Record>, session: nat, reply: AiReply, students: set<nat>)
    requires reply.Reply? && reply.httpStatus == 200 && reply.recognized
    requires reply.studentId.Some? && reply.studentId.value in students
    ensures var (status, after) := RecognizeOutcome(records, session, true, true, reply, students);
      var key := (session, reply.studentId.value);
      (status == HttpCreated <==> key !in records)
      && key in after && after[key].status == Present && after[key].confidence >= reply.confidence
  {
    MergeMaxMonotone(records, (session, reply.studentId.value), reply.confidence, true);
  }

  // -------------------------------------------------------- recognize_frame

  /** One face in the AI service's `recognize_frame` reply. */
  datatype AiFace = AiFace(bbox: Option<seq<int>>, recognized: bool, studentId: Option<int>,
                           similarity: Option<real>, confidence: Option<real>)

  /** One face in the view's reply. */
  datatype FrameEntry = FrameEntry(bbox: Option<seq<int>>, recognized: bool, student: Option<nat>,
                                   similarity: Option<real>, confidence: Option<real>)

  datatype FrameReply = FrameUnreachable | FrameReply(httpStatus: int, faces: seq<AiFace>)

  /** `f.get('recognized') and f.get('student_id')` and the student exists (an id of 0 is falsy). */
  predicate Marks(f: AiFace, students: set<nat>)
  {
    f.recognized && f.studentId.Some? && f.studentId.value != 0
    && f.studentId.value >= 0 && f.studentId.value as nat in students
  }

  /** `float(f.get('similarity') or 0.0)`. */
  function StoredSimilarity(f: AiFace): real
  {
    if f.similarity.Some? then f.similarity.value else 0.0
  }

  /** The entry the view reports for one face. */
  function EntryFor(f: AiFace, students: set<nat>): (e: FrameEntry)
    ensures e.recognized <==> Marks(f, students)
    ensures e.recognized ==> e.student == Some(f.studentId.value as nat)
    ensures !e.recognized ==> e.student == None
    ensures e.bbox == f.bbox && e.similarity == f.similarity && e.confidence == f.confidence
  {
    if Marks(f, students) then FrameEntry(f.bbox, true, Some(f.studentId.value as nat), f.similarity, f.confidence)
    else FrameEntry(f.bbox, false, None, f.similarity, f.confidence)
  }

  /**
   * The record update for one face: create with the raw similarity, or on an
   * existing record raise the confidence only when strictly greater, and set
   * the status to 'present'.
   */
  function FrameUpsert(records: map<Key, Record>, session: nat, f: AiFace, students: set<nat>): (r: map<Key, Record>)
  {
    if !Marks(f, students) then records
    else
      var key := (session, f.studentId.value as nat);
      var sim := StoredSimilarity(f);
      if key !in records then records[key := Record(sim, Present)]
      else if sim > records[key].confidence then records[key := Record(sim, Present)]
      else records[key := Record(records[key].confidence, Present)]
  }

  /** The record updates for the faces in order. */
  function FrameRecords(records: map<Key, Record>, session: nat, faces: seq<AiFace>, students: set<nat>): map<Key, Record>
  {
    if faces == [] then records
    else FrameUpsert(FrameRecords(records, session, faces[..|faces| - 1], students), session, faces[|faces| - 1], students)
  }

  /** One face's update keeps every record, lowers no confidence, and touches only this session. */
  lemma FrameUpsertGrows(records: map<Key, Record>, session: nat, f: AiFace, students: set<nat>)
    ensures var after := FrameUpsert(records, session, f, students);
      Grows(records, after)
      && (forall k :: k in after && k.0 != session ==> k in records && after[k] == records[k])
      && (forall k :: k in records && k in after && records[k].status == Present ==> after[k].status == Present)
      && (Marks(f, students) ==>
            ((session, f.studentId.value as nat) in after
             && after[(session, f.studentId.value as nat)].status == Present
             && after[(session, f.studentId.value as nat)].confidence >= StoredSimilarity(f)))
  {
  }

  /**
   * After a frame, every face the view reports as recognised has a 'present'
   * record in this session, no record was lost or lowered, and other sessions
   * are untouched.
   */
  lemma {:induction false} FrameRecordsMarkAll(records: map<Key, Record>, session: nat, faces: seq<AiFace>, students: set<nat>)
    ensures var after := FrameRecords(records, session, faces, students);
      Grows(records, after)
      && (forall k :: k in after && k.0 != session ==> k in records && after[k] == records[k])
      && (forall i :: 0 <= i < |faces| && Marks(faces[i], students) ==>
            (session, faces[i].studentId.value as nat) in after
            && after[(session, faces[i].studentId.value as nat)].status == Present)
  {
    if faces != [] {
      var n := |faces| - 1;
      var mid := FrameRecords(records, session, faces[..n], students);
      FrameRecordsMarkAll(records, session, faces[..n], students);
      FrameUpsertGrows(mid, session, faces[n], students);
      var after := FrameRecords(records, session, faces, students);
      forall i | 0 <= i < |faces| && Marks(faces[i], students)
        ensures (session, faces[i].studentId.value as nat) in after
        ensures after[(session, faces[i].studentId.value as nat)].status == Present
      {
        if i < n {
          assert faces[..n][i] == faces[i];
        }
      }
    }
  }

  /** The view's store: the record table, which the endpoints update. */
  class AttendanceStore {
    var records: map<Key, Record>

    constructor (records: map<Key, Record>)
      ensures this.records == records
    {
      this.records := records;
    }

    /** `mark_attendance`. */
    method MarkAttendance(session: AttendanceSession, studentId: Option<nat>, students: set<nat>, confidence: real)
      returns (status: nat)
      modifies this
      ensures (status, records) == MarkOutcome(old(records), session.id, studentId, students, confidence)
    {
      if studentId.None? || studentId.value !in students {
        return HttpNotFound;
      }
      var key := (session.id, studentId.value);
      if key in records {
        var rec := records[key];
        records := records[key := Record(Max(rec.confidence, confidence), rec.status)];
        status := HttpOk;
      } else {
        records := records[key := Record(confidence, Present)];
        status := HttpCreated;
      }
    }

    /** `recognize`: one uploaded `face_image`. */
    method Recognize(session: AttendanceSession, hasUpload: bool, reply: AiReply, students: set<nat>)
      returns (status: nat)
      modifies this
      ensures (status, records) == RecognizeOutcome(old(records), session.id, session.isActive, hasUpload, reply, students)
    {
      if !session.isActive {
        return HttpBadRequest;
      }
      if !hasUpload {
        return HttpBadRequest;
      }
      if reply.Unreachable? {
        return HttpServiceUnavailable;
      }
      if reply.httpStatus != 200 {
        return HttpBadGateway;
      }
      if !reply.recognized {
        return HttpOk;
      }
      if reply.studentId.None? || reply.studentId.value !in students {
        return HttpNotFound;
      }
      var key := (session.id, reply.studentId.value);
      if key in records {
        var rec := records[key];
        records := records[key := Record(Max(rec.confidence, reply.confidence), Present)];
        status := HttpOk;
      } else {
        records := records[key := Record(reply.confidence, Present)];
        status := HttpCreated;
      }
    }

    /** `recognize_multi`: the same handling for a list of uploaded frames. */
    method RecognizeMulti(session: AttendanceSession, uploads: nat, reply: AiReply, students: set<nat>)
      returns (status: nat)
      modifies this
      ensures (status, records) == RecognizeOutcome(old(records), session.id, session.isActive, uploads > 0, reply, students)
    {
      status := Recognize(session, uploads > 0, reply, students);
    }

    /**
     * `recognize_frame`: 400 for an inactive session or a missing frame, 503/502
     * for the AI service, otherwise one entry per face in order, with the record
     * updates for the recognised ones.
     */
    method RecognizeFrame(session: AttendanceSession, hasFrame: bool, reply: FrameReply, students: set<nat>)
      returns (status: nat, entries: seq<FrameEntry>)
      modifies this
      ensures !session.isActive || !hasFrame ==> status == HttpBadRequest && entries == [] && records == old(records)
      ensures session.isActive && hasFrame && reply.FrameUnreachable? ==>
        status == HttpServiceUnavailable && entries == [] && records == old(records)
      ensures session.isActive && hasFrame && reply.FrameReply? && reply.httpStatus != 200 ==>
        status == HttpBadGateway && entries == [] && records == old(records)
      ensures session.isActive && hasFrame && reply.FrameReply? && reply.httpStatus == 200 ==>
        status == HttpOk
        && |entries| == |reply.faces|
        && (forall i :: 0 <= i < |entries| ==> entries[i] == EntryFor(reply.faces[i], students))
        && records == FrameRecords(old(records), session.id, reply.faces, students)
    {
      entries := [];
      if !session.isActive || !hasFrame {
        return HttpBadRequest, [];
      }
      if reply.FrameUnreachable? {
        return HttpServiceUnavailable, [];
      }
      if reply.httpStatus != 200 {
        return HttpBadGateway, [];
      }
      var faces := reply.faces;
      for i := 0 to |faces|
        invariant |entries| == i
        invariant forall j :: 0 <= j < i ==> entries[j] == EntryFor(faces[j], students)
        invariant records == FrameRecords(old(records), session.id, faces[..i], students)
      {
        assert faces[..i + 1][..i] == faces[..i];
        var f := faces[i];
        if f.recognized && f.studentId.Some? && f.studentId.value != 0 {
          if f.studentId.value >= 0 && f.studentId.value as nat in students {
            var key := (session.id, f.studentId.value as nat);
            var similarity := if f.similarity.Some? then f.similarity.value else 0.0;
            if key !in records {
              records := records[key := Record(similarity, Present)];
            } else {
              var confidence := records[key].confidence;
              if similarity > confidence {
                confidence := similarity;
              }
              records := records[key := Record(confidence, Present)];
            }
            entries := entries + [FrameEntry(f.bbox, true, Some(f.studentId.value as nat), f.similarity, f.confidence)];
          } else {
            entries := entries + [FrameEntry(f.bbox, false, None, f.similarity, f.confidence)];
          }
        } else {
          entries := entries + [FrameEntry(f.bbox, false, None, f.similarity, f.confidence)];
        }
      }
      assert faces[..|faces|] == faces;
      status := HttpOk;
    }
  }
}
