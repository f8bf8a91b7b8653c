/**
 * The request handlers of core/views.py that carry the portal's logic: the
 * login branch, the three face-capture flows, the dashboard progress, and
 * the two record updates. Each handler returns the response it sends; the
 * student records are objects held by one Database, and a handler changes
 * at most the one record it looks up.
 */
module Views {
  import opened Wrappers
  import opened Models
  import opened Capture
  import opened Sessions

  /** The one-shot messages a handler queues for the next page. */
  datatype Flash =
    | InvalidEnrollmentNumber   // "Invalid Enrollment Number"
    | InvalidCredentials        // "Invalid credentials"
    | WelcomeBack(user: UserId) // "Welcome back, <username>!" for that user
    | FaceNotRecognized         // "Face not recognized."
    | BiometricsSaved           // "Biometrics saved! Welcome to the Academy."
    | FaceNotRegistered         // "Face not registered."
    | VerificationFailed        // "Verification Failed."
    | RecordsUpdated            // "Records Updated."
    | Unauthorized              // "Unauthorized."
    | BiometricReset(username: string) // "Biometric data for <username> reset."

  /** Where a redirect goes: a named page of the portal or the live class's meeting link. */
  datatype Target = LoginPage | StudentDash | TeacherDash | AdminDashboard | MeetingLink(url: string)

  datatype Response = RenderLogin | Redirect(target: Target) | NotFound

  /** A handler's answer: the messages queued, the response, and the user it logged in (if any). */
  datatype Reply = Reply(flashes: seq<Flash>, response: Response, loggedIn: Option<UserId>)

  // ------------------------------------------------------------------- login

  /** The login form's fields; a field absent from the POST is None. */
  datatype LoginForm = LoginForm(enrollment: Option<string>, username: Option<string>, password: Option<string>)

  /** The framework's credential check: the user with that username and password, if any. */
  type Authenticator = (string, Option<string>) -> Option<User>

  /** A form field that is present and not empty (Python truthiness of the value). */
  predicate Filled(field: Option<string>)
  {
    field.Some? && field.value != ""
  }

  /** The account holding an enrollment number (the number is unique among accounts). */
  function FindByEnrollment(users: seq<User>, enrollment: string): (r: Option<User>)
    ensures r.Some? ==> r.value in users && r.value.enrollmentNumber == Some(enrollment)
    ensures r.None? <==> forall i :: 0 <= i < |users| ==> users[i].enrollmentNumber != Some(enrollment)
  {
    if users == [] then None
    else if users[0].enrollmentNumber == Some(enrollment) then Some(users[0])
    else
      var rest := FindByEnrollment(users[1..], enrollment);
      assert forall i :: 1 <= i < |users| ==> users[i] == users[1..][i - 1];
      rest
  }

  /**
   * The credential branch of the login handler: the enrollment number is used
   * when it is filled in, the username only otherwise. Returns the
   * authenticated user and the messages queued on the way.
   */
  function SelectUser(users: seq<User>, form: LoginForm, authenticate: Authenticator): (r: (Option<User>, seq<Flash>))
    ensures Filled(form.enrollment) && FindByEnrollment(users, form.enrollment.value).None?
            ==> r == (None, [InvalidEnrollmentNumber])
    ensures Filled(form.enrollment) && FindByEnrollment(users, form.enrollment.value).Some?
            ==> r == (authenticate(FindByEnrollment(users, form.enrollment.value).value.username, form.password), [])
    ensures !Filled(form.enrollment) && Filled(form.username) ==> r == (authenticate(form.username.value, form.password), [])
    ensures !Filled(form.enrollment) && !Filled(form.username) ==> r == (None, [])
  {
    if Filled(form.enrollment) then
      match FindByEnrollment(users, form.enrollment.value)
      case Some(owner) => (authenticate(owner.username, form.password), [])
      case None => (None, [InvalidEnrollmentNumber])
    else if Filled(form.username) then (authenticate(form.username.value, form.password), [])
    else (None, [])
  }

  /** The login handler: a GET shows the page; a POST logs the selected user in or reports failure. */
  function LoginView(users: seq<User>, isPost: bool, form: LoginForm, authenticate: Authenticator): (reply: Reply)
    ensures !isPost ==> reply == Reply([], RenderLogin, None)
    ensures reply.loggedIn.Some? <==> isPost && SelectUser(users, form, authenticate).0.Some?
    ensures reply.loggedIn.Some? ==>
      var user := SelectUser(users, form, authenticate).0.value;
      reply.loggedIn == Some(user.id) && reply.flashes == []
      && reply.response == Redirect(if user.isStudent then StudentDash else TeacherDash)
    ensures isPost && reply.loggedIn.None? ==>
      reply.response == RenderLogin && reply.flashes == SelectUser(users, form, authenticate).1 + [InvalidCredentials]
  {
    if !isPost then Reply([], RenderLogin, None)
    else
      var (user, flashes) := SelectUser(users, form, authenticate);
      match user
      case Some(u) => Reply(flashes, Redirect(if u.isStudent then StudentDash else TeacherDash), Some(u.id))
      case None => Reply(flashes + [InvalidCredentials], RenderLogin, None)
  }

  /** When the enrollment field is filled in, the username field makes no difference. */
  lemma EnrollmentTakesPrecedence(users: seq<User>, form: LoginForm, otherUsername: Option<string>, authenticate: Authenticator)
    requires Filled(form.enrollment)
    ensures LoginView(users, true, form, authenticate) == LoginView(users, true, form.(username := otherUsername), authenticate)
  {
  }

  /** An unknown enrollment number queues both error messages and logs nobody in. */
  lemma UnknownEnrollmentNumber(users: seq<User>, form: LoginForm, authenticate: Authenticator)
    requires Filled(form.enrollment)
    requires forall i :: 0 <= i < |users| ==> users[i].enrollmentNumber != form.enrollment
    ensures LoginView(users, true, form, authenticate) == Reply([InvalidEnrollmentNumber, InvalidCredentials], RenderLogin, None)
  {
  }

  // ----------------------------------------------------------------- records

  /** A gallery entry: an enrolled student and their stored encoding. */
  datatype Entry = Entry(student: UserId, encoding: Encoding)

  /** The record of a user, looked up by the user (at most one record per user). */
  function RecordFor(rs: seq<StudentData>, user: UserId): (r: Option<StudentData>)
    ensures r.Some? ==> r.value in rs && r.value.student.id == user
    ensures r.None? <==> forall i :: 0 <= i < |rs| ==> rs[i].student.id != user
  {
    if rs == [] then None
    else if rs[0].student.id == user then Some(rs[0])
    else
      var rest := RecordFor(rs[1..], user);
      assert forall i :: 1 <= i < |rs| ==> rs[i] == rs[1..][i - 1];
      rest
  }

  /** The record with a primary key. */
  function RecordWithId(rs: seq<StudentData>, id: RecordId): (r: Option<StudentData>)
    ensures r.Some? ==> r.value in rs && r.value.id == id
    ensures r.None? <==> forall i :: 0 <= i < |rs| ==> rs[i].id != id
  {
    if rs == [] then None
    else if rs[0].id == id then Some(rs[0])
    else
      var rest := RecordWithId(rs[1..], id);
      assert forall i :: 1 <= i < |rs| ==> rs[i] == rs[1..][i - 1];
      rest
  }

  /** The primary key the next created record receives: above every key in use. */
  function NextId(rs: seq<StudentData>): (n: RecordId)
    ensures forall i :: 0 <= i < |rs| ==> rs[i].id < n
  {
    if rs == [] then 1
    else
      var rest := NextId(rs[..|rs| - 1]);
      assert forall i :: 0 <= i < |rs| - 1 ==> rs[i] == rs[..|rs| - 1][i];
      if rs[|rs| - 1].id < rest then rest else rs[|rs| - 1].id + 1
  }

  /** The records that have an encoding, in table order, as (student, encoding) pairs. */
  function Gallery(rs: seq<StudentData>): (g: seq<Entry>)
    reads rs
    ensures |g| <= |rs|
    ensures (forall i :: 0 <= i < |rs| ==> rs[i].faceEncoding.None?) ==> g == []
    ensures (forall i :: 0 <= i < |rs| ==> rs[i].faceEncoding.Some?) ==> |g| == |rs|
  {
    if rs == [] then []
    else
      var last := rs[|rs| - 1];
      var rest := Gallery(rs[..|rs| - 1]);
      if last.faceEncoding.Some? then rest + [Entry(last.student.id, last.faceEncoding.value)] else rest
  }

  /** The table positions the gallery entries come from, in the same order. */
  ghost function GalleryOrigin(rs: seq<StudentData>): seq<nat>
    reads rs
  {
    if rs == [] then []
    else
      var rest := GalleryOrigin(rs[..|rs| - 1]);
      if rs[|rs| - 1].faceEncoding.Some? then rest + [|rs| - 1] else rest
  }

  /**
   * The gallery is exactly the enrolled records, in table order: entry k
   * comes from table position GalleryOrigin(rs)[k], those positions increase,
   * and every record with an encoding is one of them.
   */
  lemma {:induction false} GalleryIsEnrolledRecords(rs: seq<StudentData>)
    ensures var g, o := Gallery(rs), GalleryOrigin(rs);
      && |o| == |g|
      && (forall k :: 0 <= k < |o| ==>
            o[k] < |rs| && rs[o[k]].faceEncoding == Some(g[k].encoding) && rs[o[k]].student.id == g[k].student)
      && (forall k, l :: 0 <= k < l < |o| ==> o[k] < o[l])
      && (forall i :: 0 <= i < |rs| && rs[i].faceEncoding.Some? ==> i in o)
  {
    if rs != [] {
      var front := rs[..|rs| - 1];
      GalleryIsEnrolledRecords(front);
      assert forall i :: 0 <= i < |front| ==> front[i] == rs[i];
    }
  }

  function Encodings(g: seq<Entry>): seq<Encoding>
  {
    seq(|g|, k requires 0 <= k < |g| => g[k].encoding)
  }

  function Students(g: seq<Entry>): seq<UserId>
  {
    seq(|g|, k requires 0 <= k < |g| => g[k].student)
  }

  /** The store of student records, in the order the table enumerates them. */
  class Database {
    var records: seq<StudentData>

    /** One record per object, per primary key and per student. */
    ghost predicate Valid()
      reads this
    {
      forall i, j :: 0 <= i < j < |records| ==>
        records[i] != records[j] && records[i].id != records[j].id && records[i].student.id != records[j].student.id
    }

    constructor ()
      ensures Valid() && records == []
    {
      records := [];
    }

    /** The two parallel lists of the login flow: gallery encodings and the ids of their students. */
    method BuildGallery() returns (known: seq<Encoding>, ids: seq<UserId>)
      ensures known == Encodings(Gallery(records)) && ids == Students(Gallery(records))
    {
      known, ids := [], [];
      var i := 0;
      while i < |records|
        invariant 0 <= i <= |records|
        invariant known == Encodings(Gallery(records[..i])) && ids == Students(Gallery(records[..i]))
      {
        assert records[..i + 1][..i] == records[..i];
        var sd := records[i];
        if sd.faceEncoding.Some? {
          known, ids := known + [sd.faceEncoding.value], ids + [sd.student.id];
        }
        i := i + 1;
      }
      assert records[..i] == records;
    }

    /**
     * Face login: scans frames against every enrolled template until a face
     * matches, `q` is pressed or a read fails, and logs the matched student in.
     */
    method FaceLogin(events: seq<Event>, matches: Matcher) returns (reply: Reply, session: Identified)
      ensures session == Identify(Encodings(Gallery(records)), Students(Gallery(records)), events, matches)
      ensures session.user.Some? ==> reply == Reply([WelcomeBack(session.user.value)], Redirect(StudentDash), session.user)
      ensures session.user.None? ==> reply == Reply([FaceNotRecognized], Redirect(LoginPage), None)
    {
      var known, ids := BuildGallery();
      var found: Option<UserId> := None;
      var i := 0;
      while true
        invariant i <= |events|
        invariant found.None?
        invariant Identify(known, ids, events, matches) == IdentifyFrom(known, ids, events, i, matches)
        decreases |events| - i
      {
        if !ReadOk(events, i) {
          break;
        }
        var k := ScanFaces(known, events[i].frame.faces, matches);
        if k.Some? {
          found := Some(ids[k.value]);
        }
        if found.Some? || Pressed(events, i, 'q') {
          break;
        }
        i := i + 1;
      }
      session := Identified(found, i + 1);
      assert session == IdentifyFrom(known, ids, events, i, matches);
      if found.Some? {
        reply := Reply([WelcomeBack(found.value)], Redirect(StudentDash), found);
      } else {
        reply := Reply([FaceNotRecognized], Redirect(LoginPage), None);
      }
    }

    /** The user's record, created with the defaults (and saved) when there is none. */
    method GetOrCreate(user: User) returns (rec: StudentData)
      requires Valid()
      modifies this
      ensures Valid()
      ensures rec in records && rec.student.id == user.id
      ensures old(RecordFor(records, user.id)).Some? ==> records == old(records) && rec == old(RecordFor(records, user.id)).value
      ensures old(RecordFor(records, user.id)).None? ==>
        && fresh(rec) && records == old(records) + [rec] && rec.student == user
        && rec.faceEncoding == None && rec.attendance == 0.0 && rec.marks == 0
        && rec.performance == TierFor(0).Label()
    {
      var existing := RecordFor(records, user.id);
      if existing.Some? {
        rec := existing.value;
      } else {
        rec := new StudentData(NextId(records), user);
        rec.Save();
        records := records + [rec];
      }
    }

    /**
     * Enrollment: keeps the encoding of the latest frame with a face; `s`
     * then overwrites the user's stored template (creating the record if
     * needed), while `q` or a failed read leaves everything as it was.
     */
    method RegisterFace(user: User, events: seq<Event>) returns (reply: Reply, session: Enrolled)
      requires Valid()
      modifies this, set r | r in records && r.student.id == user.id
      ensures Valid()
      ensures session == Enroll(events)
      ensures reply == Reply(if session.saved.Some? then [BiometricsSaved] else [], Redirect(StudentDash), None)
      ensures session.saved.None? ==> records == old(records) && unchanged(set r | r in records && r.student.id == user.id)
      ensures session.saved.Some? ==>
        var rec := RecordFor(records, user.id);
        && rec.Some?
        && rec.value.faceEncoding == session.saved
        && rec.value.performance == TierFor(rec.value.marks).Label()
        && (old(RecordFor(records, user.id)).Some? ==>
              records == old(records) && rec.value.marks == old(rec.value.marks) && rec.value.attendance == old(rec.value.attendance))
        && (old(RecordFor(records, user.id)).None? ==>
              records == old(records) + [rec.value] && fresh(rec.value) && rec.value.student == user
              && rec.value.marks == 0 && rec.value.attendance == 0.0)
    {
      var encoding: Option<Encoding> := None;
      var i := 0;
      while true
        invariant i <= |events|
        invariant Enroll(events) == EnrollFrom(events, i, encoding)
        invariant records == old(records) && unchanged(set r | r in records && r.student.id == user.id)
        decreases |events| - i
      {
        if !ReadOk(events, i) {
          session := Enrolled(None, i + 1);
          break;
        }
        var faces := events[i].frame.faces;
        if faces != [] {
          encoding := Some(faces[0]);
        }
        if Pressed(events, i, 's') && encoding.Some? {
          ghost var before := RecordFor(records, user.id);
          var sd := GetOrCreate(user);
          assert Valid();
          assert sd == RecordFor(records, user.id).value;
          sd.faceEncoding := encoding;
          sd.Save();
          session := Enrolled(encoding, i + 1);
          break;
        } else if Pressed(events, i, 'q') {
          session := Enrolled(None, i + 1);
          break;
        }
        i := i + 1;
      }
      reply := Reply(if session.saved.Some? then [BiometricsSaved] else [], Redirect(StudentDash), None);
    }

    /**
     * Verification before joining the live class. Without a stored encoding it
     * answers at once and never opens the camera. Otherwise it tries at most
     * 80 frames against the stored encoding; a match adds exactly 1 to the
     * attendance and saves, then the student is sent to the active meeting
     * link if there is one. Any other ending leaves the record untouched.
     */
    method VerifyForClass(user: User, events: seq<Event>, matches: Matcher, liveLink: Option<string>)
      returns (reply: Reply, cameraOpened: bool, session: Verified)
      requires Valid()
      modifies set r | r in records && r.student.id == user.id
      ensures var rec := RecordFor(records, user.id);
        (rec.None? || old(rec.value.faceEncoding).None?) ==>
          && !cameraOpened && session == Verified(false, 0)
          && reply == Reply([FaceNotRegistered], Redirect(StudentDash), None)
          && unchanged(set r | r in records && r.student.id == user.id)
      ensures var rec := RecordFor(records, user.id);
        (rec.Some? && old(rec.value.faceEncoding).Some?) ==>
          && cameraOpened
          && session == Verify(old(rec.value.faceEncoding).value, events, matches)
          && rec.value.attendance == old(rec.value.attendance) + (if session.matched then 1.0 else 0.0)
          && rec.value.faceEncoding == old(rec.value.faceEncoding) && rec.value.marks == old(rec.value.marks)
          && rec.value.performance == (if session.matched then TierFor(rec.value.marks).Label() else old(rec.value.performance))
          && reply == (if session.matched && liveLink.Some? then Reply([], Redirect(MeetingLink(liveLink.value)), None)
                       else Reply([VerificationFailed], Redirect(StudentDash), None))
    {
      var found := RecordFor(records, user.id);
      if found.None? || found.value.faceEncoding.None? {
        reply, cameraOpened, session := Reply([FaceNotRegistered], Redirect(StudentDash), None), false, Verified(false, 0);
        return;
      }
      var sd := found.value;
      var stored := sd.faceEncoding.value;
      cameraOpened := true;
      session := Verified(false, VerifyFrameLimit);
      for n := 0 to VerifyFrameLimit
        invariant Verify(stored, events, matches) == VerifyFrom(stored, events, n, matches)
        invariant session == Verified(false, VerifyFrameLimit)
        invariant unchanged(sd)
      {
        if !ReadOk(events, n) {
          session := Verified(false, n + 1);
          break;
        }
        var k := ScanFaces([stored], events[n].frame.faces, matches);
        if k.Some? {
          session := Verified(true, n + 1);
          break;
        }
        if Pressed(events, n, 'q') {
          session := Verified(false, n + 1);
          break;
        }
      }
      if session.matched {
        sd.attendance := sd.attendance + 1.0;
        sd.Save();
        if liveLink.Some? {
          reply := Reply([], Redirect(MeetingLink(liveLink.value)), None);
          return;
        }
      }
      reply := Reply([VerificationFailed], Redirect(StudentDash), None);
    }

    /** The dashboard progress bar: 25 for the account, 35 more for a stored face, 40 more for any attendance, capped at 100. */
    method StudentDashProgress(user: User) returns (progress: int)
      ensures var rec := RecordFor(records, user.id);
        var enrolled := rec.Some? && rec.value.faceEncoding.Some?;
        var attended := rec.Some? && rec.value.attendance > 0.0;
        && (progress == 100 <==> enrolled && attended)
        && (progress == 60 <==> enrolled && !attended)
        && (progress == 65 <==> !enrolled && attended)
        && (progress == 25 <==> !enrolled && !attended)
      ensures progress in {25, 60, 65, 100} && progress <= 100
      ensures RecordFor(records, user.id).None? ==> progress == 25
    {
      var data := RecordFor(records, user.id);
      progress := 25;
      if data.Some? {
        if data.value.faceEncoding.Some? {
          progress := progress + 35;
        }
        if data.value.attendance > 0.0 {
          progress := progress + 40;
        }
      }
      if progress > 100 {
        progress := 100;
      }
    }

    /** The staff-only reset of a record's stored encoding, by record key. */
    method ResetFaceId(requester: User, recordId: RecordId) returns (reply: Reply)
      requires Valid()
      modifies set r | r in records && r.id == recordId
      ensures !requester.isStaff ==>
        reply == Reply([Unauthorized], Redirect(LoginPage), None) && unchanged(set r | r in records && r.id == recordId)
      ensures requester.isStaff && RecordWithId(records, recordId).None? ==> reply == Reply([], NotFound, None)
      ensures var rec := RecordWithId(records, recordId);
        requester.isStaff && rec.Some? ==>
          && rec.value.faceEncoding == None
          && rec.value.marks == old(rec.value.marks) && rec.value.attendance == old(rec.value.attendance)
          && rec.value.performance == TierFor(rec.value.marks).Label()
          && reply == Reply([BiometricReset(rec.value.student.username)], Redirect(AdminDashboard), None)
    {
      if !requester.isStaff {
        return Reply([Unauthorized], Redirect(LoginPage), None);
      }
      var found := RecordWithId(records, recordId);
      if found.None? {
        return Reply([], NotFound, None);
      }
      var sd := found.value;
      sd.faceEncoding := None;
      sd.Save();
      reply := Reply([BiometricReset(sd.student.username)], Redirect(AdminDashboard), None);
    }

    /**
     * The marks form: a POST sets marks and attendance (0 and 0.0 when the
     * field is absent) on the record with that key and saves it.
     */
    method UpdateMarks(recordId: RecordId, isPost: bool, marksField: Option<int>, attendanceField: Option<real>)
      returns (reply: Reply)
      requires Valid()
      modifies set r | r in records && r.id == recordId
      ensures !isPost ==> reply == Reply([], Redirect(TeacherDash), None) && unchanged(set r | r in records && r.id == recordId)
      ensures isPost && RecordWithId(records, recordId).None? ==> reply == Reply([], NotFound, None)
      ensures var rec := RecordWithId(records, recordId);
        isPost && rec.Some? ==>
          && rec.value.marks == (if marksField.Some? then marksField.value else 0)
          && rec.value.attendance == (if attendanceField.Some? then attendanceField.value else 0.0)
          && rec.value.faceEncoding == old(rec.value.faceEncoding)
          && rec.value.performance == TierFor(rec.value.marks).Label()
          && reply == Reply([RecordsUpdated], Redirect(TeacherDash), None)
    {
      if isPost {
        var found := RecordWithId(records, recordId);
        if found.None? {
          return Reply([], NotFound, None);
        }
        var sr := found.value;
        sr.marks := if marksField.Some? then marksField.value else 0;
        sr.attendance := if attendanceField.Some? then attendanceField.value else 0.0;
        sr.Save();
        return Reply([RecordsUpdated], Redirect(TeacherDash), None);
      }
      reply := Reply([], Redirect(TeacherDash), None);
    }
  }
}
