/**
 * What the three capture loops of core/views.py decide, as functions of the
 * event stream: identification at login, enrollment of a template, and the
 * bounded verification before a live class. Each is written frame by frame
 * from position i, the way the loop runs, and the lemmas say which frame
 * ends the loop and what it decides.
 */
module Sessions {
  import opened Wrappers
  import opened Models
  import opened Capture

  // ---------------------------------------------------------------- identify

  /** The student found (if any) and how many frame reads the loop made. */
  datatype Identified = Identified(user: Option<UserId>, framesRead: nat)

  /** Frame j is read, no face in it matches the gallery, and the key is not `q`: the login loop goes on. */
  predicate IdentifyContinues(known: seq<Encoding>, events: seq<Event>, j: nat, matches: Matcher)
  {
    ReadOk(events, j) && FrameMatch(known, events[j].frame.faces, matches).None? && !Pressed(events, j, 'q')
  }

  /** The login loop from frame i on, over the parallel gallery lists `known` and `ids`. */
  function IdentifyFrom(known: seq<Encoding>, ids: seq<UserId>, events: seq<Event>, i: nat, matches: Matcher): (r: Identified)
    requires |known| == |ids|
    ensures i < r.framesRead
    ensures r.user.Some? ==> r.user.value in ids && ReadOk(events, r.framesRead - 1)
    decreases |events| - i
  {
    if !ReadOk(events, i) then Identified(None, i + 1)
    else match FrameMatch(known, events[i].frame.faces, matches)
      case Some(k) => Identified(Some(ids[k]), i + 1)
      case None =>
        if Pressed(events, i, 'q') then Identified(None, i + 1)
        else IdentifyFrom(known, ids, events, i + 1, matches)
  }

  function Identify(known: seq<Encoding>, ids: seq<UserId>, events: seq<Event>, matches: Matcher): (r: Identified)
    requires |known| == |ids|
    ensures 1 <= r.framesRead
    ensures r.user.Some? ==> r.user.value in ids && r.framesRead <= |events|
  {
    IdentifyFrom(known, ids, events, 0, matches)
  }

  lemma {:induction false} IdentifyFromDecision(known: seq<Encoding>, ids: seq<UserId>, events: seq<Event>, i: nat, matches: Matcher)
    requires |known| == |ids| && i <= |events|
    ensures var r := IdentifyFrom(known, ids, events, i, matches);
      && i < r.framesRead <= |events| + 1
      && (forall j :: i <= j < r.framesRead - 1 ==> IdentifyContinues(known, events, j, matches))
      && !IdentifyContinues(known, events, r.framesRead - 1, matches)
      && (r.user.Some? <==> ReadOk(events, r.framesRead - 1)
                            && FrameMatch(known, events[r.framesRead - 1].frame.faces, matches).Some?)
      && (r.user.Some? ==> r.user.value == ids[FrameMatch(known, events[r.framesRead - 1].frame.faces, matches).value])
    decreases |events| - i
  {
    if ReadOk(events, i) && FrameMatch(known, events[i].frame.faces, matches).None? && !Pressed(events, i, 'q') {
      IdentifyFromDecision(known, ids, events, i + 1, matches);
    }
  }

  /**
   * The login loop reads frames until the first one that is unreadable, has a
   * face matching the gallery, or comes with `q`; every earlier frame was
   * read, matched nothing and had no `q`. A user is found exactly when that
   * last frame matched, and it is the id at the gallery position chosen there.
   */
  lemma IdentifyDecision(known: seq<Encoding>, ids: seq<UserId>, events: seq<Event>, matches: Matcher)
    requires |known| == |ids|
    ensures var r := Identify(known, ids, events, matches);
      && 1 <= r.framesRead <= |events| + 1
      && (forall j :: 0 <= j < r.framesRead - 1 ==> IdentifyContinues(known, events, j, matches))
      && !IdentifyContinues(known, events, r.framesRead - 1, matches)
      && (r.user.Some? <==> ReadOk(events, r.framesRead - 1)
                            && FrameMatch(known, events[r.framesRead - 1].frame.faces, matches).Some?)
      && (r.user.Some? ==> r.user.value == ids[FrameMatch(known, events[r.framesRead - 1].frame.faces, matches).value])
  {
    IdentifyFromDecision(known, ids, events, 0, matches);
  }

  lemma {:induction false} IdentifyFromEmptyGallery(events: seq<Event>, i: nat, matches: Matcher)
    ensures IdentifyFrom([], [], events, i, matches).user == None
    decreases |events| - i
  {
    if ReadOk(events, i) {
      EmptyGalleryNeverMatches(events[i].frame.faces, matches);
      if !Pressed(events, i, 'q') {
        IdentifyFromEmptyGallery(events, i + 1, matches);
      }
    }
  }

  /** With nobody enrolled the login loop never finds a user, whatever the camera delivers. */
  lemma IdentifyEmptyGallery(events: seq<Event>, matches: Matcher)
    ensures Identify([], [], events, matches).user == None
  {
    IdentifyFromEmptyGallery(events, 0, matches);
  }

  /** One enrolled student, whose own encoding shows up in the first frame: that student is found at once. */
  lemma IdentifyOwnFace(s1: UserId, e1: Encoding, matches: Matcher)
    requires matches(e1, e1)
    ensures Identify([e1], [s1], [Event(Captured([e1]), -1)], matches) == Identified(Some(s1), 1)
  {
  }

  // ------------------------------------------------------------------ enroll

  /** The template saved (None when the loop ended without saving) and how many frame reads it made. */
  datatype Enrolled = Enrolled(saved: Option<Encoding>, framesRead: nat)

  /**
   * The encoding kept after the first n frames: the first face of the most
   * recent of those frames in which a face was found.
   */
  function LatestFace(events: seq<Event>, n: nat): (r: Option<Encoding>)
    requires n <= |events|
    ensures r.None? <==> forall j :: 0 <= j < n ==> !(events[j].frame.Captured? && events[j].frame.faces != [])
    ensures r.Some? ==> exists j :: 0 <= j < n && events[j].frame.Captured? && events[j].frame.faces != []
                                  && r.value == events[j].frame.faces[0]
                                  && forall l :: j < l < n ==> !(events[l].frame.Captured? && events[l].frame.faces != [])
  {
    if n == 0 then None
    else if events[n - 1].frame.Captured? && events[n - 1].frame.faces != [] then Some(events[n - 1].frame.faces[0])
    else LatestFace(events, n - 1)
  }

  /** The pending encoding after a frame with these faces. */
  function KeepLatest(faces: seq<Encoding>, pending: Option<Encoding>): Option<Encoding>
  {
    if faces != [] then Some(faces[0]) else pending
  }

  /** The enrollment loop from frame i on, holding `pending` from the earlier frames. */
  function EnrollFrom(events: seq<Event>, i: nat, pending: Option<Encoding>): (r: Enrolled)
    ensures i < r.framesRead
    ensures r.saved.Some? ==> ReadOk(events, r.framesRead - 1) && Pressed(events, r.framesRead - 1, 's')
    decreases |events| - i
  {
    if !ReadOk(events, i) then Enrolled(None, i + 1)
    else
      var p := KeepLatest(events[i].frame.faces, pending);
      if Pressed(events, i, 's') && p.Some? then Enrolled(p, i + 1)
      else if Pressed(events, i, 'q') then Enrolled(None, i + 1)
      else EnrollFrom(events, i + 1, p)
  }

  function Enroll(events: seq<Event>): (r: Enrolled)
    ensures 1 <= r.framesRead
    ensures r.saved.Some? ==> r.framesRead <= |events| && Pressed(events, r.framesRead - 1, 's')
  {
    EnrollFrom(events, 0, None)
  }

  /** Frame j is read and its key neither commits (`s` with a face seen so far) nor quits. */
  predicate EnrollContinues(events: seq<Event>, j: nat)
  {
    ReadOk(events, j) && !(Pressed(events, j, 's') && LatestFace(events, j + 1).Some?) && !Pressed(events, j, 'q')
  }

  lemma {:induction false} EnrollFromDecision(events: seq<Event>, i: nat)
    requires i <= |events|
    ensures var r := EnrollFrom(events, i, LatestFace(events, i));
      && i < r.framesRead <= |events| + 1
      && (forall j :: i <= j < r.framesRead - 1 ==> EnrollContinues(events, j))
      && !EnrollContinues(events, r.framesRead - 1)
      && (r.saved.Some? <==> ReadOk(events, r.framesRead - 1) && Pressed(events, r.framesRead - 1, 's')
                             && LatestFace(events, r.framesRead).Some?)
      && (r.saved.Some? ==> r.saved == LatestFace(events, r.framesRead))
    decreases |events| - i
  {
    if ReadOk(events, i) {
      assert KeepLatest(events[i].frame.faces, LatestFace(events, i)) == LatestFace(events, i + 1);
      if !(Pressed(events, i, 's') && LatestFace(events, i + 1).Some?) && !Pressed(events, i, 'q') {
        EnrollFromDecision(events, i + 1);
      }
    }
  }

  /**
   * The enrollment loop reads frames until the first one that is unreadable,
   * comes with `q`, or comes with `s` once some frame so far showed a face.
   * It saves exactly in the last case, and what it saves is the first face of
   * the most recent frame that had one.
   */
  lemma EnrollDecision(events: seq<Event>)
    ensures var r := Enroll(events);
      && 1 <= r.framesRead <= |events| + 1
      && (forall j :: 0 <= j < r.framesRead - 1 ==> EnrollContinues(events, j))
      && !EnrollContinues(events, r.framesRead - 1)
      && (r.saved.Some? <==> ReadOk(events, r.framesRead - 1) && Pressed(events, r.framesRead - 1, 's')
                             && LatestFace(events, r.framesRead).Some?)
      && (r.saved.Some? ==> r.saved == LatestFace(events, r.framesRead))
  {
    EnrollFromDecision(events, 0);
  }

  /** A face seen in an earlier frame is replaced by the face of a later frame before `s` commits it. */
  lemma EnrollKeepsLaterFace(e1: Encoding, e2: Encoding)
    ensures Enroll([Event(Captured([e1]), -1), Event(Captured([e2]), 's' as int)]) == Enrolled(Some(e2), 2)
  {
    var events := [Event(Captured([e1]), -1), Event(Captured([e2]), 's' as int)];
    assert LowByte(-1) == 255 && LowByte('s' as int) == 's' as int;
    assert EnrollFrom(events, 0, None) == EnrollFrom(events, 1, Some(e1));
  }

  /** `s` before any face is ignored, and `q` afterwards quits without saving. */
  lemma EnrollCommitNeedsFace(e1: Encoding)
    ensures Enroll([Event(Captured([]), 's' as int), Event(Captured([e1]), 'q' as int)]) == Enrolled(None, 2)
  {
    var events := [Event(Captured([]), 's' as int), Event(Captured([e1]), 'q' as int)];
    assert LowByte('s' as int) == 's' as int && LowByte('q' as int) == 'q' as int;
    assert EnrollFrom(events, 0, None) == EnrollFrom(events, 1, None);
  }

  // ------------------------------------------------------------------ verify

  /** The verification loop runs for at most this many frames. */
  const VerifyFrameLimit: nat := 80

  datatype Verified = Verified(matched: bool, framesRead: nat)

  /** Frame j is read, none of its faces matches the stored template, and the key is not `q`. */
  predicate VerifyContinues(stored: Encoding, events: seq<Event>, j: nat, matches: Matcher)
  {
    ReadOk(events, j) && FrameMatch([stored], events[j].frame.faces, matches).None? && !Pressed(events, j, 'q')
  }

  /** The verification loop from iteration i of the 80 on. */
  function VerifyFrom(stored: Encoding, events: seq<Event>, i: nat, matches: Matcher): (r: Verified)
    requires i <= VerifyFrameLimit
    ensures r.framesRead <= VerifyFrameLimit
    ensures i < r.framesRead || r.framesRead == i == VerifyFrameLimit
    ensures r.matched ==> ReadOk(events, r.framesRead - 1)
    decreases VerifyFrameLimit - i
  {
    if i == VerifyFrameLimit then Verified(false, i)
    else if !ReadOk(events, i) then Verified(false, i + 1)
    else if FrameMatch([stored], events[i].frame.faces, matches).Some? then Verified(true, i + 1)
    else if Pressed(events, i, 'q') then Verified(false, i + 1)
    else VerifyFrom(stored, events, i + 1, matches)
  }

  function Verify(stored: Encoding, events: seq<Event>, matches: Matcher): (r: Verified)
    ensures 1 <= r.framesRead <= VerifyFrameLimit
    ensures r.matched ==> r.framesRead <= |events|
  {
    VerifyFrom(stored, events, 0, matches)
  }

  lemma {:induction false} VerifyFromDecision(stored: Encoding, events: seq<Event>, i: nat, matches: Matcher)
    requires i < VerifyFrameLimit
    ensures var r := VerifyFrom(stored, events, i, matches);
      && i < r.framesRead <= VerifyFrameLimit
      && (forall j :: i <= j < r.framesRead - 1 ==> VerifyContinues(stored, events, j, matches))
      && (r.framesRead == VerifyFrameLimit || !VerifyContinues(stored, events, r.framesRead - 1, matches))
      && (r.matched <==> ReadOk(events, r.framesRead - 1)
                         && FrameMatch([stored], events[r.framesRead - 1].frame.faces, matches).Some?)
    decreases VerifyFrameLimit - i
  {
    if VerifyContinues(stored, events, i, matches) && i + 1 < VerifyFrameLimit {
      VerifyFromDecision(stored, events, i + 1, matches);
    }
  }

  /**
   * The verification loop reads between 1 and 80 frames. Every frame before
   * the last one read was readable, matched nothing and had no `q`; the loop
   * stopped at the last one because of it, or because the 80 iterations were
   * used up. It reports a match exactly when that last frame matched.
   */
  lemma VerifyDecision(stored: Encoding, events: seq<Event>, matches: Matcher)
    ensures var r := Verify(stored, events, matches);
      && 1 <= r.framesRead <= VerifyFrameLimit
      && (forall j :: 0 <= j < r.framesRead - 1 ==> VerifyContinues(stored, events, j, matches))
      && (r.framesRead == VerifyFrameLimit || !VerifyContinues(stored, events, r.framesRead - 1, matches))
      && (r.matched <==> ReadOk(events, r.framesRead - 1)
                         && FrameMatch([stored], events[r.framesRead - 1].frame.faces, matches).Some?)
  {
    VerifyFromDecision(stored, events, 0, matches);
  }

  lemma {:induction false} MatchAtFrameFrom(stored: Encoding, events: seq<Event>, i: nat, k: nat, matches: Matcher)
    requires i <= k < VerifyFrameLimit
    requires forall j :: i <= j < k ==> VerifyContinues(stored, events, j, matches)
    requires ReadOk(events, k) && FrameMatch([stored], events[k].frame.faces, matches).Some?
    ensures VerifyFrom(stored, events, i, matches) == Verified(true, k + 1)
    decreases k - i
  {
    if i < k {
      assert VerifyContinues(stored, events, i, matches);
      MatchAtFrameFrom(stored, events, i + 1, k, matches);
    }
  }

  /** A match on any frame k of the 80, after frames that all continued, ends the loop there with a match. */
  lemma VerifyMatchAtFrame(stored: Encoding, events: seq<Event>, k: nat, matches: Matcher)
    requires k < VerifyFrameLimit
    requires forall j :: 0 <= j < k ==> VerifyContinues(stored, events, j, matches)
    requires ReadOk(events, k) && FrameMatch([stored], events[k].frame.faces, matches).Some?
    ensures Verify(stored, events, matches) == Verified(true, k + 1)
  {
    MatchAtFrameFrom(stored, events, 0, k, matches);
  }

  /** Eighty frames that all continue use the loop up without a match, whatever follows them. */
  lemma VerifyExhausted(stored: Encoding, events: seq<Event>, matches: Matcher)
    requires forall j :: 0 <= j < VerifyFrameLimit ==> VerifyContinues(stored, events, j, matches)
    ensures Verify(stored, events, matches) == Verified(false, VerifyFrameLimit)
  {
    VerifyDecision(stored, events, matches);
    var r := Verify(stored, events, matches);
    assert VerifyContinues(stored, events, r.framesRead - 1, matches);
  }

  /** Frames 1 to 79 show no face and frame 80 shows an accepted face: verified on the last allowed frame. */
  lemma VerifyOnLastFrame(stored: Encoding, probe: Encoding, matches: Matcher)
    requires matches(stored, probe)
    ensures Verify(stored, seq(79, _ => Event(Captured([]), -1)) + [Event(Captured([probe]), -1)], matches)
         == Verified(true, VerifyFrameLimit)
  {
    var events := seq(79, _ => Event(Captured([]), -1)) + [Event(Captured([probe]), -1)];
    forall j | 0 <= j < 79 ensures VerifyContinues(stored, events, j, matches) {
      assert events[j] == Event(Captured([]), -1);
      assert LowByte(-1) == 255;
    }
    assert events[79] == Event(Captured([probe]), -1);
    SingleEntryFrameMatch(stored, [probe], matches);
    VerifyMatchAtFrame(stored, events, 79, matches);
  }
}
