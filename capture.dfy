/**
 * The camera, the keyboard and the face matcher, as the capture loops of
 * core/views.py see them: a finite stream of per-frame events, each a frame
 * read (failed, or the encodings of the faces found in it, in the
 * extractor's order) and the key code that the key poll returns after it.
 */
module Capture {
  import opened Wrappers
  import opened Models

  datatype Frame = ReadFailed | Captured(faces: seq<Encoding>)

  datatype Event = Event(frame: Frame, key: int)

  /**
   * Stands in for comparing a stored encoding with a probe within the fixed
   * tolerance: Matcher(stored, probe) is true when the probe is accepted.
   */
  type Matcher = (Encoding, Encoding) -> bool

  /** A read at position i succeeds only inside the stream; past its end the device reports failure. */
  predicate ReadOk(events: seq<Event>, i: nat)
  {
    i < |events| && events[i].frame.Captured?
  }

  /**
   * The low byte of a key code. Python's `code & 0xFF` on an arbitrary
   * integer is the floored remainder by 256, which is Dafny's `%` for a
   * positive divisor; the poll's -1 for "no key" becomes 255.
   */
  function LowByte(code: int): (b: int)
    ensures 0 <= b < 256
    ensures (code - b) % 256 == 0
  {
    code % 256
  }

  /** The key polled after frame i is the character c. */
  predicate Pressed(events: seq<Event>, i: nat, c: char)
    requires i < |events|
  {
    LowByte(events[i].key) == c as int
  }

  /**
   * The position of the first True in the list of comparisons of `probe`
   * against each of `known`, or None when there is no True in it.
   */
  function FirstMatchIndex(known: seq<Encoding>, probe: Encoding, matches: Matcher): (r: Option<nat>)
    ensures r.Some? ==> r.value < |known| && matches(known[r.value], probe)
    ensures r.Some? ==> forall j :: 0 <= j < r.value ==> !matches(known[j], probe)
    ensures r.None? <==> forall j :: 0 <= j < |known| ==> !matches(known[j], probe)
  {
    if known == [] then None
    else if matches(known[0], probe) then Some(0)
    else match FirstMatchIndex(known[1..], probe, matches)
      case None => None
      case Some(k) => Some(k + 1)
  }

  /**
   * The gallery position chosen for one frame: the faces are tried in order
   * and the first face that matches any gallery entry decides, by its first
   * matching entry.
   */
  function FrameMatch(known: seq<Encoding>, faces: seq<Encoding>, matches: Matcher): (r: Option<nat>)
    ensures r.Some? ==> r.value < |known|
    ensures r.Some? ==> exists f :: 0 <= f < |faces| && FirstMatchIndex(known, faces[f], matches) == r
                                  && forall g :: 0 <= g < f ==> FirstMatchIndex(known, faces[g], matches).None?
    ensures r.None? <==> forall f :: 0 <= f < |faces| ==> FirstMatchIndex(known, faces[f], matches).None?
  {
    if faces == [] then None
    else
      var here := FirstMatchIndex(known, faces[0], matches);
      if here.Some? then here
      else
        var rest := FrameMatch(known, faces[1..], matches);
        assert forall f :: 1 <= f < |faces| ==> faces[f] == faces[1..][f - 1];
        rest
  }

  /** No face matches a frame against an empty gallery. */
  lemma EmptyGalleryNeverMatches(faces: seq<Encoding>, matches: Matcher)
    ensures FrameMatch([], faces, matches) == None
  {
  }

  /** Against a one-entry gallery a frame matches exactly when one of its faces is accepted. */
  lemma SingleEntryFrameMatch(stored: Encoding, faces: seq<Encoding>, matches: Matcher)
    ensures FrameMatch([stored], faces, matches).Some? <==> exists f :: 0 <= f < |faces| && matches(stored, faces[f])
  {
  }

  /** A probe equal to a stored encoding that the matcher accepts as itself picks that entry or an earlier one. */
  lemma ReflexiveProbe(known: seq<Encoding>, k: nat, matches: Matcher)
    requires k < |known| && matches(known[k], known[k])
    ensures FirstMatchIndex(known, known[k], matches).Some?
    ensures FirstMatchIndex(known, known[k], matches).value <= k
  {
  }

  /**
   * The loop over the faces of one frame: each face is compared with the
   * whole gallery, and the loop stops at the first face with a True.
   */
  method ScanFaces(known: seq<Encoding>, faces: seq<Encoding>, matches: Matcher) returns (r: Option<nat>)
    ensures r == FrameMatch(known, faces, matches)
  {
    var f := 0;
    r := None;
    while f < |faces|
      invariant 0 <= f <= |faces|
      invariant r.None?
      invariant FrameMatch(known, faces, matches) == FrameMatch(known, faces[f..], matches)
    {
      assert faces[f..][1..] == faces[f + 1..];
      r := FirstMatchIndex(known, faces[f], matches);
      if r.Some? {
        return;
      }
      f := f + 1;
    }
  }
}
