/**
  The /recognize handler of the face server (face_server.py, recognize).

  The request body is decoded by the image codec (None when it is not an
  image: the handler answers with a client error and does nothing else).
  The detector gives the face locations and the encoder one encoding per
  location; each (encoding, location) pair is then classified against the
  gallery.  `compare_faces` and `face_distance` work element-wise on the
  known encodings, so they are given here as the per-pair functions
  `isMatch(known, face)` and `distance(known, face)`; only the order of the
  distances matters.  A face is recognised when the first index of minimum
  distance is also a match; its identity is then reported and posted
  through the debounce tracker, at the clock reading `clock(i)` for face i.
*/
module Recognition {
  import opened Wrappers
  import opened Debounce
  import opened GalleryLoader

  /** The name reported for a face that is not recognised. */
  const UNKNOWN: string := "Unknown"

  /** The error message of the client-error response ("invalid image"). */
  const INVALID_IMAGE: string := "Gambar tidak valid"

  /** A face location as the detector reports it (top, right, bottom, left). */
  datatype Box = Box(top: int, right: int, bottom: int, left: int)

  /** The handler's answer: the per-face names (200) or a client error (400). */
  datatype Response = Recognized(names: seq<string>) | BadRequest(error: string)

  // ---------------------------------------------------------------------
  // The per-face decision
  // ---------------------------------------------------------------------

  /** `k` is the first position at which `dis` takes its minimum. */
  ghost predicate IsFirstMin(dis: seq<real>, k: int)
  {
    && 0 <= k < |dis|
    && (forall j :: 0 <= j < |dis| ==> dis[k] <= dis[j])
    && (forall j :: 0 <= j < k ==> dis[k] < dis[j])
  }

  /** np.argmin: the index of the minimum, the first one on ties. */
  function ArgMin(dis: seq<real>): (k: nat)
    requires |dis| > 0
    ensures IsFirstMin(dis, k)
    decreases |dis|
  {
    if |dis| == 1 then 0
    else
      var k := ArgMin(dis[..|dis| - 1]);
      if dis[|dis| - 1] < dis[k] then |dis| - 1 else k
  }

  /**
    The decision for one face, given the match flags and the distances to the
    known encodings: the gallery index it is recognised as, or None.
  */
  function Classify(matches: seq<bool>, faceDis: seq<real>): (r: Option<nat>)
    requires |matches| == |faceDis|
    // an empty gallery recognises nobody
    ensures |faceDis| == 0 ==> r == None
    // a recognised face is the first closest entry, and that entry matches
    ensures r.Some? ==> IsFirstMin(faceDis, r.value) && matches[r.value]
    // an unrecognised face: the first closest entry does not match
    ensures r.None? ==> forall k :: IsFirstMin(faceDis, k) ==> !matches[k]
  {
    if |faceDis| == 0 then None
    else
      var matchIndex := ArgMin(faceDis);
      if matches[matchIndex] then Some(matchIndex) else None
  }

  /**
    A per-pair library function lifted over the known encodings, as
    compare_faces(known, face) and face_distance(known, face) are.
  */
  function PerKnown<Encoding, T>(known: seq<Encoding>, face: Encoding, f: (Encoding, Encoding) -> T): (r: seq<T>)
    ensures |r| == |known|
  {
    seq(|known|, i requires 0 <= i < |known| => f(known[i], face))
  }

  /** Value `i` of the lifted list is the per-pair result for known encoding `i`. */
  lemma PerKnownAt<Encoding, T>(known: seq<Encoding>, face: Encoding, f: (Encoding, Encoding) -> T, i: nat)
    requires i < |known|
    ensures PerKnown(known, face, f)[i] == f(known[i], face)
  {
  }

  /** The decision for one face encoding against the gallery. */
  function Decide<Encoding>(g: Gallery<Encoding>, isMatch: (Encoding, Encoding) -> bool,
                            distance: (Encoding, Encoding) -> real, face: Encoding): (r: Option<nat>)
    ensures r.Some? ==> r.value < |g.encodeListKnown|
  {
    Classify(PerKnown(g.encodeListKnown, face, isMatch), PerKnown(g.encodeListKnown, face, distance))
  }

  /** The name reported for a decision. */
  function NameOf(classNames: seq<string>, d: Option<nat>): string
    requires d.Some? ==> d.value < |classNames|
  {
    if d.Some? then classNames[d.value] else UNKNOWN
  }

  // ---------------------------------------------------------------------
  // All faces of one request
  // ---------------------------------------------------------------------

  /** The `recognized_names` list for the face encodings `encs`, in detection order. */
  function RecognizedNames<Encoding>(g: Gallery<Encoding>, isMatch: (Encoding, Encoding) -> bool,
                                     distance: (Encoding, Encoding) -> real, encs: seq<Encoding>): (r: seq<string>)
    requires g.Consistent()
    // one entry per face ...
    ensures |r| == |encs|
    // ... each a gallery identity or "Unknown"
    ensures forall i :: 0 <= i < |r| ==> r[i] == UNKNOWN || r[i] in g.classNames
    decreases |encs|
  {
    if encs == [] then []
    else
      RecognizedNames(g, isMatch, distance, encs[..|encs| - 1])
        + [NameOf(g.classNames, Decide(g, isMatch, distance, encs[|encs| - 1]))]
  }

  /** The post_attendance_face calls the handler makes for `encs`, in order. */
  function Notifications<Encoding>(g: Gallery<Encoding>, isMatch: (Encoding, Encoding) -> bool,
                                   distance: (Encoding, Encoding) -> real, encs: seq<Encoding>,
                                   clock: nat -> real): (r: seq<Call>)
    requires g.Consistent()
    // at most one call per face, always for a gallery identity
    ensures |r| <= |encs|
    ensures forall i :: 0 <= i < |r| ==> r[i].faceUid in g.classNames
    decreases |encs|
  {
    if encs == [] then []
    else
      var d := Decide(g, isMatch, distance, encs[|encs| - 1]);
      Notifications(g, isMatch, distance, encs[..|encs| - 1], clock)
        + (if d.Some? then [Call(g.classNames[d.value], clock(|encs| - 1))] else [])
  }

  /** zip(encodings, faces): the encodings that have a location, in order. */
  function Zipped<Encoding>(encodings: seq<Encoding>, faces: seq<Box>): (r: seq<Encoding>)
    ensures |r| <= |encodings| && |r| <= |faces| && r == encodings[..|r|]
    ensures |r| == |encodings| || |r| == |faces|
  {
    if |encodings| <= |faces| then encodings else encodings[..|faces|]
  }

  /**
    The body of the per-face loop: classify one face encoding, and post the
    identity when it is recognised.  `now` is what time() returns inside
    post_attendance_face.
  */
  method RecognizeFace<Encoding>(
      g: Gallery<Encoding>, tracker: DebounceTracker, encodeFace: Encoding,
      isMatch: (Encoding, Encoding) -> bool, distance: (Encoding, Encoding) -> real, now: real)
    returns (name: string)
    requires g.Consistent() && tracker.Valid()
    modifies tracker
    ensures tracker.Valid()
    ensures var d := Decide(g, isMatch, distance, encodeFace);
            && name == NameOf(g.classNames, d)
            && tracker.State() == (if d.Some? then PostAttendance(old(tracker.State()), name, now)
                                   else old(tracker.State()))
  {
    var matches := PerKnown(g.encodeListKnown, encodeFace, isMatch);
    var faceDis := PerKnown(g.encodeListKnown, encodeFace, distance);
    if |faceDis| == 0 {
      return UNKNOWN;
    }
    var matchIndex := ArgMin(faceDis);
    if matches[matchIndex] {
      name := g.classNames[matchIndex];
      tracker.PostAttendanceFace(name, now);
    } else {
      name := UNKNOWN;
    }
  }

  /** The loop over zip(encodings, faces), building `recognized_names`. */
  method RecognizeFaces<Encoding>(
      g: Gallery<Encoding>, tracker: DebounceTracker, encodings: seq<Encoding>, faces: seq<Box>,
      isMatch: (Encoding, Encoding) -> bool, distance: (Encoding, Encoding) -> real, clock: nat -> real)
    returns (recognizedNames: seq<string>)
    requires g.Consistent() && tracker.Valid()
    modifies tracker
    ensures tracker.Valid()
    ensures recognizedNames == RecognizedNames(g, isMatch, distance, Zipped(encodings, faces))
    ensures tracker.State() ==
              PostAll(old(tracker.State()), Notifications(g, isMatch, distance, Zipped(encodings, faces), clock))
  {
    var pairs := if |encodings| < |faces| then |encodings| else |faces|;
    ghost var encs := Zipped(encodings, faces);
    assert encs == encodings[..pairs];
    recognizedNames := [];
    var i := 0;
    while i < pairs
      invariant 0 <= i <= pairs
      invariant tracker.Valid()
      invariant recognizedNames == RecognizedNames(g, isMatch, distance, encs[..i])
      invariant tracker.State() == PostAll(old(tracker.State()), Notifications(g, isMatch, distance, encs[..i], clock))
    {
      assert encs[i] == encodings[i];
      ExtendByOneFace(g, isMatch, distance, encs, clock, i);
      ghost var calls := Notifications(g, isMatch, distance, encs[..i], clock);
      var name := RecognizeFace(g, tracker, encodings[i], isMatch, distance, clock(i));
      if Decide(g, isMatch, distance, encodings[i]).Some? {
        PostAllAppend(old(tracker.State()), calls, Call(name, clock(i)));
      } else {
        assert calls + [] == calls;
      }
      recognizedNames := recognizedNames + [name];
      i := i + 1;
    }
    assert encs[..pairs] == encs;
  }

  /**
    The handler after the body bytes have been given to the codec, which
    produced `decoded`.  `locate` is face_locations, `encodeAt` is
    face_encodings with locations.
  */
  method Recognize<Image, Encoding>(
      g: Gallery<Encoding>, tracker: DebounceTracker, decoded: Option<Image>,
      locate: Image -> seq<Box>, encodeAt: (Image, seq<Box>) -> seq<Encoding>,
      isMatch: (Encoding, Encoding) -> bool, distance: (Encoding, Encoding) -> real,
      clock: nat -> real)
    returns (resp: Response)
    requires g.Consistent() && tracker.Valid()
    modifies tracker
    ensures tracker.Valid()
    // an undecodable body is a client error and posts nothing
    ensures decoded.None? ==>
              resp == BadRequest(INVALID_IMAGE) && tracker.State() == old(tracker.State())
    // otherwise: one name per face, and the posts of the recognised faces
    ensures decoded.Some? ==>
              var faces := locate(decoded.value);
              var encs := Zipped(encodeAt(decoded.value, faces), faces);
              && resp == Recognized(RecognizedNames(g, isMatch, distance, encs))
              && tracker.State() == PostAll(old(tracker.State()), Notifications(g, isMatch, distance, encs, clock))
  {
    if decoded.None? {
      return BadRequest(INVALID_IMAGE);
    }
    var img := decoded.value;
    var faces := locate(img);
    var encodings := encodeAt(img, faces);
    var recognizedNames := RecognizeFaces(g, tracker, encodings, faces, isMatch, distance, clock);
    resp := Recognized(recognizedNames);
  }

  /** What handling face i adds to the names and to the calls made for faces 0 .. i-1. */
  lemma ExtendByOneFace<Encoding>(g: Gallery<Encoding>, isMatch: (Encoding, Encoding) -> bool,
                                  distance: (Encoding, Encoding) -> real, encs: seq<Encoding>,
                                  clock: nat -> real, i: nat)
    requires g.Consistent() && i < |encs|
    ensures var d := Decide(g, isMatch, distance, encs[i]);
            && RecognizedNames(g, isMatch, distance, encs[..i + 1])
                 == RecognizedNames(g, isMatch, distance, encs[..i]) + [NameOf(g.classNames, d)]
            && Notifications(g, isMatch, distance, encs[..i + 1], clock)
                 == Notifications(g, isMatch, distance, encs[..i], clock)
                    + (if d.Some? then [Call(g.classNames[d.value], clock(i))] else [])
  {
    assert encs[..i + 1][..i] == encs[..i];
  }

  // ---------------------------------------------------------------------
  // Properties of a request
  // ---------------------------------------------------------------------

  /** With an empty gallery every face is "Unknown" and nobody is notified. */
  lemma {:induction false} EmptyGalleryAllUnknown<Encoding>(g: Gallery<Encoding>, isMatch: (Encoding, Encoding) -> bool,
                                                          distance: (Encoding, Encoding) -> real, encs: seq<Encoding>,
                                                          clock: nat -> real)
    requires g.Consistent() && g.encodeListKnown == []
    ensures forall i :: 0 <= i < |encs| ==> RecognizedNames(g, isMatch, distance, encs)[i] == UNKNOWN
    ensures Notifications(g, isMatch, distance, encs, clock) == []
    decreases |encs|
  {
    if encs != [] {
      var init := encs[..|encs| - 1];
      EmptyGalleryAllUnknown(g, isMatch, distance, init, clock);
    }
  }

  /**
    Face i is reported under a gallery identity exactly when it is
    recognised, and "Unknown" otherwise.
  */
  lemma {:induction false} NameIsDecision<Encoding>(g: Gallery<Encoding>, isMatch: (Encoding, Encoding) -> bool,
                                                  distance: (Encoding, Encoding) -> real, encs: seq<Encoding>, i: nat)
    requires g.Consistent() && i < |encs|
    ensures var d := Decide(g, isMatch, distance, encs[i]);
            RecognizedNames(g, isMatch, distance, encs)[i] == (if d.Some? then g.classNames[d.value] else UNKNOWN)
    decreases |encs|
  {
    if i < |encs| - 1 {
      var init := encs[..|encs| - 1];
      NameIsDecision(g, isMatch, distance, init, i);
    }
  }

  /** Nobody is notified exactly when no face of the request is recognised. */
  lemma {:induction false} NoNotificationIffNoneRecognised<Encoding>(g: Gallery<Encoding>, isMatch: (Encoding, Encoding) -> bool,
                                                                   distance: (Encoding, Encoding) -> real, encs: seq<Encoding>,
                                                                   clock: nat -> real)
    requires g.Consistent()
    ensures Notifications(g, isMatch, distance, encs, clock) == [] <==>
              forall i :: 0 <= i < |encs| ==> Decide(g, isMatch, distance, encs[i]).None?
    decreases |encs|
  {
    if encs != [] {
      var init := encs[..|encs| - 1];
      var last := encs[|encs| - 1];
      NoNotificationIffNoneRecognised(g, isMatch, distance, init, clock);
      var d := Decide(g, isMatch, distance, last);
      var prior := Notifications(g, isMatch, distance, init, clock);
      assert Notifications(g, isMatch, distance, encs, clock)
        == prior + (if d.Some? then [Call(g.classNames[d.value], clock(|encs| - 1))] else []);
      if forall i :: 0 <= i < |encs| ==> Decide(g, isMatch, distance, encs[i]).None? {
        assert forall i :: 0 <= i < |init| ==> init[i] == encs[i];
        assert prior == [] && d.None?;
      } else {
        var j :| 0 <= j < |encs| && Decide(g, isMatch, distance, encs[j]).Some?;
        if j < |init| {
          assert init[j] == encs[j];
          assert prior != [];
        } else {
          assert d.Some?;
        }
      }
    }
  }

  /**
    The same one-face image submitted twice, the second time less than the
    debounce window after the first: at most one attendance event is posted
    for the two requests together.
  */
  lemma RepeatedRequestPostsAtMostOnce<Encoding>(g: Gallery<Encoding>, isMatch: (Encoding, Encoding) -> bool,
                                                 distance: (Encoding, Encoding) -> real, face: Encoding,
                                                 s: DebounceState, t1: real, t2: real)
    requires g.Consistent()
    requires t2 - t1 < DEBOUNCE_SECONDS
    ensures var first := PostAll(s, Notifications(g, isMatch, distance, [face], _ => t1));
            var second := PostAll(first, Notifications(g, isMatch, distance, [face], _ => t2));
            |second.posted| <= |s.posted| + 1
  {
    assert [face][..0] == [];
    var d := Decide(g, isMatch, distance, face);
    if d.Some? {
      var name := g.classNames[d.value];
      assert Notifications(g, isMatch, distance, [face], _ => t1) == [Call(name, t1)];
      assert Notifications(g, isMatch, distance, [face], _ => t2) == [Call(name, t2)];
      assert [Call(name, t1)][..0] == [];
      assert [Call(name, t2)][..0] == [];
      var first := PostAttendance(s, name, t1);
      assert PostAll(s, [Call(name, t1)]) == first;
      assert PostAll(first, [Call(name, t2)]) == PostAttendance(first, name, t2);
      if !Suppressed(s.lastPostTime, name, t1) {
        assert LastPostTime(first.lastPostTime, name) == t1;
      }
    }
  }

  // ---------------------------------------------------------------------
  // The start-up gallery, as written
  // ---------------------------------------------------------------------

  /** The encoding used in the example below: images are numbers, a face is its own number. */
  function SameFace(known: int, face: int): bool { known == face }

  /** Distance between two example encodings. */
  function Gap(known: int, face: int): real { if known <= face then (face - known) as real else (known - face) as real }

  /** Image 1 shows no face; image 2 shows face 7. */
  function ExampleFaces(img: int): seq<int> { if img == 2 then [7] else [] }

  /** "ani.jpg" decodes to image 1, "budi.jpg" to image 2. */
  const ExampleListing: seq<DirEntry<int>> := [DirEntry("ani.jpg", Some(1)), DirEntry("budi.jpg", Some(2))]

  /** The start-up lists of the example directory: two names, one encoding. */
  lemma ExampleGalleryDrifts()
    ensures LoadedNames(ExampleListing) == ["ani", "budi"]
    ensures FirstEncodings(LoadedImages(ExampleListing), ExampleFaces) == [7]
  {
    var listing := ExampleListing;
    assert listing[..1] == [DirEntry("ani.jpg", Some(1))];
    assert [DirEntry("ani.jpg", Some(1))][..0] == [];
    assert "ani"[0] != '.' && "budi"[0] != '.';
    StemOfJoin("ani", "jpg");
    StemOfJoin("budi", "jpg");
    assert "ani" + "." + "jpg" == "ani.jpg";
    assert "budi" + "." + "jpg" == "budi.jpg";
    assert LoadedImages(listing) == [1, 2];
    assert [1, 2][..1] == [1];
    assert [1][..0] == [];
  }

  /**
    The drift between the two start-up lists misnames faces.  The directory
    holds "ani.jpg" (it decodes, but no face is found in it) and "budi.jpg"
    (face 7).  The gallery then pairs the name "ani" with budi's encoding, so
    budi's face is reported as "ani" and "ani" is notified.
  */
  lemma MisattributedWhenAnImageHasNoFace()
    ensures var g := Gallery(LoadedNames(ExampleListing), FirstEncodings(LoadedImages(ExampleListing), ExampleFaces));
            && RecognizedNames(g, SameFace, Gap, [7]) == ["ani"]
            && Notifications(g, SameFace, Gap, [7], _ => 10.0) == [Call("ani", 10.0)]
  {
    ExampleGalleryDrifts();
    var g := Gallery(["ani", "budi"], [7]);
    assert PerKnown([7], 7, Gap) == [0.0];
    assert PerKnown([7], 7, SameFace) == [true];
    assert Decide(g, SameFace, Gap, 7) == Some(0);
    assert [7][..0] == [];
  }
}
