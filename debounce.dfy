/**
  The debounce tracker and the attendance notifier of the face server
  (post_attendance_face in face_server.py).

  The process keeps a map from identity to the time of its last post.  A
  notification for an identity is suppressed while fewer than
  DEBOUNCE_SECONDS have passed since that time (an identity never seen
  counts as last posted at time 0); otherwise the map entry is set to the
  current time and an attendance event is posted.  The post itself is
  network I/O: here it is the event appended to a history of posts.
*/
module Debounce {

  /** Device identifier sent in every attendance event. */
  const DEVICE_ID: string := "ESP32_001"

  /** Minimum number of seconds between two posts for one identity. */
  const DEBOUNCE_SECONDS: real := 3.0

  /** An attendance event posted to the attendance endpoint, with the clock reading it was sent at. */
  datatype Notification = Notification(deviceId: string, faceUid: string, sentAt: real)

  /** A request to notify `faceUid`, made when the clock reads `at`. */
  datatype Call = Call(faceUid: string, at: real)

  /** The map of last post times and the posts made so far, in order. */
  datatype DebounceState = DebounceState(lastPostTime: map<string, real>, posted: seq<Notification>)

  /** The state at process start: nothing seen, nothing posted. */
  const Initial: DebounceState := DebounceState(map[], [])

  /** The last post time of `faceUid`, or 0 for an identity never posted. */
  function LastPostTime(m: map<string, real>, faceUid: string): real
  {
    if faceUid in m then m[faceUid] else 0.0
  }

  /** The debounce check fails: the last post was too recent. */
  predicate Suppressed(m: map<string, real>, faceUid: string, now: real)
  {
    now - LastPostTime(m, faceUid) < DEBOUNCE_SECONDS
  }

  /** One call of post_attendance_face at clock reading `now`. */
  function PostAttendance(s: DebounceState, faceUid: string, now: real): (r: DebounceState)
    // a suppressed call changes nothing and posts nothing
    ensures Suppressed(s.lastPostTime, faceUid, now) ==> r == s
    // an allowed call posts exactly one event for this identity ...
    ensures !Suppressed(s.lastPostTime, faceUid, now) ==>
              r.posted == s.posted + [Notification(DEVICE_ID, faceUid, now)]
    // ... and records `now` as its last post time
    ensures !Suppressed(s.lastPostTime, faceUid, now) ==>
              faceUid in r.lastPostTime && r.lastPostTime[faceUid] == now
    // no other identity's entry changes
    ensures r.lastPostTime - {faceUid} == s.lastPostTime - {faceUid}
  {
    if Suppressed(s.lastPostTime, faceUid, now) then s
    else DebounceState(s.lastPostTime[faceUid := now],
                       s.posted + [Notification(DEVICE_ID, faceUid, now)])
  }

  /** A sequence of calls made one after the other, in order. */
  function PostAll(s: DebounceState, calls: seq<Call>): (r: DebounceState)
    // posts are only ever appended, at most one per call
    ensures |s.posted| <= |r.posted| <= |s.posted| + |calls|
    ensures r.posted[..|s.posted|] == s.posted
    decreases |calls|
  {
    if calls == [] then s
    else
      var last := calls[|calls| - 1];
      PostAttendance(PostAll(s, calls[..|calls| - 1]), last.faceUid, last.at)
  }

  /** A further call acts on the state the earlier calls left. */
  lemma PostAllAppend(s: DebounceState, calls: seq<Call>, c: Call)
    ensures PostAll(s, calls + [c]) == PostAttendance(PostAll(s, calls), c.faceUid, c.at)
  {
    assert (calls + [c])[..|calls|] == calls;
  }

  /** Every posted identity has an entry no earlier than each of its posts. */
  ghost predicate Coherent(s: DebounceState)
  {
    forall i :: 0 <= i < |s.posted| ==>
      s.posted[i].faceUid in s.lastPostTime && s.posted[i].sentAt <= s.lastPostTime[s.posted[i].faceUid]
  }

  /** Any two posts for one identity are at least DEBOUNCE_SECONDS apart, later after earlier. */
  ghost predicate WellSpaced(posted: seq<Notification>)
  {
    forall i, j :: 0 <= i < j < |posted| && posted[i].faceUid == posted[j].faceUid ==>
      posted[j].sentAt - posted[i].sentAt >= DEBOUNCE_SECONDS
  }

  /** One call keeps the posts of each identity spaced by the debounce window. */
  lemma PostAttendanceKeepsSpacing(s: DebounceState, faceUid: string, now: real)
    requires Coherent(s) && WellSpaced(s.posted)
    ensures Coherent(PostAttendance(s, faceUid, now))
    ensures WellSpaced(PostAttendance(s, faceUid, now).posted)
  {
    var r := PostAttendance(s, faceUid, now);
    if !Suppressed(s.lastPostTime, faceUid, now) {
      forall i | 0 <= i < |r.posted|
        ensures r.posted[i].faceUid in r.lastPostTime
        ensures r.posted[i].sentAt <= r.lastPostTime[r.posted[i].faceUid]
      {
        if i < |s.posted| && s.posted[i].faceUid == faceUid {
          assert s.posted[i].sentAt <= LastPostTime(s.lastPostTime, faceUid);
        }
      }
      forall i, j | 0 <= i < j < |r.posted| && r.posted[i].faceUid == r.posted[j].faceUid
        ensures r.posted[j].sentAt - r.posted[i].sentAt >= DEBOUNCE_SECONDS
      {
        if j == |s.posted| {
          assert s.posted[i].sentAt <= LastPostTime(s.lastPostTime, faceUid);
        }
      }
    }
  }

  /**
    However many calls are made, at whatever clock readings, no identity is
    posted twice within the debounce window.
  */
  lemma {:induction false} PostAllKeepsSpacing(s: DebounceState, calls: seq<Call>)
    requires Coherent(s) && WellSpaced(s.posted)
    ensures Coherent(PostAll(s, calls)) && WellSpaced(PostAll(s, calls).posted)
    decreases |calls|
  {
    if calls != [] {
      var last := calls[|calls| - 1];
      PostAllKeepsSpacing(s, calls[..|calls| - 1]);
      PostAttendanceKeepsSpacing(PostAll(s, calls[..|calls| - 1]), last.faceUid, last.at);
    }
  }

  /** The process starts with no posts, so every history it produces is spaced. */
  lemma FromStartWellSpaced(calls: seq<Call>)
    ensures WellSpaced(PostAll(Initial, calls).posted)
    ensures forall i :: 0 <= i < |PostAll(Initial, calls).posted| ==>
              PostAll(Initial, calls).posted[i].deviceId == DEVICE_ID
  {
    PostAllKeepsSpacing(Initial, calls);
    DeviceIdAlwaysSent(Initial, calls);
  }

  /** Every event posted carries the configured device identifier. */
  lemma {:induction false} DeviceIdAlwaysSent(s: DebounceState, calls: seq<Call>)
    requires forall i :: 0 <= i < |s.posted| ==> s.posted[i].deviceId == DEVICE_ID
    ensures forall i :: 0 <= i < |PostAll(s, calls).posted| ==> PostAll(s, calls).posted[i].deviceId == DEVICE_ID
    decreases |calls|
  {
    if calls != [] {
      DeviceIdAlwaysSent(s, calls[..|calls| - 1]);
    }
  }

  /** Two calls for one identity less than the window apart post at most once. */
  lemma AtMostOnePostWithinWindow(s: DebounceState, faceUid: string, t1: real, t2: real)
    requires t2 - t1 < DEBOUNCE_SECONDS
    ensures |PostAll(s, [Call(faceUid, t1), Call(faceUid, t2)]).posted| <= |s.posted| + 1
  {
    var calls := [Call(faceUid, t1), Call(faceUid, t2)];
    assert calls[..1] == [Call(faceUid, t1)];
    assert [Call(faceUid, t1)][..0] == [];
  }

  /** After an allowed call, a call at least the window later posts as well. */
  lemma BothPostWhenApart(s: DebounceState, faceUid: string, t1: real, t2: real)
    requires !Suppressed(s.lastPostTime, faceUid, t1)
    requires t2 - t1 >= DEBOUNCE_SECONDS
    ensures PostAll(s, [Call(faceUid, t1), Call(faceUid, t2)]).posted ==
              s.posted + [Notification(DEVICE_ID, faceUid, t1), Notification(DEVICE_ID, faceUid, t2)]
  {
    var calls := [Call(faceUid, t1), Call(faceUid, t2)];
    assert calls[..1] == [Call(faceUid, t1)];
    assert [Call(faceUid, t1)][..0] == [];
    var first := PostAttendance(s, faceUid, t1);
    assert PostAll(s, calls[..1]) == first;
    assert LastPostTime(first.lastPostTime, faceUid) == t1;
  }

  /**
    The process-wide tracker: `lastPostTimeByFace` is the module-level
    dictionary of the server, `posted` the attendance events sent so far.
  */
  class DebounceTracker {
    var lastPostTimeByFace: map<string, real>
    ghost var posted: seq<Notification>

    ghost function State(): DebounceState
      reads this
    {
      DebounceState(lastPostTimeByFace, posted)
    }

    /** The object invariant: the map covers every post, and posts of one identity are spaced. */
    ghost predicate Valid()
      reads this
    {
      Coherent(State()) && WellSpaced(posted)
    }

    constructor ()
      ensures Valid() && State() == Initial
    {
      lastPostTimeByFace := map[];
      posted := [];
    }

    /** post_attendance_face(faceUid), with `now` the value time() returned. */
    method PostAttendanceFace(faceUid: string, now: real)
      requires Valid()
      modifies this
      ensures Valid()
      ensures State() == PostAttendance(old(State()), faceUid, now)
    {
      PostAttendanceKeepsSpacing(State(), faceUid, now);
      var lastTs := if faceUid in lastPostTimeByFace then lastPostTimeByFace[faceUid] else 0.0;
      if now - lastTs < DEBOUNCE_SECONDS {
        return;
      }
      lastPostTimeByFace := lastPostTimeByFace[faceUid := now];
      posted := posted + [Notification(DEVICE_ID, faceUid, now)];
    }
  }
}
