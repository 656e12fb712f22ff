/** The per-body part of the capture loop (main.cpp, lines 103-133): each detected body
    becomes a `BodyPosition` built from its pelvis joint, and a "both hands raised" flag
    decides whether the pelvis position is echoed to the console. */
module Extraction {
  import opened Kinect
  import opened Tracking

  /** Joint `a` is physically higher than joint `b`: the y axis points towards the ground. */
  predicate IsAbove(a: Float3, b: Float3) {
    a.y < b.y
  }

  /** `bothHandsAreRaised`: each wrist is strictly above the head. */
  predicate BothHandsAreRaised(s: Skeleton) {
    IsAbove(s.wristLeft, s.head) && IsAbove(s.wristRight, s.head)
  }

  /** The y of whichever wrist hangs lower. */
  function LowerWristY(s: Skeleton): (y: real)
    ensures y >= s.wristLeft.y && y >= s.wristRight.y
    ensures y == s.wristLeft.y || y == s.wristRight.y
  {
    if s.wristLeft.y < s.wristRight.y then s.wristRight.y else s.wristLeft.y
  }

  /** Both hands are raised exactly when even the lower wrist is above the head. */
  lemma RaisedIffLowerWristAboveHead(s: Skeleton)
    ensures BothHandsAreRaised(s) <==> LowerWristY(s) < s.head.y
  {
  }

  /** One raised hand is not enough, and a wrist level with the head does not count as raised. */
  lemma OneHandOrLevelWristIsNotRaised(s: Skeleton)
    requires IsAbove(s.wristLeft, s.head) != IsAbove(s.wristRight, s.head)
          || s.wristLeft.y == s.head.y || s.wristRight.y == s.head.y
    ensures !BothHandsAreRaised(s)
  {
  }

  /** The flag reads only the y coordinates of the wrists and the head: moving the pelvis or
      any joint sideways or in depth does not change it. */
  lemma RaisedDependsOnlyOnWristAndHeadHeights(s: Skeleton, t: Skeleton)
    requires s.wristLeft.y == t.wristLeft.y && s.wristRight.y == t.wristRight.y && s.head.y == t.head.y
    ensures BothHandsAreRaised(s) <==> BothHandsAreRaised(t)
  {
  }

  /** The truth table of the gesture rule with the head at height 0. */
  lemma RaisedTruthTable(pelvis: Float3)
    ensures BothHandsAreRaised(Skeleton(pelvis, Float3(0.0, -1.0, 0.0), Float3(0.0, -1.0, 0.0), Float3(0.0, 0.0, 0.0)))
    ensures !BothHandsAreRaised(Skeleton(pelvis, Float3(0.0, -1.0, 0.0), Float3(0.0, 1.0, 0.0), Float3(0.0, 0.0, 0.0)))
    ensures !BothHandsAreRaised(Skeleton(pelvis, Float3(0.0, 1.0, 0.0), Float3(0.0, 1.0, 0.0), Float3(0.0, 0.0, 0.0)))
    ensures !BothHandsAreRaised(Skeleton(pelvis, Float3(0.0, -1.0, 0.0), Float3(0.0, 0.0, 0.0), Float3(0.0, 0.0, 0.0)))
  {
  }

  /** The record the loop pushes for one body: its id and its pelvis coordinates. */
  function ToBodyPosition(id: uint32, s: Skeleton): BodyPosition {
    BodyPosition(id, s.pelvis.x, s.pelvis.y, s.pelvis.z)
  }

  /** The coordinates a `BodyPosition` carries, as a joint position. */
  function Coordinates(p: BodyPosition): Float3 {
    Float3(p.x, p.y, p.z)
  }

  /** Nothing of the body but its id and its pelvis reaches the record, and both can be read back. */
  lemma ToBodyPositionKeepsIdAndPelvis(id: uint32, s: Skeleton)
    ensures ToBodyPosition(id, s).id == id
    ensures Coordinates(ToBodyPosition(id, s)) == s.pelvis
  {
  }

  /** `k4abt_frame_get_body_skeleton` succeeded for every body of the frame, so no
      `VERIFY` ends the process. */
  predicate AllFetched(frame: seq<BodyEntry>) {
    forall i :: 0 <= i < |frame| ==> frame[i].skeleton.Some?
  }

  /** The records of a frame whose skeletons were all fetched, in body-index order. */
  function Positions(frame: seq<BodyEntry>): seq<BodyPosition>
    requires AllFetched(frame)
  {
    seq(|frame|, i requires 0 <= i < |frame| => ToBodyPosition(frame[i].id, frame[i].skeleton.value))
  }

  /** The pelvis positions echoed to the console: those of the bodies with both hands
      raised, in body-index order. */
  function Highlights(frame: seq<BodyEntry>): (hs: seq<Float3>)
    requires AllFetched(frame)
    ensures |hs| <= |frame|
    decreases |frame|
  {
    if |frame| == 0 then []
    else
      var s := frame[|frame| - 1].skeleton.value;
      Highlights(frame[..|frame| - 1]) + (if BothHandsAreRaised(s) then [s.pelvis] else [])
  }

  /** The result of a frame's body loop: the filled snapshot and the echoed positions. */
  datatype Extracted = Extracted(bods: BodyTracking, highlighted: seq<Float3>)

  /** The body loop as a whole: `None` when a skeleton fetch fails (the process exits). */
  function ExtractFrame(clock: int64, frame: seq<BodyEntry>): Option<Extracted> {
    if AllFetched(frame) then Some(Extracted(BodyTracking(clock, Positions(frame)), Highlights(frame)))
    else None
  }

  /** The loop of lines 103-133 over a fresh snapshot: for body `i` in index order, fetch the
      skeleton (stopping at the first failure), compute the flag, push the pelvis record,
      and echo the pelvis when the flag is set. */
  method ExtractBodies(clock: int64, frame: seq<BodyEntry>) returns (r: Option<Extracted>)
    ensures r.Some? <==> AllFetched(frame)
    ensures r.Some? ==> r.value.bods.time == clock && |r.value.bods.bodies| == |frame|
    ensures r.Some? ==> forall i :: 0 <= i < |frame| ==>
              r.value.bods.bodies[i].id == frame[i].id
              && Coordinates(r.value.bods.bodies[i]) == frame[i].skeleton.value.pelvis
    ensures r.Some? ==> r.value.bods == PushAll(New(clock), Positions(frame))
    ensures r == ExtractFrame(clock, frame)
  {
    var bods := New(clock);
    var highlighted: seq<Float3> := [];
    var i := 0;
    while i < |frame|
      invariant 0 <= i <= |frame|
      invariant AllFetched(frame[..i])
      invariant bods == BodyTracking(clock, Positions(frame[..i]))
      invariant highlighted == Highlights(frame[..i])
    {
      var fetched := frame[i].skeleton;
      if fetched.None? {
        return None;
      }
      var skeleton := fetched.value;
      var raised := BothHandsAreRaised(skeleton);
      bods := PushBack(bods, ToBodyPosition(frame[i].id, skeleton));
      if raised {
        highlighted := highlighted + [skeleton.pelvis];
      }
      assert frame[..i + 1][..i] == frame[..i];
      i := i + 1;
    }
    assert frame[..i] == frame;
    PushAllFromNew(clock, Positions(frame));
    r := Some(Extracted(bods, highlighted));
  }

  /** The flag has no influence on the snapshot: two frames that agree on ids and pelvis
      positions, whatever their wrists and heads, give the same snapshot. */
  lemma SnapshotIgnoresGesture(clock: int64, f: seq<BodyEntry>, g: seq<BodyEntry>)
    requires AllFetched(f) && AllFetched(g) && |f| == |g|
    requires forall i :: 0 <= i < |f| ==>
               f[i].id == g[i].id && f[i].skeleton.value.pelvis == g[i].skeleton.value.pelvis
    ensures ExtractFrame(clock, f).value.bods == ExtractFrame(clock, g).value.bods
  {
  }

  /** The echoed positions are exactly the pelvises of the bodies whose hands are both raised:
      every echoed position is one, and every such body's pelvis is echoed. */
  lemma {:induction false} HighlightsAreRaisedPelvises(frame: seq<BodyEntry>)
    requires AllFetched(frame)
    ensures forall h :: h in Highlights(frame) ==>
              exists i :: 0 <= i < |frame| && BothHandsAreRaised(frame[i].skeleton.value)
                                            && frame[i].skeleton.value.pelvis == h
    ensures forall i :: 0 <= i < |frame| && BothHandsAreRaised(frame[i].skeleton.value) ==>
              frame[i].skeleton.value.pelvis in Highlights(frame)
    decreases |frame|
  {
    if |frame| > 0 {
      var front := frame[..|frame| - 1];
      HighlightsAreRaisedPelvises(front);
      forall i | 0 <= i < |frame| && BothHandsAreRaised(frame[i].skeleton.value)
        ensures frame[i].skeleton.value.pelvis in Highlights(frame)
      {
        if i < |frame| - 1 {
          assert front[i] == frame[i];
        }
      }
      forall h | h in Highlights(frame)
        ensures exists i :: 0 <= i < |frame| && BothHandsAreRaised(frame[i].skeleton.value)
                                              && frame[i].skeleton.value.pelvis == h
      {
        if h in Highlights(front) {
          var i :| 0 <= i < |front| && BothHandsAreRaised(front[i].skeleton.value)
                                    && front[i].skeleton.value.pelvis == h;
          assert frame[i] == front[i];
        } else {
          assert frame[|frame| - 1].skeleton.value.pelvis == h;
        }
      }
    }
  }

  /** No filtering or de-duplication: two bodies reported with the same id both land in the
      snapshot, in order. */
  lemma DuplicateIdsAreKept(clock: int64, id: uint32, s: Skeleton, t: Skeleton)
    ensures var frame := [BodyEntry(id, Some(s)), BodyEntry(id, Some(t))];
      ExtractFrame(clock, frame) ==
        Some(Extracted(BodyTracking(clock, [ToBodyPosition(id, s), ToBodyPosition(id, t)]),
                       Highlights(frame)))
  {
    var frame := [BodyEntry(id, Some(s)), BodyEntry(id, Some(t))];
    assert AllFetched(frame);
    assert Positions(frame) == [ToBodyPosition(id, s), ToBodyPosition(id, t)];
  }
}
