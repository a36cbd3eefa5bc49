/**
 The joint overlay of the skeleton sample (Kinect_Skeleton): on every
 skeleton frame the canvas is cleared and one circle of radius 5 is added
 for every joint that is not `NotTracked` of every skeleton that is
 `Tracked`, centred on the joint's position projected into the colour image.
 */
module SkeletonView {

  import opened CSharpInt

  datatype SkeletonTrackingState = NotTracked | PositionOnly | Tracked

  datatype JointTrackingState = NotTracked | Inferred | Tracked

  /** A position in skeleton space (metres). */
  datatype SkeletonPoint = SkeletonPoint(x: real, y: real, z: real)

  /** A pixel position in the colour image; the SDK's coordinates are C# `int`s. */
  datatype ColorImagePoint = ColorImagePoint(x: Int32, y: Int32)

  datatype Joint = Joint(trackingState: JointTrackingState, position: SkeletonPoint)

  datatype Skeleton = Skeleton(trackingState: SkeletonTrackingState, joints: seq<Joint>)

  /** A circle on the canvas: its margin's left and top, and its size. */
  datatype Ellipse = Ellipse(left: int, top: int, width: int, height: int)

  /** The sensor's calibration from skeleton space to colour-image pixels. */
  type Projection = SkeletonPoint -> ColorImagePoint

  /** The circle radius. */
  const R: int := 5

  /** The point an ellipse is centred on, in unbounded coordinates. */
  function Centre(e: Ellipse): (int, int) {
    (e.left + e.width / 2, e.top + e.height / 2)
  }

  /** Whether `c - R` stays a C# `int`, so that the margin does not wrap. */
  predicate MarginFits(c: Int32) {
    InInt32(c - R)
  }

  /** The circle drawn for one joint position. Its margin is `point.X - R`
      and `point.Y - R` computed in unchecked C# `int` arithmetic: for a
      coordinate within R of `int.MinValue` the margin wraps to the far
      positive end. */
  function DrawEllipse(mapToColor: Projection, position: SkeletonPoint): (e: Ellipse)
    ensures e.width == e.height == 2 * R
    ensures MarginFits(mapToColor(position).x) ==> e.left == mapToColor(position).x - R
    ensures !MarginFits(mapToColor(position).x) ==> e.left == mapToColor(position).x - R + 0x1_0000_0000
    ensures MarginFits(mapToColor(position).y) ==> e.top == mapToColor(position).y - R
    ensures !MarginFits(mapToColor(position).y) ==> e.top == mapToColor(position).y - R + 0x1_0000_0000
    ensures MarginFits(mapToColor(position).x) && MarginFits(mapToColor(position).y) ==>
              Centre(e) == (mapToColor(position).x, mapToColor(position).y)
  {
    var point := mapToColor(position);
    Ellipse(WrapInt32(point.x - R), WrapInt32(point.y - R), R * 2, R * 2)
  }

  /* Two coordinates whose margins wrap to the same C# `int` are equal: the
     wrap is injective on `c - R` for every C# `int` c. */
  lemma MarginInjective(c1: Int32, c2: Int32)
    requires WrapInt32(c1 - R) == WrapInt32(c2 - R)
    ensures c1 == c2
  {
    WrapInt32Periodic(c1 - R, c2 - R);
    assert InInt32(c1) && InInt32(c2);
    var d := c1 - c2;
    assert -0x1_0000_0000 < d < 0x1_0000_0000;
    assert d % 0x1_0000_0000 == 0;
  }

  /* The circle is the one of diameter 2R whose margin is the projected point
     shifted by R, and no other circle: drawing is injective in the projected
     point, wrap-around included. */
  lemma DrawEllipseDeterminedByCentre(mapToColor: Projection, p1: SkeletonPoint, p2: SkeletonPoint)
    ensures DrawEllipse(mapToColor, p1) == DrawEllipse(mapToColor, p2) <==> mapToColor(p1) == mapToColor(p2)
  {
    var e1 := DrawEllipse(mapToColor, p1);
    var e2 := DrawEllipse(mapToColor, p2);
    if e1 == e2 {
      MarginInjective(mapToColor(p1).x, mapToColor(p2).x);
      MarginInjective(mapToColor(p1).y, mapToColor(p2).y);
    }
  }

  /** Whether a joint gets a marker: inferred joints are drawn as well as
      tracked ones. */
  predicate IsDrawn(j: Joint): (drawn: bool)
    ensures drawn <==> j.trackingState == JointTrackingState.Inferred || j.trackingState == JointTrackingState.Tracked
  {
    j.trackingState != JointTrackingState.NotTracked
  }

  /** Whether `e` is the marker drawn for joint `j`. */
  predicate MarkerOf(mapToColor: Projection, j: Joint, e: Ellipse) {
    IsDrawn(j) && e == DrawEllipse(mapToColor, j.position)
  }

  /** The markers of a tracked skeleton's joints, in joint order. */
  function JointMarkers(mapToColor: Projection, joints: seq<Joint>): (ms: seq<Ellipse>)
    ensures |ms| == DrawnCount(joints)
  {
    if |joints| == 0 then []
    else
      var rest := JointMarkers(mapToColor, joints[..|joints| - 1]);
      var j := joints[|joints| - 1];
      DrawnCountSnoc(joints);
      if IsDrawn(j) then rest + [DrawEllipse(mapToColor, j.position)] else rest
  }

  /** The markers one skeleton contributes. */
  function SkeletonMarkers(mapToColor: Projection, sk: Skeleton): (ms: seq<Ellipse>)
    ensures sk.trackingState != SkeletonTrackingState.Tracked ==> ms == []
    ensures sk.trackingState == SkeletonTrackingState.Tracked ==> |ms| == DrawnCount(sk.joints)
  {
    if sk.trackingState == SkeletonTrackingState.Tracked then JointMarkers(mapToColor, sk.joints) else []
  }

  /** The markers of a whole frame, in skeleton order. */
  function FrameMarkers(mapToColor: Projection, skeletons: seq<Skeleton>): (ms: seq<Ellipse>)
    ensures |ms| == TrackedDrawnCount(skeletons)
  {
    if |skeletons| == 0 then []
    else
      FrameMarkers(mapToColor, skeletons[..|skeletons| - 1])
        + SkeletonMarkers(mapToColor, skeletons[|skeletons| - 1])
  }

  /** The number of joints that get a marker. */
  function DrawnCount(joints: seq<Joint>): nat {
    |set j | 0 <= j < |joints| && IsDrawn(joints[j])|
  }

  /** The sum, over tracked skeletons, of their drawn joints. */
  function TrackedDrawnCount(skeletons: seq<Skeleton>): nat {
    if |skeletons| == 0 then 0
    else
      var sk := skeletons[|skeletons| - 1];
      TrackedDrawnCount(skeletons[..|skeletons| - 1])
        + (if sk.trackingState == SkeletonTrackingState.Tracked then DrawnCount(sk.joints) else 0)
  }

  /* Adding one more joint index adds one to the drawn count exactly when
     that joint is drawn. */
  lemma DrawnCountSnoc(joints: seq<Joint>)
    requires |joints| > 0
    ensures DrawnCount(joints)
      == DrawnCount(joints[..|joints| - 1]) + (if IsDrawn(joints[|joints| - 1]) then 1 else 0)
  {
    var n := |joints| - 1;
    var init := joints[..n];
    var all := set j | 0 <= j < |joints| && IsDrawn(joints[j]);
    var prev := set j | 0 <= j < n && IsDrawn(init[j]);
    if IsDrawn(joints[n]) {
      assert all == prev + {n};
    } else {
      assert all == prev;
    }
  }

  /* The frame's markers are its skeletons' markers concatenated in order. */
  lemma {:induction false} FrameMarkersAppend(mapToColor: Projection, a: seq<Skeleton>, b: seq<Skeleton>)
    ensures FrameMarkers(mapToColor, a + b) == FrameMarkers(mapToColor, a) + FrameMarkers(mapToColor, b)
    decreases |b|
  {
    if |b| == 0 {
      assert a + b == a;
    } else {
      var b' := b[..|b| - 1];
      var last := b[|b| - 1];
      assert (a + b)[..|a + b| - 1] == a + b';
      assert (a + b)[|a + b| - 1] == last;
      assert FrameMarkers(mapToColor, a + b) == FrameMarkers(mapToColor, a + b') + SkeletonMarkers(mapToColor, last);
      assert FrameMarkers(mapToColor, b) == FrameMarkers(mapToColor, b') + SkeletonMarkers(mapToColor, last);
      FrameMarkersAppend(mapToColor, a, b');
    }
  }

  /* A skeleton that is not tracked contributes no marker, wherever it is. */
  lemma UntrackedSkeletonAddsNothing(mapToColor: Projection, a: seq<Skeleton>, sk: Skeleton, b: seq<Skeleton>)
    requires sk.trackingState != SkeletonTrackingState.Tracked
    ensures FrameMarkers(mapToColor, a + [sk] + b) == FrameMarkers(mapToColor, a + b)
  {
    assert [sk][..0] == [];
    assert FrameMarkers(mapToColor, [sk]) == FrameMarkers(mapToColor, []) + SkeletonMarkers(mapToColor, sk) == [];
    FrameMarkersAppend(mapToColor, a, [sk]);
    assert FrameMarkers(mapToColor, a + [sk]) == FrameMarkers(mapToColor, a);
    FrameMarkersAppend(mapToColor, a + [sk], b);
    FrameMarkersAppend(mapToColor, a, b);
  }

  /* A joint list's markers are its parts' markers concatenated in order. */
  lemma {:induction false} JointMarkersAppend(mapToColor: Projection, a: seq<Joint>, b: seq<Joint>)
    ensures JointMarkers(mapToColor, a + b) == JointMarkers(mapToColor, a) + JointMarkers(mapToColor, b)
    decreases |b|
  {
    if |b| == 0 {
      assert a + b == a;
    } else {
      var b' := b[..|b| - 1];
      assert (a + b)[..|a + b| - 1] == a + b';
      JointMarkersAppend(mapToColor, a, b');
    }
  }

  /* Within a tracked skeleton a `NotTracked` joint contributes no marker and
     any other joint (inferred included) exactly its own circle, in place. */
  lemma JointContribution(mapToColor: Projection, a: seq<Joint>, j: Joint, b: seq<Joint>)
    ensures JointMarkers(mapToColor, a + [j] + b)
      == JointMarkers(mapToColor, a)
         + (if IsDrawn(j) then [DrawEllipse(mapToColor, j.position)] else [])
         + JointMarkers(mapToColor, b)
  {
    JointMarkersAppend(mapToColor, a + [j], b);
    JointMarkersAppend(mapToColor, a, [j]);
    assert [j][..0] == [];
  }

  /* One more skeleton adds its own markers, if it is tracked, and nothing else. */
  lemma FrameMarkersSnoc(mapToColor: Projection, skeletons: seq<Skeleton>, e: Ellipse)
    requires |skeletons| > 0
    ensures e in FrameMarkers(mapToColor, skeletons) <==>
      e in FrameMarkers(mapToColor, skeletons[..|skeletons| - 1])
        || (skeletons[|skeletons| - 1].trackingState == SkeletonTrackingState.Tracked
            && e in JointMarkers(mapToColor, skeletons[|skeletons| - 1].joints))
  {
  }

  /* One more joint adds its marker, if it has one, and nothing else. */
  lemma JointMarkersSnoc(mapToColor: Projection, joints: seq<Joint>, e: Ellipse)
    requires |joints| > 0
    ensures e in JointMarkers(mapToColor, joints) <==>
      e in JointMarkers(mapToColor, joints[..|joints| - 1]) || MarkerOf(mapToColor, joints[|joints| - 1], e)
  {
  }

  /* Every marker of a joint list is the marker of one of its joints; the
     lemma names that joint. */
  lemma {:induction false} JointMarkerWitness(mapToColor: Projection, joints: seq<Joint>, e: Ellipse) returns (j: nat)
    requires e in JointMarkers(mapToColor, joints)
    ensures j < |joints| && MarkerOf(mapToColor, joints[j], e)
  {
    var n := |joints| - 1;
    JointMarkersSnoc(mapToColor, joints, e);
    if MarkerOf(mapToColor, joints[n], e) {
      j := n;
    } else {
      j := JointMarkerWitness(mapToColor, joints[..n], e);
      assert joints[..n][j] == joints[j];
    }
  }

  /* The marker of every drawn joint is among the joint list's markers. */
  lemma {:induction false} JointMarkerPresent(mapToColor: Projection, joints: seq<Joint>, j: nat, e: Ellipse)
    requires j < |joints| && MarkerOf(mapToColor, joints[j], e)
    ensures e in JointMarkers(mapToColor, joints)
  {
    var n := |joints| - 1;
    JointMarkersSnoc(mapToColor, joints, e);
    if j < n {
      assert joints[..n][j] == joints[j];
      JointMarkerPresent(mapToColor, joints[..n], j, e);
    }
  }

  /* A marker is among a joint list's markers exactly when it is the circle
     of one of its joints that is not `NotTracked`. */
  lemma JointMarkersMembership(mapToColor: Projection, joints: seq<Joint>, e: Ellipse)
    ensures e in JointMarkers(mapToColor, joints) <==> exists j :: 0 <= j < |joints| && MarkerOf(mapToColor, joints[j], e)
  {
    if e in JointMarkers(mapToColor, joints) {
      var j := JointMarkerWitness(mapToColor, joints, e);
    }
    if exists j :: 0 <= j < |joints| && MarkerOf(mapToColor, joints[j], e) {
      var j :| 0 <= j < |joints| && MarkerOf(mapToColor, joints[j], e);
      JointMarkerPresent(mapToColor, joints, j, e);
    }
  }

  /* Every marker on the canvas is the marker of a drawn joint of a tracked
     skeleton; the lemma names the skeleton and the joint. */
  lemma {:induction false} FrameMarkerWitness(mapToColor: Projection, skeletons: seq<Skeleton>, e: Ellipse)
    returns (i: nat, j: nat)
    requires e in FrameMarkers(mapToColor, skeletons)
    ensures i < |skeletons| && skeletons[i].trackingState == SkeletonTrackingState.Tracked
    ensures j < |skeletons[i].joints| && MarkerOf(mapToColor, skeletons[i].joints[j], e)
  {
    var n := |skeletons| - 1;
    FrameMarkersSnoc(mapToColor, skeletons, e);
    if e in FrameMarkers(mapToColor, skeletons[..n]) {
      i, j := FrameMarkerWitness(mapToColor, skeletons[..n], e);
      assert skeletons[..n][i] == skeletons[i];
    } else {
      i := n;
      j := JointMarkerWitness(mapToColor, skeletons[n].joints, e);
    }
  }

  /* The marker of every drawn joint of every tracked skeleton is on the canvas. */
  lemma {:induction false} FrameMarkerPresent(mapToColor: Projection, skeletons: seq<Skeleton>, i: nat, j: nat, e: Ellipse)
    requires i < |skeletons| && skeletons[i].trackingState == SkeletonTrackingState.Tracked
    requires j < |skeletons[i].joints| && MarkerOf(mapToColor, skeletons[i].joints[j], e)
    ensures e in FrameMarkers(mapToColor, skeletons)
  {
    var n := |skeletons| - 1;
    FrameMarkersSnoc(mapToColor, skeletons, e);
    if i < n {
      assert skeletons[..n][i] == skeletons[i];
      FrameMarkerPresent(mapToColor, skeletons[..n], i, j, e);
    } else {
      JointMarkerPresent(mapToColor, skeletons[n].joints, j, e);
    }
  }

  /* A marker is on the canvas exactly when it is the circle of some joint
     that is not `NotTracked` in some tracked skeleton. */
  lemma FrameMarkersMembership(mapToColor: Projection, skeletons: seq<Skeleton>, e: Ellipse)
    ensures e in FrameMarkers(mapToColor, skeletons) <==>
      exists i, j :: 0 <= i < |skeletons| && skeletons[i].trackingState == SkeletonTrackingState.Tracked
        && 0 <= j < |skeletons[i].joints| && MarkerOf(mapToColor, skeletons[i].joints[j], e)
  {
    if e in FrameMarkers(mapToColor, skeletons) {
      var i, j := FrameMarkerWitness(mapToColor, skeletons, e);
    }
    if exists i, j :: 0 <= i < |skeletons| && skeletons[i].trackingState == SkeletonTrackingState.Tracked
        && 0 <= j < |skeletons[i].joints| && MarkerOf(mapToColor, skeletons[i].joints[j], e)
    {
      var i, j :| 0 <= i < |skeletons| && skeletons[i].trackingState == SkeletonTrackingState.Tracked
        && 0 <= j < |skeletons[i].joints| && MarkerOf(mapToColor, skeletons[i].joints[j], e);
      FrameMarkerPresent(mapToColor, skeletons, i, j, e);
    }
  }

  /** The skeleton-frame handler's drawing: the canvas is cleared, then each
      tracked skeleton's drawn joints are appended, skeleton by skeleton and
      joint by joint. The handler starts with `Children.Clear()`, so the
      result does not depend on `canvas`, the children before the frame. */
  method DrawSkeleton(canvas: seq<Ellipse>, mapToColor: Projection, skeletons: seq<Skeleton>)
    returns (children: seq<Ellipse>)
    ensures children == FrameMarkers(mapToColor, skeletons)
    ensures |children| == TrackedDrawnCount(skeletons)
  {
    children := [];
    for i := 0 to |skeletons|
      invariant children == FrameMarkers(mapToColor, skeletons[..i])
    {
      var skeleton := skeletons[i];
      assert skeletons[..i + 1][..i] == skeletons[..i];
      if skeleton.trackingState == SkeletonTrackingState.Tracked {
        for j := 0 to |skeleton.joints|
          invariant children == FrameMarkers(mapToColor, skeletons[..i]) + JointMarkers(mapToColor, skeleton.joints[..j])
        {
          var joint := skeleton.joints[j];
          assert skeleton.joints[..j + 1][..j] == skeleton.joints[..j];
          if joint.trackingState == JointTrackingState.NotTracked {
            continue;
          }
          children := children + [DrawEllipse(mapToColor, joint.position)];
        }
        assert skeleton.joints[..|skeleton.joints|] == skeleton.joints;
      }
    }
    assert skeletons[..|skeletons|] == skeletons;
  }
}
