/** Grid snap, the pool of snap points (room corners) and corner snapping. */
module Snapping {
  import opened Geometry

  /** Rounds a coordinate to the nearest multiple of the grid size, halves
      upwards (JavaScript's Math.round of value / 20, times 20). Dafny's
      integer division is Euclidean, i.e. floor for a positive divisor. */
  function SnapToGrid(v: int): (r: int)
    ensures OnGridValue(r)
    ensures v - GridSize / 2 < r <= v + GridSize / 2
  {
    ((v + GridSize / 2) / GridSize) * GridSize
  }

  /** Only one multiple of the grid size lies in (v - 10, v + 10]; so the
      contract of SnapToGrid determines its result. */
  lemma SnapToGridUnique(v: int, m: int)
    requires OnGridValue(m) && v - GridSize / 2 < m <= v + GridSize / 2
    ensures SnapToGrid(v) == m
  {
    var r := SnapToGrid(v);
    assert r == (r / GridSize) * GridSize && m == (m / GridSize) * GridSize;
    assert -GridSize < r - m < GridSize;
  }

  /** The snapped value is a nearest multiple of the grid size. */
  lemma SnapToGridNearest(v: int, m: int)
    requires OnGridValue(m)
    ensures Abs(v - SnapToGrid(v)) <= Abs(v - m)
  {
    var r := SnapToGrid(v);
    if Abs(v - m) < Abs(v - r) {
      // m would lie in (v - 10, v + 10] as well, so it would be r.
      assert v - GridSize / 2 < m <= v + GridSize / 2;
      SnapToGridUnique(v, m);
    }
  }

  /** Two multiples of the grid size less than one cell apart are equal. */
  lemma GridClose(a: int, b: int)
    requires OnGridValue(a) && OnGridValue(b) && -GridSize < a - b < GridSize
    ensures a == b
  {
    assert a == (a / GridSize) * GridSize && b == (b / GridSize) * GridSize;
    assert -1 < a / GridSize - b / GridSize < 1;
  }

  /** Snapping a value that is already on the grid leaves it unchanged. */
  lemma SnapOnGridFixed(v: int)
    requires OnGridValue(v)
    ensures SnapToGrid(v) == v
  {
    SnapToGridUnique(v, v);
  }

  /** Snapping is idempotent. */
  lemma SnapToGridIdempotent(v: int)
    ensures SnapToGrid(SnapToGrid(v)) == SnapToGrid(v)
  {
    SnapOnGridFixed(SnapToGrid(v));
  }

  /** The four corners a room contributes to the snap pool, in push order. */
  function Corners(r: Room): (cs: seq<Point>)
    ensures |cs| == 4
  {
    [ Point(r.x, r.y), Point(r.x + r.width, r.y),
      Point(r.x, r.y + r.height), Point(r.x + r.width, r.y + r.height) ]
  }

  /** The snap pool derived from the rooms: four corners per room, in room order. */
  function SnapPointsOf(rooms: seq<Room>): (pts: seq<Point>)
    ensures |pts| == 4 * |rooms|
    ensures forall k :: 0 <= k < |pts| ==> pts[k] == Corners(rooms[k / 4])[k % 4]
    decreases |rooms|
  {
    if rooms == [] then []
    else SnapPointsOf(rooms[..|rooms| - 1]) + Corners(rooms[|rooms| - 1])
  }

  /** Lists the four corners of every room, appending them in room order. */
  method UpdateSnapPoints(rooms: seq<Room>) returns (points: seq<Point>)
    ensures points == SnapPointsOf(rooms)
  {
    points := [];
    for i := 0 to |rooms|
      invariant points == SnapPointsOf(rooms[..i])
    {
      var room := rooms[i];
      points := points + [ Point(room.x, room.y),
                           Point(room.x + room.width, room.y),
                           Point(room.x, room.y + room.height),
                           Point(room.x + room.width, room.y + room.height) ];
      assert rooms[..i + 1][..i] == rooms[..i];
    }
    assert rooms[..|rooms|] == rooms;
  }

  /** Rooms on the grid give snap points on the grid. */
  lemma {:induction false} SnapPointsOnGrid(rooms: seq<Room>)
    requires forall r :: r in rooms ==> OnGridRoom(r)
    ensures forall p :: p in SnapPointsOf(rooms) ==> OnGridPoint(p)
    decreases |rooms|
  {
    if rooms != [] {
      var init := rooms[..|rooms| - 1];
      assert forall r :: r in init ==> r in rooms;
      SnapPointsOnGrid(init);
      assert rooms[|rooms| - 1] in rooms;
    }
  }

  predicate WithinSnap(x: int, y: int, p: Point)
  {
    Dist2(x, y, p) < SnapDistance * SnapDistance
  }

  /** The index corner snapping picks: within the snap radius, no candidate
      strictly closer, and every earlier candidate strictly farther (the
      earliest wins a tie). */
  predicate IsNearestIndex(x: int, y: int, pts: seq<Point>, k: int)
  {
    && 0 <= k < |pts|
    && WithinSnap(x, y, pts[k])
    && (forall j :: 0 <= j < |pts| ==> Dist2(x, y, pts[k]) <= Dist2(x, y, pts[j]))
    && (forall j :: 0 <= j < k ==> Dist2(x, y, pts[k]) < Dist2(x, y, pts[j]))
  }

  /** The candidate chosen by a scan with a strict "closer than the best so
      far" test, or None when no candidate lies within the snap radius. */
  function NearestIndex(x: int, y: int, pts: seq<Point>): (r: Option<nat>)
    ensures r.None? <==> forall j :: 0 <= j < |pts| ==> !WithinSnap(x, y, pts[j])
    ensures r.Some? ==> IsNearestIndex(x, y, pts, r.value)
    decreases |pts|
  {
    if pts == [] then None
    else
      var best := NearestIndex(x, y, pts[..|pts| - 1]);
      var last := |pts| - 1;
      if WithinSnap(x, y, pts[last])
         && (best.None? || Dist2(x, y, pts[last]) < Dist2(x, y, pts[best.value]))
      then Some(last)
      else best
  }

  /** Where corner snapping puts (x, y): the chosen candidate, or the grid
      snap of both coordinates when no candidate is close enough. */
  function NearestSnap(x: int, y: int, pts: seq<Point>): Point
  {
    match NearestIndex(x, y, pts)
    case None => Point(SnapToGrid(x), SnapToGrid(y))
    case Some(k) => pts[k]
  }

  /** Snaps (x, y) to the closest snap point strictly within the snap
      radius, falling back to the grid. */
  method SnapToNearestPoint(x: int, y: int, snapPoints: seq<Point>) returns (closest: Point)
    ensures closest == NearestSnap(x, y, snapPoints)
    ensures (forall j :: 0 <= j < |snapPoints| ==> !WithinSnap(x, y, snapPoints[j]))
              ==> closest == Point(SnapToGrid(x), SnapToGrid(y))
    ensures (exists j :: 0 <= j < |snapPoints| && WithinSnap(x, y, snapPoints[j]))
              ==> exists k :: IsNearestIndex(x, y, snapPoints, k) && closest == snapPoints[k]
  {
    closest := Point(SnapToGrid(x), SnapToGrid(y));
    // None stands for Number.MAX_VALUE: no bound yet
    var minDistance: Option<int> := None;
    ghost var best: Option<nat> := None;
    for i := 0 to |snapPoints|
      invariant best == NearestIndex(x, y, snapPoints[..i])
      invariant best.None? ==> closest == Point(SnapToGrid(x), SnapToGrid(y)) && minDistance.None?
      invariant best.Some? ==> && best.value < i
                               && closest == snapPoints[best.value]
                               && minDistance == Some(Dist2(x, y, snapPoints[best.value]))
    {
      var point := snapPoints[i];
      var distance := Dist2(x, y, point);
      assert snapPoints[..i + 1][..i] == snapPoints[..i];
      if distance < SnapDistance * SnapDistance
         && (minDistance.None? || distance < minDistance.value) {
        minDistance := Some(distance);
        closest := point;
        best := Some(i);
      }
    }
    assert snapPoints[..|snapPoints|] == snapPoints;
    if best.Some? {
      assert IsNearestIndex(x, y, snapPoints, best.value);
    }
  }

  /** A candidate that is the only one within the snap radius is the one chosen. */
  lemma OnlyCandidateWins(x: int, y: int, pts: seq<Point>, k: int)
    requires 0 <= k < |pts| && WithinSnap(x, y, pts[k])
    requires forall j :: 0 <= j < |pts| && j != k ==> !WithinSnap(x, y, pts[j])
    ensures NearestSnap(x, y, pts) == pts[k]
  {
  }

  /** Corner snapping against on-grid candidates lands on the grid. */
  lemma NearestSnapOnGrid(x: int, y: int, pts: seq<Point>)
    requires forall p :: p in pts ==> OnGridPoint(p)
    ensures OnGridPoint(NearestSnap(x, y, pts))
  {
  }
}
