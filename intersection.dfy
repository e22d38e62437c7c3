/** The wall intersection resolver: turns a click into a door position and
    orientation on the first room wall near the grid-snapped click. */
module Intersection {
  import opened Geometry
  import opened Snapping
  import opened Walls

  datatype Hit = Hit(x: int, y: int, orientation: Orientation)

  /** `h` is a qualifying edge hit of the room for the snapped click
      (sx, sy): on a horizontal edge, at the click's x within the edge's
      x-range and less than half a grid cell from the click's y; on a
      vertical edge, symmetrically. */
  predicate EdgeCandidate(sx: int, sy: int, r: Room, h: Hit)
  {
    match h.orientation
    case Horizontal =>
      && (h.y == r.y || h.y == r.y + r.height)
      && h.x == sx && r.x <= sx <= r.x + r.width
      && Abs(sy - h.y) < Tolerance
    case Vertical =>
      && (h.x == r.x || h.x == r.x + r.width)
      && h.y == sy && r.y <= sy <= r.y + r.height
      && Abs(sx - h.x) < Tolerance
  }

  /** Position of an edge hit in the test order top, bottom, left, right. */
  function EdgeIndex(r: Room, h: Hit): int
  {
    match h.orientation
    case Horizontal => if h.y == r.y then 0 else 1
    case Vertical => if h.x == r.x then 2 else 3
  }

  /** The four edge tests of one room, in the order top, bottom, left, right. */
  function HitOnRoom(sx: int, sy: int, r: Room): (res: Option<Hit>)
    ensures res.Some? ==> EdgeCandidate(sx, sy, r, res.value)
    ensures forall h :: EdgeCandidate(sx, sy, r, h) ==>
              res.Some? && EdgeIndex(r, res.value) <= EdgeIndex(r, h)
  {
    if Abs(sy - r.y) < Tolerance && sx >= r.x && sx <= r.x + r.width then
      Some(Hit(sx, r.y, Horizontal))
    else if Abs(sy - (r.y + r.height)) < Tolerance && sx >= r.x && sx <= r.x + r.width then
      Some(Hit(sx, r.y + r.height, Horizontal))
    else if Abs(sx - r.x) < Tolerance && sy >= r.y && sy <= r.y + r.height then
      Some(Hit(r.x, sy, Vertical))
    else if Abs(sx - (r.x + r.width)) < Tolerance && sy >= r.y && sy <= r.y + r.height then
      Some(Hit(r.x + r.width, sy, Vertical))
    else
      None
  }

  /** The contract of HitOnRoom pins its result: the qualifying edge that
      comes first in the order top, bottom, left, right. */
  lemma FirstEdgeWins(sx: int, sy: int, r: Room, h: Hit)
    requires EdgeCandidate(sx, sy, r, h)
    requires forall h' :: EdgeCandidate(sx, sy, r, h') ==> EdgeIndex(r, h) <= EdgeIndex(r, h')
    ensures HitOnRoom(sx, sy, r) == Some(h)
  {
    var res := HitOnRoom(sx, sy, r).value;
    assert EdgeIndex(r, res) == EdgeIndex(r, h);
  }

  /** The edge tests applied to the rooms in order; the first room with a
      qualifying edge decides. */
  function FirstHit(sx: int, sy: int, rooms: seq<Room>): (res: Option<Hit>)
    ensures res.None? <==> forall i :: 0 <= i < |rooms| ==> HitOnRoom(sx, sy, rooms[i]).None?
    decreases |rooms|
  {
    if rooms == [] then None
    else
      match HitOnRoom(sx, sy, rooms[0])
      case Some(h) => Some(h)
      case None => FirstHit(sx, sy, rooms[1..])
  }

  /** Snaps the click to the grid and returns the hit on the first room
      wall near it, or None when no wall of any room qualifies. */
  function FindWallIntersection(x: int, y: int, rooms: seq<Room>): (res: Option<Hit>)
    ensures res.None? <==>
              forall i, h :: 0 <= i < |rooms| ==> !EdgeCandidate(SnapToGrid(x), SnapToGrid(y), rooms[i], h)
  {
    var snappedX := SnapToGrid(x);
    var snappedY := SnapToGrid(y);
    var res := FirstHit(snappedX, snappedY, rooms);
    assert res.Some? ==> exists i :: 0 <= i < |rooms| && HitOnRoom(snappedX, snappedY, rooms[i]).Some?;
    res
  }

  /** The first room with a qualifying edge wins: the rooms before it are
      passed over, whatever the rooms after it hold. */
  lemma {:induction false} FirstMatchWins(x: int, y: int, rooms: seq<Room>, k: int)
    requires 0 <= k < |rooms| && HitOnRoom(SnapToGrid(x), SnapToGrid(y), rooms[k]).Some?
    requires forall j :: 0 <= j < k ==> HitOnRoom(SnapToGrid(x), SnapToGrid(y), rooms[j]).None?
    ensures FindWallIntersection(x, y, rooms) == HitOnRoom(SnapToGrid(x), SnapToGrid(y), rooms[k])
  {
    FirstHitAt(SnapToGrid(x), SnapToGrid(y), rooms, k);
  }

  lemma {:induction false} FirstHitAt(sx: int, sy: int, rooms: seq<Room>, k: int)
    requires 0 <= k < |rooms| && HitOnRoom(sx, sy, rooms[k]).Some?
    requires forall j :: 0 <= j < k ==> HitOnRoom(sx, sy, rooms[j]).None?
    ensures FirstHit(sx, sy, rooms) == HitOnRoom(sx, sy, rooms[k])
    decreases k
  {
    if k > 0 {
      assert HitOnRoom(sx, sy, rooms[0]).None?;
      forall j | 0 <= j < k - 1 ensures HitOnRoom(sx, sy, rooms[1..][j]).None? {
        assert rooms[1..][j] == rooms[j + 1];
      }
      FirstHitAt(sx, sy, rooms[1..], k - 1);
    }
  }

  /** A hit comes from a room: the first one whose edge tests pass. */
  lemma {:induction false} HitFromRoom(sx: int, sy: int, rooms: seq<Room>) returns (k: int)
    requires FirstHit(sx, sy, rooms).Some?
    ensures 0 <= k < |rooms|
    ensures HitOnRoom(sx, sy, rooms[k]) == FirstHit(sx, sy, rooms)
    ensures forall j :: 0 <= j < k ==> HitOnRoom(sx, sy, rooms[j]).None?
    decreases |rooms|
  {
    if HitOnRoom(sx, sy, rooms[0]).Some? {
      k := 0;
    } else {
      var k' := HitFromRoom(sx, sy, rooms[1..]);
      k := k' + 1;
      forall j | 0 <= j < k ensures HitOnRoom(sx, sy, rooms[j]).None? {
        if j > 0 {
          assert rooms[j] == rooms[1..][j - 1];
        }
      }
    }
  }

  /** The door made from a hit lies on a wall of the hit room with the
      hit's orientation, so drawing that room cuts a gap for it. */
  lemma HitIsOnWall(sx: int, sy: int, r: Room, h: Hit)
    requires r.width >= 0 && r.height >= 0
    requires HitOnRoom(sx, sy, r) == Some(h)
    ensures exists i :: && 0 <= i < 4
                        && DoorOnWall(WallsOf(r)[i], Door(h.x, h.y, h.orientation))
                        && WallsOf(r)[i].isHorizontal == (h.orientation == Horizontal)
  {
    var ws := WallsOf(r);
    var d := Door(h.x, h.y, h.orientation);
    if h.orientation == Horizontal {
      if h.y == r.y {
        assert DoorOnWall(ws[0], d);
      } else {
        assert DoorOnWall(ws[2], d);
      }
    } else {
      if h.x == r.x {
        assert DoorOnWall(ws[3], d);
      } else {
        assert DoorOnWall(ws[1], d);
      }
    }
  }

  /** For a click on the grid and a room on the grid, a hit lies exactly at the click. */
  lemma HitAtGridClick(sx: int, sy: int, r: Room, h: Hit)
    requires OnGridRoom(r) && OnGridValue(sx) && OnGridValue(sy)
    requires HitOnRoom(sx, sy, r) == Some(h)
    ensures h.x == sx && h.y == sy
    ensures OnGridPoint(Point(h.x, h.y)) && OnBoundary(r, Point(h.x, h.y))
  {
    if h.orientation == Horizontal {
      GridClose(sy, h.y);
    } else {
      GridClose(sx, h.x);
    }
  }

  /** In a layout on the grid, a hit lies on the boundary of its room, on
      the grid, exactly at the snapped click. */
  lemma HitAtSnappedClick(x: int, y: int, r: Room, h: Hit)
    requires OnGridRoom(r)
    requires HitOnRoom(SnapToGrid(x), SnapToGrid(y), r) == Some(h)
    ensures h.x == SnapToGrid(x) && h.y == SnapToGrid(y)
    ensures OnGridPoint(Point(h.x, h.y)) && OnBoundary(r, Point(h.x, h.y))
  {
    HitAtGridClick(SnapToGrid(x), SnapToGrid(y), r, h);
  }

  /** A click at (100, 2) near the top wall of a 200 x 100 room at the
      origin gives a horizontal hit at (100, 0). */
  lemma ExampleClickNearTopWall()
    ensures FindWallIntersection(100, 2, [Room(0, 0, 200, 100)]) == Some(Hit(100, 0, Horizontal))
  {
    assert SnapToGrid(100) == 100 && SnapToGrid(2) == 0;
  }
}
