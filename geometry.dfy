/** The entities of the room layout editor and its tuning constants.
    All coordinates are integers: every coordinate that reaches the layout
    is a snapped multiple of the grid size. */
module Geometry {

  /** Grid cell size and snap quantum. */
  const GridSize: int := 20
  /** Gap reserved in a wall for each door. */
  const DoorWidth: int := 40
  /** Half the door gap, cut on each side of a door's position. */
  const HalfDoorWidth: int := DoorWidth / 2
  /** Capture radius of corner snapping (compared squared: d < 15 iff d*d < 225). */
  const SnapDistance: int := 15
  /** Capture radius of the wall-click test: half a grid cell. */
  const Tolerance: int := GridSize / 2

  datatype Point = Point(x: int, y: int)

  /** An axis-aligned rectangle. While a room is being dragged its width and
      height may be negative; once committed both are positive. */
  datatype Room = Room(x: int, y: int, width: int, height: int)

  datatype Orientation = Horizontal | Vertical

  datatype Door = Door(x: int, y: int, orientation: Orientation)

  datatype Option<T> = None | Some(value: T)

  function Abs(v: int): int
  {
    if v < 0 then -v else v
  }

  function Min(a: int, b: int): int
  {
    if a <= b then a else b
  }

  function Max(a: int, b: int): int
  {
    if a <= b then b else a
  }

  /** Squared Euclidean distance. */
  function Dist2(x: int, y: int, p: Point): int
  {
    (x - p.x) * (x - p.x) + (y - p.y) * (y - p.y)
  }

  predicate OnGridValue(v: int)
  {
    v % GridSize == 0
  }

  predicate OnGridPoint(p: Point)
  {
    OnGridValue(p.x) && OnGridValue(p.y)
  }

  predicate OnGridRoom(r: Room)
  {
    OnGridValue(r.x) && OnGridValue(r.y) && OnGridValue(r.width) && OnGridValue(r.height)
  }

  /** The point lies on the boundary of the rectangle of a room with
      non-negative width and height. */
  predicate OnBoundary(r: Room, p: Point)
  {
    || ((p.y == r.y || p.y == r.y + r.height) && r.x <= p.x <= r.x + r.width)
    || ((p.x == r.x || p.x == r.x + r.width) && r.y <= p.y <= r.y + r.height)
  }
}
