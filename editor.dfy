/** The editor's state machine: mouse-down starts a room drag at the snapped
    point, mouse-move resizes it, mouse-up commits it when big enough, and a
    click with the door tool places a door on the wall near the click. */
module Editor {
  import opened Geometry
  import opened Snapping
  import opened Walls
  import opened Intersection

  datatype Tool = RoomTool | DoorTool

  /** A drag is committed only when both dimensions exceed one grid cell,
      that is, when the room it commits is larger than a cell both ways. */
  predicate Commits(c: Room): (b: bool)
    ensures b <==> Normalize(c).width > GridSize && Normalize(c).height > GridSize
  {
    Abs(c.width) > GridSize && Abs(c.height) > GridSize
  }

  /** The committed form of a drag: the minimum corner and the absolute size. */
  function Normalize(c: Room): (r: Room)
    ensures r.x == Min(c.x, c.x + c.width) && r.y == Min(c.y, c.y + c.height)
    ensures r.width == Abs(c.width) && r.height == Abs(c.height)
  {
    Room(if c.width < 0 then c.x + c.width else c.x,
         if c.height < 0 then c.y + c.height else c.y,
         Abs(c.width),
         Abs(c.height))
  }

  predicate InRoom(r: Room, p: Point)
  {
    r.x <= p.x <= r.x + r.width && r.y <= p.y <= r.y + r.height
  }

  /** The point lies in the rectangle spanned by the drag's anchor corner and
      its opposite corner, whichever way the drag went. */
  predicate InDrag(c: Room, p: Point)
  {
    && Min(c.x, c.x + c.width) <= p.x <= Max(c.x, c.x + c.width)
    && Min(c.y, c.y + c.height) <= p.y <= Max(c.y, c.y + c.height)
  }

  /** The normalized room covers exactly the dragged rectangle. */
  lemma NormalizeSameRectangle(c: Room, p: Point)
    ensures InRoom(Normalize(c), p) <==> InDrag(c, p)
  {
  }

  /** Normalizing a drag on the grid gives a room on the grid. */
  lemma NormalizeOnGrid(c: Room)
    requires OnGridRoom(c)
    ensures OnGridRoom(Normalize(c))
  {
    assert OnGridValue(-c.width) && OnGridValue(-c.height);
    assert OnGridValue(c.x + c.width) && OnGridValue(c.y + c.height);
  }

  /** The drag with its anchor corner kept and its opposite corner moved to p. */
  function Resize(prev: Room, p: Point): (r: Room)
    ensures r.x == prev.x && r.y == prev.y
    ensures r.x + r.width == p.x && r.y + r.height == p.y
  {
    Room(prev.x, prev.y, p.x - prev.x, p.y - prev.y)
  }

  /** Resizing an on-grid drag to an on-grid point keeps it on the grid. */
  lemma DragOnGrid(prev: Room, p: Point)
    requires OnGridRoom(prev) && OnGridPoint(p)
    ensures OnGridRoom(Resize(prev, p))
  {
  }

  /** With rooms on the grid, the snapped pointer position is on the grid. */
  lemma SnappedOnGrid(x: int, y: int, rooms: seq<Room>)
    requires forall r :: r in rooms ==> OnGridRoom(r)
    ensures OnGridPoint(NearestSnap(x, y, SnapPointsOf(rooms)))
  {
    SnapPointsOnGrid(rooms);
    NearestSnapOnGrid(x, y, SnapPointsOf(rooms));
  }

  /** The door lies on a wall of one of the rooms. */
  predicate DoorOnSomeWall(rooms: seq<Room>, d: Door)
  {
    exists r, i :: r in rooms && 0 <= i < 4 && DoorOnWall(WallsOf(r)[i], d)
  }

  function DoorOf(h: Hit): Door
  {
    Door(h.x, h.y, h.orientation)
  }

  /** The room drawn from (x0, y0) to (x1, y1) with nothing to snap to but the grid. */
  lemma ExampleDragOnEmptyLayout()
    ensures NearestSnap(5, 5, SnapPointsOf([])) == Point(0, 0)
    ensures NearestSnap(210, 110, SnapPointsOf([])) == Point(220, 120)
    ensures NearestSnap(15, 15, SnapPointsOf([])) == Point(20, 20)
    ensures Commits(Room(0, 0, 220, 120)) && Normalize(Room(0, 0, 220, 120)) == Room(0, 0, 220, 120)
    ensures !Commits(Room(0, 0, 20, 20))
  {
  }

  /** Committed rooms are on the grid and larger than one cell both ways;
      every door is on the grid and on a wall of some room. */
  predicate LayoutValid(rooms: seq<Room>, doors: seq<Door>)
  {
    && (forall r :: r in rooms ==> OnGridRoom(r) && r.width > GridSize && r.height > GridSize)
    && (forall d :: d in doors ==> OnGridPoint(Point(d.x, d.y)) && DoorOnSomeWall(rooms, d))
  }

  /** A room is being dragged exactly while drawing, and the drag is on the grid. */
  predicate DragValid(isDrawing: bool, currentRoom: Option<Room>)
  {
    && (isDrawing <==> currentRoom.Some?)
    && (currentRoom.Some? ==> OnGridRoom(currentRoom.value))
  }

  class LayoutEditor {
    var rooms: seq<Room>
    var doors: seq<Door>
    var isDrawing: bool
    var currentRoom: Option<Room>
    var selectedTool: Tool

    /** The committed layout and the drag in progress are consistent. */
    ghost predicate Valid()
      reads this
    {
      LayoutValid(rooms, doors) && DragValid(isDrawing, currentRoom)
    }

    constructor ()
      ensures Valid()
      ensures rooms == [] && doors == [] && !isDrawing && currentRoom == None
      ensures selectedTool == RoomTool
    {
      rooms := [];
      doors := [];
      isDrawing := false;
      currentRoom := None;
      selectedTool := RoomTool;
    }

    /** The tool buttons: choose between drawing rooms and placing doors. */
    method SelectTool(t: Tool)
      requires Valid()
      modifies this
      ensures Valid()
      ensures selectedTool == t
      ensures rooms == old(rooms) && doors == old(doors)
      ensures isDrawing == old(isDrawing) && currentRoom == old(currentRoom)
    {
      selectedTool := t;
    }

    /** Starts a room drag at the snapped point; ignored with the door tool. */
    method MouseDown(x: int, y: int)
      requires Valid()
      modifies this
      ensures Valid()
      ensures rooms == old(rooms) && doors == old(doors) && selectedTool == old(selectedTool)
      ensures old(selectedTool) == DoorTool ==>
                isDrawing == old(isDrawing) && currentRoom == old(currentRoom)
      ensures old(selectedTool) != DoorTool ==>
                var p := NearestSnap(x, y, SnapPointsOf(old(rooms)));
                isDrawing && currentRoom == Some(Room(p.x, p.y, 0, 0))
    {
      if selectedTool == DoorTool {
        return;
      }
      var snapPoints := UpdateSnapPoints(rooms);
      var snappedPoint := SnapToNearestPoint(x, y, snapPoints);
      SnappedOnGrid(x, y, rooms);
      isDrawing := true;
      currentRoom := Some(Room(snappedPoint.x, snappedPoint.y, 0, 0));
    }

    /** While drawing, moves the drag's opposite corner to the snapped
        point; the anchor corner stays. Ignored unless drawing. */
    method MouseMove(x: int, y: int)
      requires Valid()
      modifies this
      ensures Valid()
      ensures rooms == old(rooms) && doors == old(doors) && selectedTool == old(selectedTool)
      ensures isDrawing == old(isDrawing)
      ensures !old(isDrawing) ==> currentRoom == old(currentRoom)
      ensures old(isDrawing) ==>
                currentRoom == Some(Resize(old(currentRoom).value, NearestSnap(x, y, SnapPointsOf(old(rooms)))))
    {
      if !isDrawing {
        return;
      }
      var snapPoints := UpdateSnapPoints(rooms);
      var snappedPoint := SnapToNearestPoint(x, y, snapPoints);
      SnappedOnGrid(x, y, rooms);
      var prev := currentRoom.value;
      DragOnGrid(prev, snappedPoint);
      currentRoom := Some(Resize(prev, snappedPoint));
    }

    /** Ends a drag: appends the normalized room when both dimensions exceed
        one grid cell, and always leaves drawing mode. Ignored unless drawing. */
    method MouseUp()
      requires Valid()
      modifies this
      ensures Valid()
      ensures doors == old(doors) && selectedTool == old(selectedTool)
      ensures !isDrawing && currentRoom == None
      ensures rooms == old(rooms) +
                (if old(isDrawing) && old(currentRoom).Some? && Commits(old(currentRoom).value)
                 then [Normalize(old(currentRoom).value)] else [])
    {
      if !isDrawing {
        return;
      }
      if currentRoom.Some? && Commits(currentRoom.value) {
        var normalizedRoom := Normalize(currentRoom.value);
        NormalizeOnGrid(currentRoom.value);
        rooms := rooms + [normalizedRoom];
      }
      isDrawing := false;
      currentRoom := None;
    }

    /** With the door tool, appends a door at the wall intersection of the
        click when there is one. Ignored with the room tool. */
    method CanvasClick(x: int, y: int)
      requires Valid()
      modifies this
      ensures Valid()
      ensures rooms == old(rooms) && selectedTool == old(selectedTool)
      ensures isDrawing == old(isDrawing) && currentRoom == old(currentRoom)
      ensures doors == old(doors) +
                (if old(selectedTool) == DoorTool && FindWallIntersection(x, y, old(rooms)).Some?
                 then [DoorOf(FindWallIntersection(x, y, old(rooms)).value)] else [])
    {
      if selectedTool != DoorTool {
        return;
      }
      var intersection := FindWallIntersection(x, y, rooms);
      if intersection.Some? {
        var h := intersection.value;
        ghost var k := HitFromRoom(SnapToGrid(x), SnapToGrid(y), rooms);
        assert rooms[k] in rooms;
        HitAtSnappedClick(x, y, rooms[k], h);
        HitIsOnWall(SnapToGrid(x), SnapToGrid(y), rooms[k], h);
        doors := doors + [DoorOf(h)];
      }
    }
  }

  /** Dragging from (5, 5) to (210, 110) on an empty layout commits the room
      (0, 0, 220, 120); a drag from (5, 5) to (15, 15) is discarded. */
  method ExampleDrags()
  {
    var e := new LayoutEditor();
    ExampleDragOnEmptyLayout();
    e.MouseDown(5, 5);
    e.MouseMove(210, 110);
    e.MouseUp();
    assert e.rooms == [Room(0, 0, 220, 120)];

    var f := new LayoutEditor();
    f.MouseDown(5, 5);
    f.MouseMove(15, 15);
    f.MouseUp();
    assert f.rooms == [];
  }
}
