# Room layout editor: geometric core

A Dafny model of the layout engine inside the room layout editor
component (`src/RoomLayoutEditor.js`): a user drags rectangular rooms on a
20-unit grid, snapping to the grid and to existing room corners, and places
doors on room walls; each wall is drawn as the pieces left after cutting a
40-unit gap around every door on it.

Modules, one per component:

- `Geometry` (geometry.dfy): rooms, doors, points, orientations and the
  constants `GridSize = 20`, `DoorWidth = 40`, snap radius 15, wall-click
  tolerance `GridSize / 2`.
- `Snapping` (snapping.dfy): `SnapToGrid`, the snap-point pool derived from
  the rooms, and the corner snap with its grid fallback.
- `Walls` (walls.dfy): the four walls of a room, the door filter, the sort
  of door positions and the cursor walk that emits drawable segments; each
  `moveTo(a); lineTo(b)` pair is modelled as emitting `Segment(a, b)`.
- `Intersection` (intersection.dfy): the wall intersection resolver that
  turns a click into a door position and orientation.
- `Editor` (editor.dfy): the class `LayoutEditor` holding `rooms`, `doors`,
  `isDrawing`, `currentRoom` and `selectedTool`, with the mouse handlers as
  methods. Its invariant `Valid()` (the value predicates `LayoutValid` and
  `DragValid` applied to the fields) says that committed rooms are on the grid
  and larger than one cell both ways, that every door is on the grid and on
  a wall of some room, and that a drag exists exactly while drawing.

Coordinates are integers. `Math.round(v / 20) * 20` becomes
`((v + 10) / 20) * 20` with Dafny's Euclidean division (floor for a
positive divisor, so halves round upwards as `Math.round` does), and the
test `sqrt(dx² + dy²) < 15` becomes `dx² + dy² < 225`. `Number.MAX_VALUE`
as the initial best distance is modelled as "no best yet" (`None`).

`Math.round` takes halves upwards, so on an empty layout a drag from
(5, 5) to (210, 110) commits the room (0, 0, 220, 120): 210 / 20 = 10.5
rounds to 11 and 110 / 20 = 5.5 rounds to 6 (`Editor.ExampleDragOnEmptyLayout`,
`Editor.ExampleDrags`).

## Model

| member | source | states |
|---|---|---|
| `Snapping.SnapToGrid` | src/RoomLayoutEditor.js:34 | the result is a multiple of 20 within (v - 10, v + 10] |
| `Snapping.SnapToGridUnique` | src/RoomLayoutEditor.js:34 | only one multiple of 20 lies in (v - 10, v + 10], so that contract determines the snap |
| `Snapping.SnapToGridNearest` | src/RoomLayoutEditor.js:34 | no multiple of 20 is closer to v than its snap |
| `Snapping.SnapOnGridFixed` | src/RoomLayoutEditor.js:34 | a value already on the grid is left unchanged |
| `Snapping.SnapToGridIdempotent` | src/RoomLayoutEditor.js:34 | snapping twice equals snapping once |
| `Snapping.SnapPointsOf` | src/RoomLayoutEditor.js:21-32 | the pool has 4 points per room, in room order, point 4i+c being corner c of room i: (x,y), (x+w,y), (x,y+h), (x+w,y+h) |
| `Snapping.UpdateSnapPoints` | src/RoomLayoutEditor.js:21-32 | the loop pushing four corners per room produces exactly that pool |
| `Snapping.SnapPointsOnGrid` | src/RoomLayoutEditor.js:21-32 | rooms on the grid give snap points on the grid |
| `Snapping.NearestIndex` | src/RoomLayoutEditor.js:36-52 | no choice iff no candidate is strictly within 15; otherwise the chosen candidate is within 15, no candidate is strictly closer, and every earlier candidate is strictly farther (the earliest wins a tie) |
| `Snapping.SnapToNearestPoint` | src/RoomLayoutEditor.js:36-52 | returns (snapToGrid(x), snapToGrid(y)) when no candidate is strictly within 15, otherwise the nearest candidate with the earliest-wins tie-break |
| `Snapping.OnlyCandidateWins` | src/RoomLayoutEditor.js:36-52 | a candidate that is the only one within the snap radius is the one chosen |
| `Snapping.NearestSnapOnGrid` | src/RoomLayoutEditor.js:36-52 | snapping against on-grid candidates lands on the grid |
| `Walls.WallsOf` | src/RoomLayoutEditor.js:173-194 | four walls in the order top (horizontal at y), right (vertical at x+w), bottom (horizontal at y+h), left (vertical at x); each axis-aligned; start <= end on both axes when width and height are >= 0 |
| `Walls.WallsCoverBoundary` | src/RoomLayoutEditor.js:173-194 | for a room of non-negative size, a point is on one of the four walls iff it is on the boundary of the rectangle |
| `Walls.DoorOnWall` | src/RoomLayoutEditor.js:198-210 | the filter test (abs(dy) < 1 and x within the wall's range, or symmetrically) holds iff, on integer coordinates, the door's position lies on the wall |
| `Walls.DoorsOnWall` | src/RoomLayoutEditor.js:197-211 | keeps exactly the doors that pass the filter test; empty iff no door passes |
| `Walls.DoorsOnWallCounts` | src/RoomLayoutEditor.js:197-211 | each door passing the filter is kept as many times as it occurs (a door placed twice is kept twice); every other door is dropped |
| `Walls.SortAscending` | src/RoomLayoutEditor.js:217 | the door positions come out in ascending order and as a permutation of the input |
| `Walls.Insert` | src/RoomLayoutEditor.js:217 | inserting into a sorted sequence keeps it sorted and adds exactly that element |
| `Walls.Walk` | src/RoomLayoutEditor.js:219-245 | the cursor walk emits at most one span per door plus the tail, each of positive length; WalkBounds, WalkOrdered, WalkAvoidsGaps and WalkCoverage state what it covers |
| `Walls.DrawableSegments` | src/RoomLayoutEditor.js:197-246 | one wall's drawing has at most one piece per door on it plus one; NoDoorsWholeWall, DrawableSegmentsWithDoors, DrawableCoverage and SingleDoorWall state its pieces, and WallSegments computes it |
| `Walls.CutDoorGaps` | src/RoomLayoutEditor.js:219-245 | the cursor loop over the sorted positions emits exactly the segments of the walk specification |
| `Walls.WallSegments` | src/RoomLayoutEditor.js:213-246 | drawing one wall emits the whole wall when no door is on it, otherwise the segments of the walk over the sorted positions of the doors on it |
| `Walls.WalkBounds` | src/RoomLayoutEditor.js:219-245 | every emitted span has strictly positive length and lies within [cursor start, wall end] |
| `Walls.WalkOrdered` | src/RoomLayoutEditor.js:217-245 | spans come out in ascending order, pairwise disjoint, each ending at least a door width before the next begins |
| `Walls.WalkAvoidsGaps` | src/RoomLayoutEditor.js:217-245 | no span reaches into the open gap (pos - 20, pos + 20) of any door |
| `Walls.WalkCoverage` | src/RoomLayoutEditor.js:217-245 | a point is covered by a span (half-open) iff it lies in [start, end) and outside every door's half-open gap |
| `Walls.SingleDoorWalk` | src/RoomLayoutEditor.js:219-245 | one door with start + 20 < pos and pos + 20 < end gives exactly [start, pos - 20] and [pos + 20, end], of total length end - start - 40 |
| `Walls.FilteredPositions` | src/RoomLayoutEditor.js:197-221 | the positions walked are those of exactly the doors passing the filter |
| `Walls.WalkedPositions` | src/RoomLayoutEditor.js:197-221 | the sorted positions are a valid walk input and are those of exactly the doors on the wall |
| `Walls.NoDoorsWholeWall` | src/RoomLayoutEditor.js:213-215 | a wall with no door on it yields exactly one segment, the whole wall |
| `Walls.DrawableSegmentsWithDoors` | src/RoomLayoutEditor.js:213-246 | with doors on a wall, every segment lies on the wall's line with positive length inside the wall, segments are ascending and disjoint, and none overlaps the gap of a door on the wall |
| `Walls.ClearOfDoors` | src/RoomLayoutEditor.js:197-221 | for the positions of exactly the doors on a wall, a point is outside every position's gap iff it is outside every such door's gap |
| `Walls.DrawableCoverage` | src/RoomLayoutEditor.js:213-246 | with doors on a wall, a point of the wall is drawn (half-open) iff it is outside the gap of every door on the wall |
| `Walls.DoorsOnWallSingle` | src/RoomLayoutEditor.js:197-211 | when exactly one door passes the filter, the filtered list is that door |
| `Walls.SingleDoorWall` | src/RoomLayoutEditor.js:213-246 | one door on a wall, clear of both ends, gives exactly two segments whose lengths add to the wall length minus 40 |
| `Walls.SegmentsOfWalls` | src/RoomLayoutEditor.js:196-247 | the walls' pieces concatenated wall after wall; n walls give at most n * (number of doors + 1) segments; RoomWithDoors computes it for a room's four walls |
| `Walls.RoomWithDoors` | src/RoomLayoutEditor.js:173-247 | drawing a room emits the segments of its walls in the order top, right, bottom, left |
| `Walls.RoomWithoutDoorsIsOutline` | src/RoomLayoutEditor.js:196-215 | a room with no door on its walls is drawn as its four whole walls in order |
| `Walls.ExampleTopWallWithoutDoors` | src/RoomLayoutEditor.js:213-215 | the top wall of room (0,0,200,100) with no doors is the segment (0,0)-(200,0) |
| `Walls.ExampleTopWallWithDoor` | src/RoomLayoutEditor.js:217-245 | the same wall with a door at (100,0) is cut into (0,0)-(80,0) and (120,0)-(200,0) |
| `Intersection.HitOnRoom` | src/RoomLayoutEditor.js:132-163 | a hit is a qualifying edge (horizontal: x is the snapped x within [x, x+w], y is the top or bottom edge within 10 of the snapped y; vertical symmetrically), and it is the qualifying edge first in the order top, bottom, left, right; none iff no edge qualifies |
| `Intersection.FirstEdgeWins` | src/RoomLayoutEditor.js:132-163 | the qualifying edge first in the test order is the result |
| `Intersection.FirstHit` | src/RoomLayoutEditor.js:128-165 | no hit iff no room has a qualifying edge |
| `Intersection.FindWallIntersection` | src/RoomLayoutEditor.js:126-166 | returns null iff no room passes any of its four edge tests at the grid-snapped click |
| `Intersection.FirstMatchWins` | src/RoomLayoutEditor.js:128-164 | when room k is the first room with a qualifying edge, the result is room k's hit |
| `Intersection.FirstHitAt` | src/RoomLayoutEditor.js:128-164 | the room-by-room scan returns the hit of the first room whose edge tests pass |
| `Intersection.HitFromRoom` | src/RoomLayoutEditor.js:128-165 | every hit is the hit of the first room whose edge tests pass |
| `Intersection.HitIsOnWall` | src/RoomLayoutEditor.js:132-163 | the door made from a hit passes the door filter of one of the hit room's walls, of the hit's orientation |
| `Intersection.HitAtGridClick` | src/RoomLayoutEditor.js:132-163 | for an on-grid click and room, an edge hit is exactly at the click, on the grid and on the room's boundary |
| `Intersection.HitAtSnappedClick` | src/RoomLayoutEditor.js:129-163 | for a room on the grid, the hit is exactly the snapped click, on the grid and on the room's boundary |
| `Intersection.ExampleClickNearTopWall` | src/RoomLayoutEditor.js:126-166 | a click at (100, 2) near room (0,0,200,100) gives a horizontal hit at (100, 0) |
| `Editor.Commits` | src/RoomLayoutEditor.js:337-341 | a drag is committed iff the room it would commit is wider and taller than one grid cell |
| `Editor.Normalize` | src/RoomLayoutEditor.js:342-353 | the committed room has the minimum corner of the drag and its absolute width and height |
| `Editor.NormalizeSameRectangle` | src/RoomLayoutEditor.js:342-353 | the normalized room covers exactly the rectangle spanned by the drag |
| `Editor.NormalizeOnGrid` | src/RoomLayoutEditor.js:342-353 | normalizing an on-grid drag gives an on-grid room |
| `Editor.Resize` | src/RoomLayoutEditor.js:327-331 | the resized drag keeps its anchor corner and has its opposite corner at the given point |
| `Editor.SnappedOnGrid` | src/RoomLayoutEditor.js:308-316 | with every room on the grid, the corner-or-grid snap of any pointer position is on the grid |
| `Editor.DragOnGrid` | src/RoomLayoutEditor.js:327-331 | resizing an on-grid drag to an on-grid point keeps it on the grid |
| `Editor.ExampleDragOnEmptyLayout` | src/RoomLayoutEditor.js:302-359 | on an empty layout (5,5) snaps to (0,0), (210,110) to (220,120), (15,15) to (20,20); 220 x 120 commits, 20 x 20 does not |
| `Editor.LayoutEditor.constructor` | src/RoomLayoutEditor.js:6-10 | starts with no rooms, no doors, not drawing, no drag, room tool |
| `Editor.LayoutEditor.SelectTool` | src/RoomLayoutEditor.js:404-414 | selects the tool and changes nothing else |
| `Editor.LayoutEditor.MouseDown` | src/RoomLayoutEditor.js:302-317 | ignored with the door tool; otherwise starts drawing a zero-size drag at the corner-or-grid snap of the point; rooms and doors unchanged |
| `Editor.LayoutEditor.MouseMove` | src/RoomLayoutEditor.js:319-332 | ignored unless drawing; otherwise keeps the anchor and sets width and height to the snapped point minus the anchor |
| `Editor.LayoutEditor.MouseUp` | src/RoomLayoutEditor.js:334-359 | appends the normalized drag iff drawing and abs(w) > 20 and abs(h) > 20; earlier rooms unchanged; drawing and drag always reset; the invariant is kept |
| `Editor.LayoutEditor.CanvasClick` | src/RoomLayoutEditor.js:361-379 | with the door tool, appends exactly one door iff the wall intersection is non-null, at the hit's position and orientation; otherwise nothing changes; the invariant (door on a wall of some room) is kept |

## Left out

- Canvas rendering (`drawEverything`, `drawRoom`, `drawRoomDimensions`, `drawDoor`, the grid lines, stroke styles): presentation calls into a 2D canvas; only the segment computation of `drawRoomWithDoors` is modelled, as emitted segments.
- React state plumbing (`useState`, `useEffect`, `useRef`): the state is fields of a class, updated at once. In the component, `snapPoints` is refreshed by an effect after each render, so a snap can see the corners of the rooms as they were one render earlier; the model derives the snap points from the current rooms.
- Event coordinates (`getBoundingClientRect`, `clientX`, `clientY`): browser input; the handlers take the canvas coordinates as parameters.
- The JSX markup and the tool buttons: only their effect, `SelectTool`, is modelled. `onMouseLeave` calls the same handler as `onMouseUp` and is covered by `MouseUp`.
- Fractional coordinates and floating point: coordinates are integers, so `Math.round` on fractional mouse positions and `Math.sqrt` rounding are not modelled.
- `Array.prototype.sort` on the wall's doors: modelled as sorting their positions along the wall, since the walk reads nothing else of a door; the in-place reordering of the door objects is not modelled.
- Walls.DoorsOnWall: states which doors are kept and (through Walls.DoorsOnWallCounts) how many times, not that they keep their relative order, because the walk sorts them afterwards.
- Walls.SegmentsOfWalls: its contract bounds the number of segments; which segments a wall contributes is stated per wall by the lemmas about Walls.DrawableSegments, not restated for the concatenation.
