/** The wall model: the four walls of a room, the doors lying on a wall, and
    the drawable pieces of a wall once a door-width gap is cut around each
    door. A drawn piece `moveTo(a); lineTo(b)` is the segment (a, b). */
module Walls {
  import opened Geometry

  datatype Wall = Wall(start: Point, end: Point, isHorizontal: bool)

  /** A drawn piece of wall, from `a` to `b`. */
  datatype Segment = Segment(a: Point, b: Point)

  /** An interval along a wall's axis (x for a horizontal wall, y for a vertical one). */
  datatype Span = Span(lo: int, hi: int)

  /** The point lies on the wall (between its endpoints, on its line). */
  predicate OnWall(w: Wall, p: Point)
  {
    if w.isHorizontal then p.y == w.start.y && w.start.x <= p.x <= w.end.x
    else p.x == w.start.x && w.start.y <= p.y <= w.end.y
  }

  /** The four walls of a room, in the order top, right, bottom, left. */
  function WallsOf(r: Room): (ws: seq<Wall>)
    ensures |ws| == 4
    ensures ws[0].isHorizontal && ws[0].start.y == r.y                  // top
    ensures !ws[1].isHorizontal && ws[1].start.x == r.x + r.width       // right
    ensures ws[2].isHorizontal && ws[2].start.y == r.y + r.height       // bottom
    ensures !ws[3].isHorizontal && ws[3].start.x == r.x                 // left
    ensures forall i :: 0 <= i < 4 ==>
              if ws[i].isHorizontal then ws[i].start.y == ws[i].end.y else ws[i].start.x == ws[i].end.x
    ensures r.width >= 0 && r.height >= 0 ==>
              forall i :: 0 <= i < 4 ==> ws[i].start.x <= ws[i].end.x && ws[i].start.y <= ws[i].end.y
  {
    [ Wall(Point(r.x, r.y), Point(r.x + r.width, r.y), true),
      Wall(Point(r.x + r.width, r.y), Point(r.x + r.width, r.y + r.height), false),
      Wall(Point(r.x, r.y + r.height), Point(r.x + r.width, r.y + r.height), true),
      Wall(Point(r.x, r.y), Point(r.x, r.y + r.height), false) ]
  }

  /** For a room with non-negative size, the four walls together are
      exactly the boundary of its rectangle. */
  lemma WallsCoverBoundary(r: Room, p: Point)
    requires r.width >= 0 && r.height >= 0
    ensures OnBoundary(r, p) <==> exists i :: 0 <= i < 4 && OnWall(WallsOf(r)[i], p)
  {
    var ws := WallsOf(r);
    if OnBoundary(r, p) {
      if p.y == r.y && r.x <= p.x <= r.x + r.width {
        assert OnWall(ws[0], p);
      } else if p.y == r.y + r.height && r.x <= p.x <= r.x + r.width {
        assert OnWall(ws[2], p);
      } else if p.x == r.x + r.width {
        assert OnWall(ws[1], p);
      } else {
        assert OnWall(ws[3], p);
      }
    }
  }

  /** The door-filter test: a door belongs to a horizontal wall when its y is
      within 1 of the wall's y and its x within the wall's x-range;
      symmetrically for a vertical wall. On integer coordinates this is
      exactly "the door's position lies on the wall". */
  predicate DoorOnWall(w: Wall, d: Door): (b: bool)
    ensures b <==> OnWall(w, Point(d.x, d.y))
  {
    if w.isHorizontal then Abs(d.y - w.start.y) < 1 && d.x >= w.start.x && d.x <= w.end.x
    else Abs(d.x - w.start.x) < 1 && d.y >= w.start.y && d.y <= w.end.y
  }

  /** The doors lying on a wall, in their original order, each as many times
      as it occurs among the doors. */
  function DoorsOnWall(w: Wall, doors: seq<Door>): (r: seq<Door>)
    ensures |r| <= |doors|
    ensures forall d :: d in r <==> d in doors && DoorOnWall(w, d)
    ensures r == [] <==> forall d :: d in doors ==> !DoorOnWall(w, d)
  {
    if doors == [] then []
    else (if DoorOnWall(w, doors[0]) then [doors[0]] else []) + DoorsOnWall(w, doors[1..])
  }

  /** The filter keeps every passing door as many times as it occurs. */
  lemma {:induction false} DoorsOnWallCounts(w: Wall, doors: seq<Door>)
    ensures forall d :: multiset(DoorsOnWall(w, doors))[d] == if DoorOnWall(w, d) then multiset(doors)[d] else 0
    decreases |doors|
  {
    if doors != [] {
      assert doors == [doors[0]] + doors[1..];
      DoorsOnWallCounts(w, doors[1..]);
    }
  }

  /** Position of a door along a wall's axis. */
  function AxisPos(w: Wall, d: Door): int
  {
    if w.isHorizontal then d.x else d.y
  }

  function AxisStart(w: Wall): int
  {
    if w.isHorizontal then w.start.x else w.start.y
  }

  function AxisEnd(w: Wall): int
  {
    if w.isHorizontal then w.end.x else w.end.y
  }

  function Positions(w: Wall, ds: seq<Door>): seq<int>
  {
    seq(|ds|, i requires 0 <= i < |ds| => AxisPos(w, ds[i]))
  }

  predicate Sorted(s: seq<int>)
  {
    forall i, j :: 0 <= i < j < |s| ==> s[i] <= s[j]
  }

  lemma SortedCons(x: int, t: seq<int>)
    requires Sorted(t)
    requires forall k :: 0 <= k < |t| ==> x <= t[k]
    ensures Sorted([x] + t)
  {
    var r := [x] + t;
    forall i, j | 0 <= i < j < |r| ensures r[i] <= r[j] {
      assert r[j] == t[j - 1];
      if i > 0 {
        assert r[i] == t[i - 1];
      }
    }
  }

  /** A lower bound of s and of v bounds every element of a sequence holding
      the elements of s and v. */
  lemma LowerBound(x: int, t: seq<int>, s: seq<int>, v: int)
    requires multiset(t) == multiset(s) + multiset{v}
    requires x <= v && forall k :: 0 <= k < |s| ==> x <= s[k]
    ensures forall k :: 0 <= k < |t| ==> x <= t[k]
  {
    forall k | 0 <= k < |t| ensures x <= t[k] {
      assert t[k] in multiset(t);
      if t[k] != v {
        assert t[k] in multiset(s);
        var i :| 0 <= i < |s| && s[i] == t[k];
      }
    }
  }

  function Insert(v: int, s: seq<int>): (r: seq<int>)
    requires Sorted(s)
    ensures Sorted(r)
    ensures multiset(r) == multiset(s) + multiset{v}
  {
    if s == [] || v <= s[0] then
      SortedCons(v, s);
      [v] + s
    else
      var tail := Insert(v, s[1..]);
      LowerBound(s[0], tail, s[1..], v);
      SortedCons(s[0], tail);
      assert s == [s[0]] + s[1..];
      [s[0]] + tail
  }

  /** Ascending sort of the door positions (the comparator a - b of the
      source's sort); the segment walk reads nothing of a door but its position. */
  function SortAscending(s: seq<int>): (r: seq<int>)
    ensures Sorted(r)
    ensures multiset(r) == multiset(s)
    ensures |r| == |s|
  {
    if s == [] then []
    else
      assert s == [s[0]] + s[1..];
      Insert(s[0], SortAscending(s[1..]))
  }

  /** The spans the cursor walk emits, starting with the cursor at `cursor`:
      before each door, the span up to the door's gap if it is non-empty;
      after the last door, the rest of the wall if non-empty. */
  function Walk(cursor: int, ps: seq<int>, end: int): (spans: seq<Span>)
    ensures |spans| <= |ps| + 1
    ensures forall s :: s in spans ==> s.lo < s.hi
    decreases |ps|
  {
    if ps == [] then (if cursor < end then [Span(cursor, end)] else [])
    else
      (if ps[0] - HalfDoorWidth > cursor then [Span(cursor, ps[0] - HalfDoorWidth)] else [])
      + Walk(ps[0] + HalfDoorWidth, ps[1..], end)
  }

  /** The segment drawn for the span [lo, hi] of a wall. */
  function SegmentAt(w: Wall, lo: int, hi: int): Segment
  {
    if w.isHorizontal then Segment(Point(lo, w.start.y), Point(hi, w.start.y))
    else Segment(Point(w.start.x, lo), Point(w.start.x, hi))
  }

  function Lift(w: Wall, spans: seq<Span>): (segs: seq<Segment>)
  {
    seq(|spans|, i requires 0 <= i < |spans| => SegmentAt(w, spans[i].lo, spans[i].hi))
  }

  lemma LiftSnoc(w: Wall, spans: seq<Span>, s: Span)
    ensures Lift(w, spans + [s]) == Lift(w, spans) + [SegmentAt(w, s.lo, s.hi)]
  {
  }

  /** What drawing a wall emits: the whole wall when no door lies on it,
      otherwise the cursor walk over the sorted door positions. */
  function DrawableSegments(w: Wall, doors: seq<Door>): (segs: seq<Segment>)
    ensures |segs| <= |DoorsOnWall(w, doors)| + 1 <= |doors| + 1
  {
    var wallDoors := DoorsOnWall(w, doors);
    if |wallDoors| == 0 then [Segment(w.start, w.end)]
    else
      var ps := SortAscending(Positions(w, wallDoors));
      assert |ps| == |wallDoors|;
      Lift(w, Walk(AxisStart(w), ps, AxisEnd(w)))
  }

  /** Walks a cursor along the wall over the sorted door positions,
      emitting the piece before each door's gap when it is non-empty and
      the piece after the last gap when it is non-empty. */
  method CutDoorGaps(w: Wall, positions: seq<int>) returns (segs: seq<Segment>)
    ensures segs == Lift(w, Walk(AxisStart(w), positions, AxisEnd(w)))
  {
    var endPos := AxisEnd(w);
    var currentPos := AxisStart(w);
    segs := [];
    ghost var spans: seq<Span> := [];
    for i := 0 to |positions|
      invariant spans + Walk(currentPos, positions[i..], endPos) == Walk(AxisStart(w), positions, endPos)
      invariant segs == Lift(w, spans)
    {
      var doorPos := positions[i];
      WalkStep(spans, currentPos, positions[i..], endPos);
      assert positions[i..][1..] == positions[i + 1..];
      if doorPos - HalfDoorWidth > currentPos {
        LiftSnoc(w, spans, Span(currentPos, doorPos - HalfDoorWidth));
        segs := segs + [SegmentAt(w, currentPos, doorPos - HalfDoorWidth)];
        spans := spans + [Span(currentPos, doorPos - HalfDoorWidth)];
      }
      currentPos := doorPos + HalfDoorWidth;
    }
    if currentPos < endPos {
      LiftSnoc(w, spans, Span(currentPos, endPos));
      segs := segs + [SegmentAt(w, currentPos, endPos)];
      spans := spans + [Span(currentPos, endPos)];
    }
    assert spans == Walk(AxisStart(w), positions, endPos);
  }

  /** One step of the walk: the spans emitted so far, followed by the walk
      from the cursor, equal the spans after handling the next door,
      followed by the walk from just past that door's gap. */
  lemma WalkStep(spans: seq<Span>, c: int, ps: seq<int>, end: int)
    requires ps != []
    ensures spans + Walk(c, ps, end)
         == (if ps[0] - HalfDoorWidth > c then spans + [Span(c, ps[0] - HalfDoorWidth)] else spans)
            + Walk(ps[0] + HalfDoorWidth, ps[1..], end)
  {
    var rest := Walk(ps[0] + HalfDoorWidth, ps[1..], end);
    if ps[0] - HalfDoorWidth > c {
      assert spans + ([Span(c, ps[0] - HalfDoorWidth)] + rest) == (spans + [Span(c, ps[0] - HalfDoorWidth)]) + rest;
    } else {
      assert [] + rest == rest;
    }
  }

  /** Emits the drawable segments of a wall: the whole wall when no door
      lies on it, otherwise the pieces left after cutting a door-width gap
      around each door on it, in ascending order. */
  method WallSegments(w: Wall, doors: seq<Door>) returns (segs: seq<Segment>)
    ensures segs == DrawableSegments(w, doors)
  {
    var wallDoors := DoorsOnWall(w, doors);
    if |wallDoors| == 0 {
      segs := [Segment(w.start, w.end)];
    } else {
      var positions := SortAscending(Positions(w, wallDoors));
      segs := CutDoorGaps(w, positions);
    }
  }

  /** What the walk is given when a wall is drawn: positions in ascending
      order, none whose gap ends before the cursor, none past the wall's end. */
  predicate WalkInput(c: int, ps: seq<int>, end: int)
  {
    Sorted(ps) && forall k :: 0 <= k < |ps| ==> c - HalfDoorWidth <= ps[k] <= end
  }

  lemma WalkInputTail(c: int, ps: seq<int>, end: int)
    requires WalkInput(c, ps, end) && ps != []
    ensures WalkInput(ps[0] + HalfDoorWidth, ps[1..], end)
  {
  }

  /** Every emitted span has positive length and lies between the cursor and the wall's end. */
  lemma {:induction false} WalkBounds(c: int, ps: seq<int>, end: int)
    requires WalkInput(c, ps, end)
    ensures forall s :: s in Walk(c, ps, end) ==> c <= s.lo < s.hi <= end
    decreases |ps|
  {
    if ps != [] {
      WalkInputTail(c, ps, end);
      WalkBounds(ps[0] + HalfDoorWidth, ps[1..], end);
    }
  }

  /** Spans in ascending order, each separated from any later one by at
      least a door width. */
  predicate Separated(w: seq<Span>)
  {
    forall i, j :: 0 <= i < j < |w| ==> w[i].hi + DoorWidth <= w[j].lo
  }

  /** Spans come out in ascending order, each separated from the next by at
      least one door gap. */
  lemma {:induction false} WalkOrdered(c: int, ps: seq<int>, end: int)
    requires WalkInput(c, ps, end)
    ensures Separated(Walk(c, ps, end))
    decreases |ps|
  {
    if ps != [] {
      WalkInputTail(c, ps, end);
      WalkOrdered(ps[0] + HalfDoorWidth, ps[1..], end);
      WalkBounds(ps[0] + HalfDoorWidth, ps[1..], end);
      WalkOrderedStep(c, ps, end);
    }
  }

  /** One step of the walk keeps the spans separated: the span before the
      first gap ends a door width before the cursor resumes. */
  lemma WalkOrderedStep(c: int, ps: seq<int>, end: int)
    requires ps != []
    requires Separated(Walk(ps[0] + HalfDoorWidth, ps[1..], end))
    requires forall s :: s in Walk(ps[0] + HalfDoorWidth, ps[1..], end) ==> ps[0] + HalfDoorWidth <= s.lo
    ensures Separated(Walk(c, ps, end))
  {
    var rest := Walk(ps[0] + HalfDoorWidth, ps[1..], end);
    if ps[0] - HalfDoorWidth > c {
      assert Walk(c, ps, end) == [Span(c, ps[0] - HalfDoorWidth)] + rest;
      SeparatedCons(Span(c, ps[0] - HalfDoorWidth), rest);
    } else {
      assert Walk(c, ps, end) == rest;
    }
  }

  lemma SeparatedCons(h: Span, rest: seq<Span>)
    requires Separated(rest)
    requires forall s :: s in rest ==> h.hi + DoorWidth <= s.lo
    ensures Separated([h] + rest)
  {
    var w := [h] + rest;
    forall i, j | 0 <= i < j < |w| ensures w[i].hi + DoorWidth <= w[j].lo {
      assert w[j] == rest[j - 1] && rest[j - 1] in rest;
      if i > 0 {
        assert w[i] == rest[i - 1];
      }
    }
  }

  /** No emitted span reaches into the open gap (pos - 20, pos + 20) of any door. */
  lemma {:induction false} WalkAvoidsGaps(c: int, ps: seq<int>, end: int)
    requires WalkInput(c, ps, end)
    ensures forall s, k :: s in Walk(c, ps, end) && 0 <= k < |ps| ==>
              s.hi <= ps[k] - HalfDoorWidth || s.lo >= ps[k] + HalfDoorWidth
    decreases |ps|
  {
    if ps != [] {
      var c' := ps[0] + HalfDoorWidth;
      WalkInputTail(c, ps, end);
      WalkAvoidsGaps(c', ps[1..], end);
      WalkBounds(c', ps[1..], end);
      forall s, k | s in Walk(c, ps, end) && 0 <= k < |ps|
        ensures s.hi <= ps[k] - HalfDoorWidth || s.lo >= ps[k] + HalfDoorWidth
      {
        if s in Walk(c', ps[1..], end) {
          if k > 0 {
            assert ps[k] == ps[1..][k - 1];
          }
        } else {
          assert s.hi == ps[0] - HalfDoorWidth;
        }
      }
    }
  }

  /** The point q lies in the gap [p - 20, p + 20) of a door at p (taken half-open). */
  predicate InGap(p: int, q: int)
  {
    p - HalfDoorWidth <= q < p + HalfDoorWidth
  }

  predicate ClearOfGaps(ps: seq<int>, q: int)
  {
    forall k :: 0 <= k < |ps| ==> !InGap(ps[k], q)
  }

  lemma ClearOfGapsCons(ps: seq<int>, q: int)
    requires ps != []
    ensures ClearOfGaps(ps, q) <==> !InGap(ps[0], q) && ClearOfGaps(ps[1..], q)
  {
    if !InGap(ps[0], q) && ClearOfGaps(ps[1..], q) {
      forall k | 0 < k < |ps| ensures !InGap(ps[k], q) {
        assert ps[k] == ps[1..][k - 1];
      }
    }
  }

  /** A point before the first gap of sorted positions is clear of every gap. */
  lemma BeforeFirstGap(ps: seq<int>, q: int)
    requires Sorted(ps) && ps != [] && q < ps[0] - HalfDoorWidth
    ensures ClearOfGaps(ps, q)
  {
    forall k | 0 <= k < |ps| ensures !InGap(ps[k], q) {
      assert ps[0] <= ps[k];
    }
  }

  /** A point of the wall is covered by an emitted span (taken half-open)
      exactly when it lies between the cursor and the end and outside every
      door's gap. */
  lemma {:induction false} WalkCoverage(c: int, ps: seq<int>, end: int, q: int)
    requires WalkInput(c, ps, end)
    ensures (exists s :: s in Walk(c, ps, end) && s.lo <= q < s.hi) <==> (c <= q < end && ClearOfGaps(ps, q))
    decreases |ps|
  {
    if ps != [] {
      var c' := ps[0] + HalfDoorWidth;
      WalkInputTail(c, ps, end);
      WalkCoverage(c', ps[1..], end, q);
      ClearOfGapsCons(ps, q);
      var rest := Walk(c', ps[1..], end);
      if ps[0] - HalfDoorWidth > c {
        assert Walk(c, ps, end) == [Span(c, ps[0] - HalfDoorWidth)] + rest;
      } else {
        assert Walk(c, ps, end) == rest;
      }
      if q < ps[0] - HalfDoorWidth {
        BeforeFirstGap(ps, q);
        if c <= q {
          assert Span(c, ps[0] - HalfDoorWidth) in Walk(c, ps, end);
        }
      }
    } else if c <= q < end {
      assert Span(c, end) in Walk(c, ps, end);
    }
  }

  /** A single door clear of both wall ends leaves exactly two pieces, whose
      lengths add up to the wall's length minus the door width. */
  lemma SingleDoorWalk(c: int, p: int, end: int)
    requires c + HalfDoorWidth < p && p + HalfDoorWidth < end
    ensures Walk(c, [p], end) == [Span(c, p - HalfDoorWidth), Span(p + HalfDoorWidth, end)]
    ensures var w := Walk(c, [p], end);
            (w[0].hi - w[0].lo) + (w[1].hi - w[1].lo) == (end - c) - DoorWidth
  {
    assert [p][1..] == [];
  }

  /** The interval a drawn segment covers along its wall's axis. */
  function SpanOf(w: Wall, seg: Segment): Span
  {
    if w.isHorizontal then Span(seg.a.x, seg.b.x) else Span(seg.a.y, seg.b.y)
  }

  function Spans(w: Wall, segs: seq<Segment>): seq<Span>
  {
    seq(|segs|, i requires 0 <= i < |segs| => SpanOf(w, segs[i]))
  }

  /** The segment lies on the wall's line (same y for a horizontal wall, same x for a vertical one). */
  predicate OnWallLine(w: Wall, seg: Segment)
  {
    if w.isHorizontal then seg.a.y == w.start.y && seg.b.y == w.start.y
    else seg.a.x == w.start.x && seg.b.x == w.start.x
  }

  lemma LiftSpans(w: Wall, spans: seq<Span>)
    ensures Spans(w, Lift(w, spans)) == spans
    ensures forall i :: 0 <= i < |spans| ==> OnWallLine(w, Lift(w, spans)[i])
  {
  }

  /** Some door lying on the wall sits at axis position p. */
  predicate DoorAt(w: Wall, doors: seq<Door>, p: int)
  {
    exists d :: d in doors && DoorOnWall(w, d) && AxisPos(w, d) == p
  }

  /** ps holds the axis positions of exactly the doors lying on the wall. */
  predicate ExactPositions(w: Wall, doors: seq<Door>, ps: seq<int>)
  {
    && (forall d :: d in doors && DoorOnWall(w, d) ==> AxisPos(w, d) in ps)
    && (forall p :: p in ps ==> DoorAt(w, doors, p))
  }

  /** The positions taken from the filtered doors are those of exactly the
      doors lying on the wall. */
  lemma FilteredPositions(w: Wall, doors: seq<Door>)
    ensures ExactPositions(w, doors, Positions(w, DoorsOnWall(w, doors)))
  {
    var wallDoors := DoorsOnWall(w, doors);
    var pos := Positions(w, wallDoors);
    forall p | p in pos ensures DoorAt(w, doors, p) {
      var i :| 0 <= i < |pos| && pos[i] == p;
      assert wallDoors[i] in wallDoors;
    }
    forall d | d in doors && DoorOnWall(w, d) ensures AxisPos(w, d) in pos {
      assert d in wallDoors;
      var i :| 0 <= i < |wallDoors| && wallDoors[i] == d;
      assert pos[i] == AxisPos(w, d);
    }
  }

  /** Sorting keeps exactly the elements it is given. */
  lemma SortKeepsElements(s: seq<int>)
    ensures forall x :: x in SortAscending(s) <==> x in s
  {
    var r := SortAscending(s);
    forall x ensures x in r <==> x in s {
      assert x in r <==> x in multiset(r);
      assert x in s <==> x in multiset(s);
    }
  }

  /** The positions walked for a wall are the positions of exactly the doors
      lying on it, and they form a valid walk input. */
  lemma WalkedPositions(w: Wall, doors: seq<Door>)
    ensures var ps := SortAscending(Positions(w, DoorsOnWall(w, doors)));
            WalkInput(AxisStart(w), ps, AxisEnd(w)) && ExactPositions(w, doors, ps)
  {
    var pos := Positions(w, DoorsOnWall(w, doors));
    var ps := SortAscending(pos);
    FilteredPositions(w, doors);
    SortKeepsElements(pos);
    assert ExactPositions(w, doors, ps);
    forall k | 0 <= k < |ps| ensures AxisStart(w) - HalfDoorWidth <= ps[k] <= AxisEnd(w) {
      assert ps[k] in ps;
      var d :| d in doors && DoorOnWall(w, d) && AxisPos(w, d) == ps[k];
    }
  }

  /** A wall with no door on it is drawn whole, as one segment. */
  lemma NoDoorsWholeWall(w: Wall, doors: seq<Door>)
    requires forall d :: d in doors ==> !DoorOnWall(w, d)
    ensures DrawableSegments(w, doors) == [Segment(w.start, w.end)]
  {
  }

  /** With doors on it, a wall is drawn as pieces on its line that have
      positive length and lie within its extent, come in ascending order
      separated by at least a door width, and never reach into the gap
      (pos - 20, pos + 20) of a door on the wall. */
  lemma DrawableSegmentsWithDoors(w: Wall, doors: seq<Door>)
    requires exists d :: d in doors && DoorOnWall(w, d)
    ensures var segs := DrawableSegments(w, doors);
            && (forall i :: 0 <= i < |segs| ==> OnWallLine(w, segs[i]))
            && (forall s :: s in Spans(w, segs) ==> AxisStart(w) <= s.lo < s.hi <= AxisEnd(w))
            && Separated(Spans(w, segs))
            && (forall s, d :: s in Spans(w, segs) && d in doors && DoorOnWall(w, d) ==>
                  s.hi <= AxisPos(w, d) - HalfDoorWidth || s.lo >= AxisPos(w, d) + HalfDoorWidth)
  {
    var d0 :| d0 in doors && DoorOnWall(w, d0);
    assert d0 in DoorsOnWall(w, doors);
    var ps := SortAscending(Positions(w, DoorsOnWall(w, doors)));
    var walk := Walk(AxisStart(w), ps, AxisEnd(w));
    assert DrawableSegments(w, doors) == Lift(w, walk);
    LiftSpans(w, walk);
    WalkedPositions(w, doors);
    WalkBounds(AxisStart(w), ps, AxisEnd(w));
    WalkOrdered(AxisStart(w), ps, AxisEnd(w));
    WalkAvoidsGaps(AxisStart(w), ps, AxisEnd(w));
    AvoidsDoors(w, doors, ps, walk);
  }

  /** Spans clear of the gaps around exact positions are clear of the gaps
      around the doors they come from. */
  lemma AvoidsDoors(w: Wall, doors: seq<Door>, ps: seq<int>, walk: seq<Span>)
    requires ExactPositions(w, doors, ps)
    requires forall s, k :: s in walk && 0 <= k < |ps| ==>
               s.hi <= ps[k] - HalfDoorWidth || s.lo >= ps[k] + HalfDoorWidth
    ensures forall s, d :: s in walk && d in doors && DoorOnWall(w, d) ==>
              s.hi <= AxisPos(w, d) - HalfDoorWidth || s.lo >= AxisPos(w, d) + HalfDoorWidth
  {
    forall s, d | s in walk && d in doors && DoorOnWall(w, d)
      ensures s.hi <= AxisPos(w, d) - HalfDoorWidth || s.lo >= AxisPos(w, d) + HalfDoorWidth
    {
      assert AxisPos(w, d) in ps;
      var k :| 0 <= k < |ps| && ps[k] == AxisPos(w, d);
    }
  }

  /** Exact positions are clear of a point exactly when the doors they come from are. */
  lemma ClearOfDoors(w: Wall, doors: seq<Door>, ps: seq<int>, q: int)
    requires ExactPositions(w, doors, ps)
    ensures ClearOfGaps(ps, q) <==> forall d :: d in doors && DoorOnWall(w, d) ==> !InGap(AxisPos(w, d), q)
  {
    if ClearOfGaps(ps, q) {
      forall d | d in doors && DoorOnWall(w, d) ensures !InGap(AxisPos(w, d), q) {
        assert AxisPos(w, d) in ps;
        var k :| 0 <= k < |ps| && ps[k] == AxisPos(w, d);
      }
    } else {
      var k :| 0 <= k < |ps| && InGap(ps[k], q);
      assert ps[k] in ps;
      var d :| d in doors && DoorOnWall(w, d) && AxisPos(w, d) == ps[k];
    }
  }

  /** With doors on it, a point of a wall is covered by a drawn piece (taken
      half-open) exactly when it lies within the wall's extent and outside
      the door gap of every door on the wall. */
  lemma DrawableCoverage(w: Wall, doors: seq<Door>, q: int)
    requires exists d :: d in doors && DoorOnWall(w, d)
    ensures (exists s :: s in Spans(w, DrawableSegments(w, doors)) && s.lo <= q < s.hi)
        <==> (&& AxisStart(w) <= q < AxisEnd(w)
              && forall d :: d in doors && DoorOnWall(w, d) ==> !InGap(AxisPos(w, d), q))
  {
    var d0 :| d0 in doors && DoorOnWall(w, d0);
    assert d0 in DoorsOnWall(w, doors);
    var ps := SortAscending(Positions(w, DoorsOnWall(w, doors)));
    var walk := Walk(AxisStart(w), ps, AxisEnd(w));
    assert DrawableSegments(w, doors) == Lift(w, walk);
    LiftSpans(w, walk);
    WalkedPositions(w, doors);
    WalkCoverage(AxisStart(w), ps, AxisEnd(w), q);
    ClearOfDoors(w, doors, ps, q);
  }

  lemma {:induction false} DoorsOnWallSingle(w: Wall, doors: seq<Door>, k: int)
    requires 0 <= k < |doors| && DoorOnWall(w, doors[k])
    requires forall j :: 0 <= j < |doors| && j != k ==> !DoorOnWall(w, doors[j])
    ensures DoorsOnWall(w, doors) == [doors[k]]
    decreases |doors|
  {
    var rest := DoorsOnWall(w, doors[1..]);
    if k == 0 {
      forall j | 0 <= j < |doors| - 1 ensures !DoorOnWall(w, doors[1..][j]) {
        assert doors[1..][j] == doors[j + 1];
      }
    } else {
      forall j | 0 <= j < |doors| - 1 && j != k - 1 ensures !DoorOnWall(w, doors[1..][j]) {
        assert doors[1..][j] == doors[j + 1];
      }
      DoorsOnWallSingle(w, doors[1..], k - 1);
    }
  }

  /** One door on a wall, clear of both wall ends by more than half a door
      width, leaves exactly two pieces: up to the gap and after it, together
      the wall's length minus the door width. */
  lemma SingleDoorWall(w: Wall, doors: seq<Door>, k: int)
    requires 0 <= k < |doors| && DoorOnWall(w, doors[k])
    requires forall j :: 0 <= j < |doors| && j != k ==> !DoorOnWall(w, doors[j])
    requires AxisStart(w) + HalfDoorWidth < AxisPos(w, doors[k])
    requires AxisPos(w, doors[k]) + HalfDoorWidth < AxisEnd(w)
    ensures var p := AxisPos(w, doors[k]);
            DrawableSegments(w, doors)
              == [SegmentAt(w, AxisStart(w), p - HalfDoorWidth), SegmentAt(w, p + HalfDoorWidth, AxisEnd(w))]
    ensures var sp := Spans(w, DrawableSegments(w, doors));
            |sp| == 2 && (sp[0].hi - sp[0].lo) + (sp[1].hi - sp[1].lo) == (AxisEnd(w) - AxisStart(w)) - DoorWidth
  {
    var p := AxisPos(w, doors[k]);
    DoorsOnWallSingle(w, doors, k);
    assert Positions(w, [doors[k]]) == [p];
    assert SortAscending([p]) == [p] by {
      assert [p][1..] == [];
    }
    SingleDoorWalk(AxisStart(w), p, AxisEnd(w));
  }

  /** The segments drawn for a sequence of walls, wall after wall; each wall
      gives at most one piece per door plus one. */
  function SegmentsOfWalls(ws: seq<Wall>, doors: seq<Door>): (segs: seq<Segment>)
    ensures |segs| <= |ws| * (|doors| + 1)
    decreases |ws|
  {
    if ws == [] then []
    else
      var prefix := SegmentsOfWalls(ws[..|ws| - 1], doors);
      assert (|ws| - 1) * (|doors| + 1) + (|doors| + 1) == |ws| * (|doors| + 1);
      prefix + DrawableSegments(ws[|ws| - 1], doors)
  }

  /** Draws a room's walls in the order top, right, bottom, left, each with
      its door gaps cut out. */
  method RoomWithDoors(r: Room, doors: seq<Door>) returns (segs: seq<Segment>)
    ensures segs == SegmentsOfWalls(WallsOf(r), doors)
  {
    var walls := WallsOf(r);
    segs := [];
    for i := 0 to |walls|
      invariant segs == SegmentsOfWalls(walls[..i], doors)
    {
      var wallSegs := WallSegments(walls[i], doors);
      assert walls[..i + 1][..i] == walls[..i];
      segs := segs + wallSegs;
    }
    assert walls[..|walls|] == walls;
  }

  /** A room without doors on it is drawn as its outline: its four walls, whole, in order. */
  lemma RoomWithoutDoorsIsOutline(r: Room, doors: seq<Door>)
    requires forall d, i :: d in doors && 0 <= i < 4 ==> !DoorOnWall(WallsOf(r)[i], d)
    ensures var ws := WallsOf(r);
            SegmentsOfWalls(ws, doors)
              == [ Segment(ws[0].start, ws[0].end), Segment(ws[1].start, ws[1].end),
                   Segment(ws[2].start, ws[2].end), Segment(ws[3].start, ws[3].end) ]
  {
    var ws := WallsOf(r);
    NoDoorsWholeWall(ws[0], doors);
    NoDoorsWholeWall(ws[1], doors);
    NoDoorsWholeWall(ws[2], doors);
    NoDoorsWholeWall(ws[3], doors);
    assert ws[..1][..0] == [];
    assert SegmentsOfWalls(ws[..1], doors) == [Segment(ws[0].start, ws[0].end)];
    assert ws[..2][..1] == ws[..1];
    assert SegmentsOfWalls(ws[..2], doors) == SegmentsOfWalls(ws[..1], doors) + [Segment(ws[1].start, ws[1].end)];
    assert ws[..3][..2] == ws[..2];
    assert SegmentsOfWalls(ws[..3], doors) == SegmentsOfWalls(ws[..2], doors) + [Segment(ws[2].start, ws[2].end)];
    assert ws[..4] == ws && ws[..4][..3] == ws[..3];
  }

  /** The top wall of a 200 x 100 room at the origin, without doors, is one segment. */
  lemma ExampleTopWallWithoutDoors()
    ensures DrawableSegments(WallsOf(Room(0, 0, 200, 100))[0], [])
            == [Segment(Point(0, 0), Point(200, 0))]
  {
  }

  /** The same wall with a door at (100, 0) is cut into (0,0)-(80,0) and (120,0)-(200,0). */
  lemma ExampleTopWallWithDoor()
    ensures DrawableSegments(WallsOf(Room(0, 0, 200, 100))[0], [Door(100, 0, Horizontal)])
            == [Segment(Point(0, 0), Point(80, 0)), Segment(Point(120, 0), Point(200, 0))]
  {
    SingleDoorWall(WallsOf(Room(0, 0, 200, 100))[0], [Door(100, 0, Horizontal)], 0);
  }
}
