/** Drawing a skyline: the collapsed list of the tree is turned into the line
    segments a drawing surface is asked to draw, in the order it is asked to
    draw them. The drawing surface is represented by the trace of those calls. */
module SkylineDrawing {
  import opened BuildingValue
  import opened SkylineSpec
  import opened SkylineTree

  /** One call to the drawing surface: a line from (fromX, fromY) to (toX, toY). */
  datatype Line = Line(fromX: real, fromY: real, toX: real, toY: real)

  predicate IsHorizontal(l: Line) {
    l.fromY == l.toY && l.fromX < l.toX
  }

  /** The left wall of a building, from the ground up. */
  function LeftSide(b: Building): Line {
    Line(b.start, 0.0, b.start, b.height)
  }

  /** The roof of a building. */
  function TopSide(b: Building): Line {
    Line(b.start, b.height, b.end, b.height)
  }

  /** The right wall of a building, from the ground up. */
  function RightSide(b: Building): Line {
    Line(b.end, 0.0, b.end, b.height)
  }

  /** The step from the roof of `previous` to the roof of `it`. */
  function Connection(previous: Building, it: Building): Line {
    Line(previous.end, previous.height, it.start, it.height)
  }

  /** The lines drawn for the building at index i: the first building gets
      its left wall; a later one gets its right wall when it is the last one
      and the step from its neighbour's roof when that neighbour touches it;
      every building gets its roof, last. With `closed`, the right wall of
      the last building is drawn even when it is also the first one. */
  function StrokesAt(bs: seq<Building>, i: nat, closed: bool): seq<Line>
    requires i < |bs|
  {
    if i == 0 then
      [LeftSide(bs[0])]
      + (if closed && |bs| == 1 then [RightSide(bs[0])] else [])
      + [TopSide(bs[0])]
    else
      (if i == |bs| - 1 then [RightSide(bs[i])] else [])
      + (if IsLeftAdjacentOf(bs[i - 1], bs[i]) then [Connection(bs[i - 1], bs[i])] else [])
      + [TopSide(bs[i])]
  }

  /** The strokes of every index, in order. */
  function Strokes(bs: seq<Building>, closed: bool): (parts: seq<seq<Line>>)
    ensures |parts| == |bs|
  {
    seq(|bs|, i requires 0 <= i < |bs| => StrokesAt(bs, i, closed))
  }

  /** The parts one after the other. */
  function Flatten<T>(parts: seq<seq<T>>): seq<T> {
    if parts == [] then [] else Flatten(parts[..|parts| - 1]) + parts[|parts| - 1]
  }

  /** Everything drawn for the list of buildings, in order. */
  function Drawing(bs: seq<Building>, closed: bool): seq<Line> {
    Flatten(Strokes(bs, closed))
  }

  /** How many neighbours among the first n buildings touch. */
  function TouchingUpTo(bs: seq<Building>, n: nat): (r: nat)
    requires n <= |bs|
    ensures r < n || n == 0
  {
    if n <= 1 then 0
    else TouchingUpTo(bs, n - 1) + (if IsLeftAdjacentOf(bs[n - 2], bs[n - 1]) then 1 else 0)
  }

  // ---------------------------------------------------------------------------
  // The drawing methods

  /** Draws the skyline of the tree: its collapsed list, building by building. */
  method DrawSkyline(skyline: SkylineNode) returns (lines: seq<Line>)
    requires skyline.Valid()
    ensures lines == Drawing(Collapse(skyline.Contents), false)
    ensures forall l :: l in lines && IsHorizontal(l) ==>
              forall x :: l.fromX <= x < l.toX ==> SkyHeight(skyline.Contents, x) == l.fromY
    ensures forall x :: SkyHeight(skyline.Contents, x) > 0.0 ==>
              exists l :: l in lines && IsHorizontal(l) && l.fromX <= x < l.toX && l.fromY == SkyHeight(skyline.Contents, x)
  {
    var buildings := skyline.CollapsedList();
    lines := DrawList(buildings, false);
    DrawingTracesSkyline(buildings, false);
  }

  /** Draws the skyline of the tree with the right wall of the last building
      drawn in every case. */
  method DrawSkylineClosed(skyline: SkylineNode) returns (lines: seq<Line>)
    requires skyline.Valid()
    ensures lines == Drawing(Collapse(skyline.Contents), true)
    ensures lines != [] && lines[0] == LeftSide(Collapse(skyline.Contents)[0])
    ensures RightSide(Last(Collapse(skyline.Contents))) in lines
  {
    var buildings := skyline.CollapsedList();
    lines := DrawList(buildings, true);
    DrawingStartsWithLeftSide(buildings, true);
    RightSideDrawn(buildings, true);
  }

  /** The loop of the drawing: for each index, the lines of StrokesAt. */
  method DrawList(buildings: seq<Building>, closed: bool) returns (lines: seq<Line>)
    ensures lines == Drawing(buildings, closed)
  {
    lines := [];
    if |buildings| == 0 {
      return;
    }

    for i := 0 to |buildings|
      invariant lines == Flatten(Strokes(buildings, closed)[..i])
    {
      ghost var drawn := lines;
      var it := buildings[i];
      if i == 0 {
        lines := lines + [LeftSide(it)];
        if closed && i == |buildings| - 1 {
          lines := lines + [RightSide(it)];
        }
      } else {
        if i == |buildings| - 1 {
          lines := lines + [RightSide(it)];
        }

        var previous := buildings[i - 1];
        if IsLeftAdjacentOf(previous, it) {
          lines := lines + [Connection(previous, it)];
        }
      }

      // The roof, always
      lines := lines + [TopSide(it)];
      assert lines == drawn + StrokesAt(buildings, i, closed);
      assert Strokes(buildings, closed)[..i + 1][..i] == Strokes(buildings, closed)[..i];
    }
    assert Strokes(buildings, closed)[..|buildings|] == Strokes(buildings, closed);
  }

  function Last(bs: seq<Building>): Building
    requires bs != []
  {
    bs[|bs| - 1]
  }

  // ---------------------------------------------------------------------------
  // What the drawing contains

  /** An empty list draws nothing. */
  lemma NothingDrawnForNothing(closed: bool)
    ensures Drawing([], closed) == []
  {
  }

  /** The tree with no building collapses to the single EMPTY building, so it
      is drawn as two lines of no length at the origin. */
  lemma EmptyTreeDrawing(closed: bool)
    ensures Drawing(Collapse([]), closed) ==
              [Line(0.0, 0.0, 0.0, 0.0)]
              + (if closed then [Line(0.0, 0.0, 0.0, 0.0)] else [])
              + [Line(0.0, 0.0, 0.0, 0.0)]
  {
    assert Collapse([]) == [EMPTY];
    FlattenSingle(Strokes([EMPTY], closed));
  }

  /** The number of lines drawn for n buildings: one roof each, one left
      wall, one right wall when there are several buildings (or `closed`),
      and one step per pair of touching neighbours. */
  lemma DrawingLength(bs: seq<Building>, closed: bool)
    requires bs != []
    ensures |Drawing(bs, closed)| ==
              |bs| + 1 + (if |bs| > 1 || closed then 1 else 0) + TouchingUpTo(bs, |bs|)
  {
    DrawnLength(bs, |bs|, closed);
    assert Strokes(bs, closed)[..|bs|] == Strokes(bs, closed);
  }

  lemma {:induction false} DrawnLength(bs: seq<Building>, n: nat, closed: bool)
    requires 0 < n <= |bs|
    ensures |Flatten(Strokes(bs, closed)[..n])| ==
              n + 1 + (if n == |bs| && (n > 1 || closed) then 1 else 0) + TouchingUpTo(bs, n)
  {
    var parts := Strokes(bs, closed)[..n];
    assert parts[..n - 1] == Strokes(bs, closed)[..n - 1];
    assert parts[n - 1] == StrokesAt(bs, n - 1, closed);
    if n > 1 {
      DrawnLength(bs, n - 1, closed);
    }
  }

  // ---------------------------------------------------------------------------
  // Flattening

  /** Flattening the first m parts gives a prefix of flattening them all. */
  lemma {:induction false} FlattenPrefix<T>(parts: seq<seq<T>>, m: nat)
    requires m <= |parts|
    ensures Flatten(parts[..m]) <= Flatten(parts)
    decreases |parts|
  {
    if m < |parts| {
      var init := parts[..|parts| - 1];
      assert init[..m] == parts[..m];
      FlattenPrefix(init, m);
      assert (Flatten(init) + parts[|parts| - 1])[..|Flatten(init)|] == Flatten(init);
    } else {
      assert parts[..m] == parts;
    }
  }

  /** Every element of every part is in the flattening. */
  lemma {:induction false} FlattenHas<T>(parts: seq<seq<T>>, i: nat, x: T)
    requires i < |parts| && x in parts[i]
    ensures x in Flatten(parts)
    decreases |parts|
  {
    if i < |parts| - 1 {
      FlattenHas(parts[..|parts| - 1], i, x);
    }
  }

  /** Every element of the flattening comes from some part. */
  lemma {:induction false} FlattenFrom<T>(parts: seq<seq<T>>, x: T) returns (i: nat)
    requires x in Flatten(parts)
    ensures i < |parts| && x in parts[i]
    decreases |parts|
  {
    if x in parts[|parts| - 1] {
      i := |parts| - 1;
    } else {
      i := FlattenFrom(parts[..|parts| - 1], x);
    }
  }

  /** The first line drawn is the left wall of the first building. */
  lemma DrawingStartsWithLeftSide(bs: seq<Building>, closed: bool)
    requires bs != []
    ensures Drawing(bs, closed) != [] && Drawing(bs, closed)[0] == LeftSide(bs[0])
  {
    var parts := Strokes(bs, closed);
    FlattenPrefix(parts, 1);
    assert parts[..1][..0] == [];
    assert Flatten(parts[..1]) == parts[0];
  }

  /** The roof of each building is the last line drawn for it: what is
      drawn up to it ends with its roof. */
  lemma RoofDrawnLast(bs: seq<Building>, i: nat, closed: bool)
    requires i < |bs|
    ensures var d := Flatten(Strokes(bs, closed)[..i + 1]); d != [] && d[|d| - 1] == TopSide(bs[i])
  {
    assert Strokes(bs, closed)[..i + 1][i] == StrokesAt(bs, i, closed);
  }

  /** The right wall of the last building is drawn when there are several
      buildings, or when the drawing is `closed`. */
  lemma RightSideDrawn(bs: seq<Building>, closed: bool)
    requires bs != [] && (|bs| > 1 || closed)
    ensures RightSide(Last(bs)) in Drawing(bs, closed)
  {
    FlattenHas(Strokes(bs, closed), |bs| - 1, RightSide(Last(bs)));
  }

  /** Between two solid neighbours, the step is drawn exactly when they touch. */
  lemma ConnectionIffTouching(bs: seq<Building>, i: nat, closed: bool)
    requires Solid(bs) && 0 < i < |bs|
    ensures Connection(bs[i - 1], bs[i]) in StrokesAt(bs, i, closed) <==> IsLeftAdjacentOf(bs[i - 1], bs[i])
  {
    assert bs[i - 1] in bs && bs[i] in bs;
  }

  /** As written, a single building is drawn without its right wall: only
      its left wall and its roof. */
  lemma SingleBuildingLacksRightSide(b: Building)
    requires IsNotEmpty(b)
    ensures Drawing([b], false) == [LeftSide(b), TopSide(b)]
    ensures RightSide(b) !in Drawing([b], false)
  {
    FlattenSingle(Strokes([b], false));
  }

  /** The closed drawing of a single building has both walls and the roof. */
  lemma SingleBuildingClosed(b: Building)
    ensures Drawing([b], true) == [LeftSide(b), RightSide(b), TopSide(b)]
  {
    FlattenSingle(Strokes([b], true));
  }

  lemma FlattenSingle<T>(parts: seq<seq<T>>)
    requires |parts| == 1
    ensures Flatten(parts) == parts[0]
  {
    assert parts[..0] == [];
  }

  // ---------------------------------------------------------------------------
  // The drawing and the skyline

  /** The horizontal lines of the drawing of a collapsed skyline are exactly
      its roofs: each lies at the skyline height over its whole length, and
      wherever the skyline stands above the ground a horizontal line is drawn
      at that height. */
  lemma DrawingTracesSkyline(bs: seq<Building>, closed: bool)
    requires IsCollapsedSkyline(bs)
    ensures forall l :: l in Drawing(bs, closed) && IsHorizontal(l) ==>
              forall x :: l.fromX <= x < l.toX ==> SkyHeight(bs, x) == l.fromY
    ensures forall x :: SkyHeight(bs, x) > 0.0 ==>
              exists l :: l in Drawing(bs, closed) && IsHorizontal(l) && l.fromX <= x < l.toX && l.fromY == SkyHeight(bs, x)
  {
    if bs == [EMPTY] {
      FlattenSingle(Strokes(bs, closed));
      assert forall x :: SkyHeight(bs, x) == 0.0;
    } else {
      RoofsTraceSkyline(bs, closed);
      SkylineUnderRoofs(bs, closed);
    }
  }

  /** Each horizontal line drawn for a canonical list lies at the skyline
      height over its whole length. */
  lemma RoofsTraceSkyline(bs: seq<Building>, closed: bool)
    requires Canonical(bs)
    ensures forall l :: l in Drawing(bs, closed) && IsHorizontal(l) ==>
              forall x :: l.fromX <= x < l.toX ==> SkyHeight(bs, x) == l.fromY
  {
    forall l | l in Drawing(bs, closed) && IsHorizontal(l)
      ensures forall x :: l.fromX <= x < l.toX ==> SkyHeight(bs, x) == l.fromY
    {
      var i := FlattenFrom(Strokes(bs, closed), l);
      HorizontalStrokeIsRoof(bs, i, closed, l);
      forall x | l.fromX <= x < l.toX ensures SkyHeight(bs, x) == l.fromY {
        SkyHeightCovered(bs, i, x);
      }
    }
  }

  /** Wherever a canonical list stands above the ground, a horizontal line is
      drawn at its height. */
  lemma SkylineUnderRoofs(bs: seq<Building>, closed: bool)
    requires Canonical(bs)
    ensures forall x :: SkyHeight(bs, x) > 0.0 ==>
              exists l :: l in Drawing(bs, closed) && IsHorizontal(l) && l.fromX <= x < l.toX && l.fromY == SkyHeight(bs, x)
  {
    forall x | SkyHeight(bs, x) > 0.0
      ensures exists l :: l in Drawing(bs, closed) && IsHorizontal(l) && l.fromX <= x < l.toX && l.fromY == SkyHeight(bs, x)
    {
      SkyHeightIsTallest(bs, x);
      var b :| b in bs && SkyHeight(bs, x) == HeightAt(b, x);
      var i :| 0 <= i < |bs| && bs[i] == b;
      assert TopSide(b) in Strokes(bs, closed)[i];
      FlattenHas(Strokes(bs, closed), i, TopSide(b));
    }
  }

  /** In a canonical list, the only horizontal stroke of index i is the roof
      of the i-th building. */
  lemma HorizontalStrokeIsRoof(bs: seq<Building>, i: nat, closed: bool, l: Line)
    requires Canonical(bs) && i < |bs| && l in Strokes(bs, closed)[i] && IsHorizontal(l)
    ensures l == TopSide(bs[i])
  {
    assert l in StrokesAt(bs, i, closed);
  }
}
