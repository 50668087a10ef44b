/** An immutable interval with a height: the x-range [start, end) of one
    building of the skyline and how tall it is. Coordinates are exact reals. */
module BuildingValue {

  datatype Building = Building(start: real, end: real, height: real)

  /** The one shared "no building here" value. */
  const EMPTY := Building(0.0, 0.0, 0.0)

  function Min(x: real, y: real): real { if x <= y then x else y }
  function Max(x: real, y: real): real { if x >= y then x else y }

  /** The factory only ever produces buildings whose start is not after their end. */
  predicate WellFormed(b: Building) { b.start <= b.end }

  /** A copy of `b` with only the height replaced. */
  function WithHeight(b: Building, height: real): (r: Building)
    ensures r.start == b.start && r.end == b.end && r.height == height
    ensures IsEmpty(r) <==> r.end == r.start || height <= 0.0
  {
    b.(height := height)
  }

  /** Zero width or no positive height. */
  predicate IsEmpty(b: Building) {
    b.end == b.start || b.height <= 0.0
  }

  predicate IsNotEmpty(b: Building) {
    !IsEmpty(b)
  }

  /** `b` ends at or before `that` starts (touching counts as left of). */
  predicate IsLeftOf(b: Building, that: Building) {
    b.end <= that.start
  }

  /** `b` starts at or after `that` ends (touching counts as right of). */
  predicate IsRightOf(b: Building, that: Building) {
    b.start >= that.end
  }

  /** `b` ends exactly where `that` starts. */
  predicate IsLeftAdjacentOf(b: Building, that: Building) {
    b.end == that.start
  }

  predicate IsSameHeight(b: Building, that: Building) {
    b.height == that.height
  }

  /** `b` sticks out on the left of `that` while reaching into it. */
  predicate IsOverlappingLeftOf(b: Building, that: Building) {
    b.end > that.start && b.start < that.start
  }

  /** `b` sticks out on the right of `that` while reaching into it. */
  predicate IsOverlappingRightOf(b: Building, that: Building) {
    that.end > b.start && b.end > that.end
  }

  /** The building (start, end, height), normalised to EMPTY when it is empty. */
  function OrEmpty(start: real, end: real, height: real): (r: Building)
    ensures r == EMPTY || IsNotEmpty(r)
    ensures IsNotEmpty(r) ==> r == Building(start, end, height)
    ensures r == EMPTY <==> start == end || height <= 0.0
  {
    var building := Building(start, end, height);
    if IsEmpty(building) then EMPTY else building
  }

  /** The part of the two spans that lies between their starts, with the height
      of the building that starts further left (a tie keeps `b`'s height). */
  function LeftPartOfBoth(b: Building, that: Building): (r: Building)
    ensures IsEmpty(b) || IsEmpty(that) ==> r == EMPTY
    ensures r == EMPTY || IsNotEmpty(r)
    ensures IsNotEmpty(b) && IsNotEmpty(that) && b.start == that.start ==> r == EMPTY
    ensures IsNotEmpty(b) && IsNotEmpty(that) && b.start != that.start ==>
      r == Building(Min(b.start, that.start), Max(b.start, that.start),
                    if that.start < b.start then that.height else b.height)
  {
    if IsEmpty(b) || IsEmpty(that) then
      EMPTY
    else
      var leftPartHeight := if that.start < b.start then that.height else b.height;
      var start := Min(b.start, that.start);
      var end := Max(b.start, that.start);
      OrEmpty(start, end, leftPartHeight)
  }

  /** The part of the two spans that lies between their ends, with the height
      of the building that ends further right (a tie keeps `b`'s height). */
  function RightPartOfBoth(b: Building, that: Building): (r: Building)
    ensures IsEmpty(b) || IsEmpty(that) ==> r == EMPTY
    ensures r == EMPTY || IsNotEmpty(r)
    ensures IsNotEmpty(b) && IsNotEmpty(that) && b.end == that.end ==> r == EMPTY
    ensures IsNotEmpty(b) && IsNotEmpty(that) && b.end != that.end ==>
      r == Building(Min(b.end, that.end), Max(b.end, that.end),
                    if that.end > b.end then that.height else b.height)
  {
    if IsEmpty(b) || IsEmpty(that) then
      EMPTY
    else
      var rightPartHeight := if that.end > b.end then that.height else b.height;
      var start := Min(b.end, that.end);
      var end := Max(b.end, that.end);
      OrEmpty(start, end, rightPartHeight)
  }

  /** The x-range both buildings share, with the taller of the two heights.
      The four overlap cases of the code all come down to one range:
      from the later start to the earlier end. */
  function Intersect(b: Building, that: Building): (r: Building)
    ensures IsLeftOf(b, that) || IsRightOf(b, that) ==> r == EMPTY
    ensures !IsLeftOf(b, that) && !IsRightOf(b, that) ==>
      r == OrEmpty(Max(b.start, that.start), Min(b.end, that.end), Max(b.height, that.height))
  {
    if IsLeftOf(b, that) || IsRightOf(b, that) then
      EMPTY
    else
      var isOverlappingLeft := IsOverlappingLeftOf(b, that);
      var isOverlappingRight := IsOverlappingRightOf(b, that);
      var maxHeight := Max(b.height, that.height);
      if isOverlappingLeft && isOverlappingRight then
        OrEmpty(that.start, that.end, maxHeight)
      else if isOverlappingLeft then
        OrEmpty(that.start, b.end, maxHeight)
      else if isOverlappingRight then
        OrEmpty(b.start, that.end, maxHeight)
      else
        OrEmpty(b.start, b.end, maxHeight)
  }

  /** How tall `b` stands at x: its height on [start, end) if it is not empty,
      and 0 everywhere else. */
  function HeightAt(b: Building, x: real): (h: real)
    ensures h >= 0.0
    ensures h > 0.0 <==> IsNotEmpty(b) && b.start <= x < b.end
  {
    if IsNotEmpty(b) && b.start <= x < b.end then b.height else 0.0
  }

  /** Two buildings that overlap: neither is left of nor right of the other. */
  predicate Overlap(a: Building, b: Building) {
    !IsLeftOf(a, b) && !IsRightOf(a, b)
  }

  // ---------------------------------------------------------------------------
  // Properties

  /** A well-formed building is empty exactly when it raises no point of the skyline. */
  lemma EmptyIffFlat(b: Building)
    requires WellFormed(b)
    ensures IsEmpty(b) <==> forall x :: HeightAt(b, x) == 0.0
  {
    if IsNotEmpty(b) {
      assert HeightAt(b, b.start) > 0.0;
    }
  }

  /** Left-of and right-of are mirror images of each other. */
  lemma LeftOfIsMirroredRightOf(a: Building, b: Building)
    ensures IsLeftOf(a, b) <==> IsRightOf(b, a)
  {
  }

  /** Because spans are half-open, "left of or right of" (touching allowed) means
      exactly that the two non-empty buildings share no point. */
  lemma SeparatedIffNoCommonPoint(a: Building, b: Building)
    requires WellFormed(a) && WellFormed(b) && IsNotEmpty(a) && IsNotEmpty(b)
    ensures !Overlap(a, b) <==> forall x :: !(HeightAt(a, x) > 0.0 && HeightAt(b, x) > 0.0)
  {
    if Overlap(a, b) {
      var x := Max(a.start, b.start);
      assert HeightAt(a, x) > 0.0 && HeightAt(b, x) > 0.0;
    }
  }

  /** Gluing a building to an adjacent one of the same height raises exactly
      the points the two raised. */
  lemma MergeAdjacentSameHeight(a: Building, b: Building, x: real)
    requires WellFormed(a) && WellFormed(b) && IsNotEmpty(a) && IsNotEmpty(b)
    requires IsLeftAdjacentOf(a, b) && IsSameHeight(a, b)
    ensures IsNotEmpty(a.(end := b.end))
    ensures HeightAt(a.(end := b.end), x) == Max(HeightAt(a, x), HeightAt(b, x))
  {
  }

  /** The left part does not depend on which building is the receiver, unless
      both start at the same x (then the receiver's height wins). */
  lemma LeftPartSymmetric(a: Building, b: Building)
    requires a.start != b.start
    ensures LeftPartOfBoth(a, b) == LeftPartOfBoth(b, a)
  {
  }

  /** The right part does not depend on which building is the receiver, unless
      both end at the same x. */
  lemma RightPartSymmetric(a: Building, b: Building)
    requires a.end != b.end
    ensures RightPartOfBoth(a, b) == RightPartOfBoth(b, a)
  {
  }

  /** The intersection does not depend on which building is the receiver. */
  lemma IntersectSymmetric(a: Building, b: Building)
    ensures Intersect(a, b) == Intersect(b, a)
  {
  }

  /** Two overlapping non-empty buildings share a non-empty part, at the
      taller of their heights. */
  lemma IntersectOfOverlap(existing: Building, added: Building)
    requires WellFormed(existing) && WellFormed(added)
    requires IsNotEmpty(existing) && IsNotEmpty(added) && Overlap(added, existing)
    ensures IsNotEmpty(Intersect(added, existing))
    ensures Intersect(added, existing).height == Max(existing.height, added.height)
  {
  }

  /** Splitting two overlapping non-empty buildings, as the tree does with the
      node's `existing` building and the `added` one: the left part, the
      intersection and the right part lie side by side from the leftmost start
      to the rightmost end, the intersection is never EMPTY and takes the
      taller height, and at every x the three pieces stand exactly as tall as
      the taller of the two original buildings. */
  lemma SplitOverlap(existing: Building, added: Building)
    requires WellFormed(existing) && WellFormed(added)
    requires IsNotEmpty(existing) && IsNotEmpty(added) && Overlap(added, existing)
    ensures var lp := LeftPartOfBoth(existing, added);
            var mid := Intersect(added, existing);
            var rp := RightPartOfBoth(existing, added);
            && IsNotEmpty(mid)
            && mid.start == Max(existing.start, added.start)
            && mid.end == Min(existing.end, added.end)
            && mid.height == Max(existing.height, added.height)
            && (lp == EMPTY <==> existing.start == added.start)
            && (lp != EMPTY ==> lp.start == Min(existing.start, added.start) && lp.end == mid.start)
            && (rp == EMPTY <==> existing.end == added.end)
            && (rp != EMPTY ==> rp.start == mid.end && rp.end == Max(existing.end, added.end))
            && forall x :: Max(Max(HeightAt(lp, x), HeightAt(mid, x)), HeightAt(rp, x))
                           == Max(HeightAt(existing, x), HeightAt(added, x))
  {
  }
}
