/** What a list of buildings means as a skyline: the height it shows at every
    x, when it is ordered, and what the collapsing pass of the tree computes. */
module SkylineSpec {
  import opened BuildingValue

  /** The skyline height of a list of buildings at x: the tallest of them
      standing over x, 0 if none does. */
  function SkyHeight(s: seq<Building>, x: real): (h: real)
    ensures h >= 0.0
  {
    if s == [] then 0.0 else Max(HeightAt(s[0], x), SkyHeight(s[1..], x))
  }

  /** The skyline height is the height of the tallest building standing over
      x: no building of the list is taller there, and unless it is 0 some
      building stands exactly that tall. */
  lemma {:induction false} SkyHeightIsTallest(s: seq<Building>, x: real)
    ensures forall b :: b in s ==> HeightAt(b, x) <= SkyHeight(s, x)
    ensures SkyHeight(s, x) == 0.0 || exists b :: b in s && SkyHeight(s, x) == HeightAt(b, x)
    decreases |s|
  {
    if s != [] {
      SkyHeightIsTallest(s[1..], x);
      assert forall b :: b in s ==> b == s[0] || b in s[1..];
    }
  }

  /** Every building of the list is a non-empty, well-formed building. */
  ghost predicate Solid(s: seq<Building>) {
    forall b :: b in s ==> IsNotEmpty(b) && WellFormed(b)
  }

  /** Every building lies left of every later one (touching is allowed). */
  ghost predicate Sorted(s: seq<Building>) {
    forall i, j :: 0 <= i < j < |s| ==> IsLeftOf(s[i], s[j])
  }

  /** The merge rule of the collapsing pass: touching and equally tall. */
  predicate CanBeMerged(left: Building, right: Building) {
    AreAdjacent(left, right) && IsSameHeight(left, right)
  }

  predicate AreAdjacent(left: Building, right: Building) {
    left.end == right.start
  }

  /** No two neighbours could still be merged. */
  ghost predicate Unmergeable(s: seq<Building>) {
    forall i :: 0 <= i < |s| - 1 ==> !CanBeMerged(s[i], s[i + 1])
  }

  /** A fully collapsed skyline: solid, ordered and with no mergeable neighbours. */
  ghost predicate Canonical(s: seq<Building>) {
    Solid(s) && Sorted(s) && Unmergeable(s)
  }

  /** What the collapsing pass returns: a canonical non-empty list, or the
      single EMPTY placeholder when there was nothing to collapse. */
  ghost predicate IsCollapsedSkyline(s: seq<Building>) {
    s == [EMPTY] || (s != [] && Canonical(s))
  }

  /** The collapsing pass from a pending building `merged` over the rest of the
      list: it is extended while the next building touches it at the same
      height, and emitted otherwise; the last pending building is always emitted. */
  function CollapseFrom(merged: Building, s: seq<Building>): (r: seq<Building>)
    ensures r != []
    decreases |s|
  {
    if s == [] then
      [merged]
    else if IsEmpty(merged) then
      CollapseFrom(s[0], s[1..])
    else if CanBeMerged(merged, s[0]) then
      CollapseFrom(merged.(end := s[0].end), s[1..])
    else
      [merged] + CollapseFrom(s[0], s[1..])
  }

  function Collapse(s: seq<Building>): seq<Building> {
    CollapseFrom(EMPTY, s)
  }

  /** Every building of the list starts at or after v. */
  ghost predicate StartsFrom(s: seq<Building>, v: real) {
    forall c :: c in s ==> v <= c.start
  }

  /** Every building of the list ends at or before v. */
  ghost predicate EndsBy(s: seq<Building>, v: real) {
    forall c :: c in s ==> c.end <= v
  }

  // ---------------------------------------------------------------------------
  // Heights of lists

  lemma {:induction false} SkyHeightAppend(s: seq<Building>, t: seq<Building>, x: real)
    ensures SkyHeight(s + t, x) == Max(SkyHeight(s, x), SkyHeight(t, x))
  {
    if s == [] {
      assert s + t == t;
    } else {
      assert (s + t)[1..] == s[1..] + t;
      SkyHeightAppend(s[1..], t, x);
    }
  }

  lemma SkyHeightOfJoin(l: seq<Building>, m: seq<Building>, r: seq<Building>, x: real)
    ensures SkyHeight(l + m + r, x) == Max(Max(SkyHeight(l, x), SkyHeight(m, x)), SkyHeight(r, x))
  {
    SkyHeightAppend(l + m, r, x);
    SkyHeightAppend(l, m, x);
  }

  /** `after` stands, at every x, as tall as `before` or as `b`, whichever is
      taller: it is `before` with the building `b` added to the skyline. */
  ghost predicate Raised(before: seq<Building>, after: seq<Building>, b: Building) {
    forall x :: SkyHeight(after, x) == Max(SkyHeight(before, x), HeightAt(b, x))
  }

  /** `after` reaches no further left and no further right than `before` and
      the building `b` together. */
  ghost predicate WithinBounds(before: seq<Building>, after: seq<Building>, b: Building) {
    && (forall v :: StartsFrom(before, v) && (IsNotEmpty(b) ==> v <= b.start) ==> StartsFrom(after, v))
    && (forall v :: EndsBy(before, v) && (IsNotEmpty(b) ==> b.end <= v) ==> EndsBy(after, v))
  }

  /** Replacing the three parts of a tree node (left list, own building, right
      list) by parts that are the old lists raised by a left piece and a right
      piece, around a new own building, raises the whole list by `added`
      whenever the pieces together stand as tall as the old own building and
      `added`. */
  lemma JoinHeight(l0: seq<Building>, b0: Building, r0: seq<Building>,
                   l1: seq<Building>, b1: Building, r1: seq<Building>,
                   lp: Building, rp: Building, added: Building)
    requires Raised(l0, l1, lp) && Raised(r0, r1, rp)
    requires forall x :: Max(Max(HeightAt(lp, x), HeightAt(b1, x)), HeightAt(rp, x))
                         == Max(HeightAt(b0, x), HeightAt(added, x))
    ensures Raised(l0 + [b0] + r0, l1 + [b1] + r1, added)
  {
    forall x ensures SkyHeight(l1 + [b1] + r1, x) == Max(SkyHeight(l0 + [b0] + r0, x), HeightAt(added, x)) {
      SkyHeightOfJoin(l1, [b1], r1, x);
      SkyHeightOfJoin(l0, [b0], r0, x);
      SkyHeightSingle(b1, x);
      SkyHeightSingle(b0, x);
      MaxOfSix(SkyHeight(l0, x), HeightAt(lp, x), HeightAt(b1, x), SkyHeight(r0, x), HeightAt(rp, x),
               HeightAt(b0, x), HeightAt(added, x));
    }
  }

  lemma SkyHeightSingle(b: Building, x: real)
    ensures SkyHeight([b], x) == HeightAt(b, x)
  {
    assert [b][1..] == [];
  }

  /** Rearranging the taller-of operations around a node split. */
  lemma MaxOfSix(l: real, lp: real, m: real, r: real, rp: real, m0: real, a: real)
    requires Max(Max(lp, m), rp) == Max(m0, a)
    ensures Max(Max(Max(l, lp), m), Max(r, rp)) == Max(Max(Max(l, m0), r), a)
  {
  }

  lemma StartsFromJoin(l: seq<Building>, b: Building, r: seq<Building>, v: real)
    ensures StartsFrom(l + [b] + r, v) <==> StartsFrom(l, v) && v <= b.start && StartsFrom(r, v)
  {
    assert b in l + [b] + r;
    assert forall c :: c in l + [b] + r <==> c in l || c == b || c in r;
  }

  lemma EndsByJoin(l: seq<Building>, b: Building, r: seq<Building>, v: real)
    ensures EndsBy(l + [b] + r, v) <==> EndsBy(l, v) && b.end <= v && EndsBy(r, v)
  {
    assert b in l + [b] + r;
    assert forall c :: c in l + [b] + r <==> c in l || c == b || c in r;
  }

  /** Joining two sorted lists of solid buildings around a building that lies
      between them gives a sorted list of solid buildings. */
  lemma SortedJoin(l: seq<Building>, m: seq<Building>, r: seq<Building>, b: Building)
    requires Solid(l) && Sorted(l) && Solid(r) && Sorted(r) && WellFormed(b)
    requires m == [] || (m == [b] && IsNotEmpty(b))
    requires forall c :: c in l ==> IsLeftOf(c, b)
    requires forall c :: c in r ==> IsRightOf(c, b)
    ensures Solid(l + m + r) && Sorted(l + m + r)
  {
    var s := l + m + r;
    forall i, j | 0 <= i < j < |s| ensures IsLeftOf(s[i], s[j]) {
      if j < |l| {
        assert s[i] == l[i] && s[j] == l[j];
      } else if i >= |l| + |m| {
        assert s[i] == r[i - |l| - |m|] && s[j] == r[j - |l| - |m|];
      } else {
        assert s[i] in l || s[i] == b;
        assert s[j] in r || s[j] == b;
      }
    }
  }

  /** The height of a list depends only on which buildings it holds, not on
      their order or repetitions. */
  lemma SkyHeightOfSameElements(s: seq<Building>, t: seq<Building>, x: real)
    requires forall b :: b in s <==> b in t
    ensures SkyHeight(s, x) == SkyHeight(t, x)
  {
    var hs, ht := SkyHeight(s, x), SkyHeight(t, x);
    SkyHeightIsTallest(s, x);
    SkyHeightIsTallest(t, x);
    assert ht <= hs by {
      if ht != 0.0 {
        var b :| b in t && ht == HeightAt(b, x);
        assert b in s;
      }
    }
    assert hs <= ht by {
      if hs != 0.0 {
        var b :| b in s && hs == HeightAt(b, x);
        assert b in t;
      }
    }
  }

  /** Nobody stands over x: the height there is 0. */
  lemma SkyHeightUncovered(s: seq<Building>, x: real)
    requires forall b :: b in s ==> !(b.start <= x < b.end)
    ensures SkyHeight(s, x) == 0.0
  {
    SkyHeightIsTallest(s, x);
  }

  /** In a sorted list of solid buildings, the height over a point of the k-th
      building is that building's height. */
  lemma SkyHeightCovered(s: seq<Building>, k: int, x: real)
    requires Solid(s) && Sorted(s) && 0 <= k < |s|
    requires s[k].start <= x < s[k].end
    ensures SkyHeight(s, x) == s[k].height
  {
    SkyHeightIsTallest(s, x);
    assert s[k] in s;
    forall b | b in s && b != s[k] ensures HeightAt(b, x) == 0.0 {
      var j :| 0 <= j < |s| && s[j] == b;
      assert j < k ==> IsLeftOf(s[j], s[k]);
      assert j > k ==> IsLeftOf(s[k], s[j]);
    }
  }

  // ---------------------------------------------------------------------------
  // The collapsing pass

  /** Collapsing keeps the skyline: at every x the collapsed list is as tall as
      the pending building together with the rest of the list. */
  lemma {:induction false} CollapseFromHeight(merged: Building, s: seq<Building>, x: real)
    requires WellFormed(merged) && Solid(s)
    requires IsNotEmpty(merged) || merged == EMPTY
    ensures SkyHeight(CollapseFrom(merged, s), x) == Max(HeightAt(merged, x), SkyHeight(s, x))
    decreases |s|
  {
    if s == [] {
    } else if IsEmpty(merged) {
      CollapseFromHeight(s[0], s[1..], x);
    } else if CanBeMerged(merged, s[0]) {
      MergeAdjacentSameHeight(merged, s[0], x);
      CollapseFromHeight(merged.(end := s[0].end), s[1..], x);
    } else {
      CollapseFromHeight(s[0], s[1..], x);
      assert ([merged] + CollapseFrom(s[0], s[1..]))[1..] == CollapseFrom(s[0], s[1..]);
    }
  }

  /** Collapsing a sorted list of solid buildings from a pending building that
      lies left of all of them gives a canonical list whose pieces stay within
      [merged.start, last end]. */
  lemma {:induction false} CollapseFromCanonical(merged: Building, s: seq<Building>)
    requires IsNotEmpty(merged) && WellFormed(merged)
    requires Solid(s) && Sorted(s)
    requires forall b :: b in s ==> IsLeftOf(merged, b)
    ensures var r := CollapseFrom(merged, s);
            Canonical(r) && r[0].start == merged.start && r[0].height == merged.height
            && (forall b :: b in r ==> merged.start <= b.start)
            && r[|r| - 1].end == (if s == [] then merged.end else s[|s| - 1].end)
    decreases |s|
  {
    if s == [] {
    } else if CanBeMerged(merged, s[0]) {
      assert s[0] in s;
      var m := merged.(end := s[0].end);
      forall b | b in s[1..] ensures IsLeftOf(m, b) {
        var j :| 1 <= j < |s| && s[j] == b;
        assert IsLeftOf(s[0], s[j]);
      }
      CollapseFromCanonical(m, s[1..]);
    } else {
      forall b | b in s[1..] ensures IsLeftOf(s[0], b) {
        var j :| 1 <= j < |s| && s[j] == b;
        assert IsLeftOf(s[0], s[j]);
      }
      CollapseFromCanonical(s[0], s[1..]);
      var rest := CollapseFrom(s[0], s[1..]);
      assert [merged] + rest == CollapseFrom(merged, s);
      assert IsLeftOf(merged, s[0]);
      ConsCanonical(merged, rest);
    }
  }

  /** A building left of everything in a canonical list, and not mergeable
      with its first piece, can be put in front of it. */
  lemma ConsCanonical(merged: Building, rest: seq<Building>)
    requires IsNotEmpty(merged) && WellFormed(merged) && Canonical(rest) && rest != []
    requires forall b :: b in rest ==> merged.end <= b.start
    requires !CanBeMerged(merged, rest[0])
    ensures Canonical([merged] + rest)
  {
    var r := [merged] + rest;
    forall i, j | 0 <= i < j < |r| ensures IsLeftOf(r[i], r[j]) {
      if i == 0 {
        assert r[j] in rest;
      } else {
        assert r[i] == rest[i - 1] && r[j] == rest[j - 1];
      }
    }
    forall i | 0 <= i < |r| - 1 ensures !CanBeMerged(r[i], r[i + 1]) {
      if i > 0 {
        assert r[i] == rest[i - 1] && r[i + 1] == rest[i];
      }
    }
  }

  /** What the collapsing pass returns for a sorted list of solid buildings:
      the EMPTY placeholder for no buildings, a canonical list of the same
      skyline otherwise. */
  lemma CollapseIsCollapsedSkyline(s: seq<Building>)
    requires Solid(s) && Sorted(s)
    ensures IsCollapsedSkyline(Collapse(s))
    ensures s == [] <==> Collapse(s) == [EMPTY]
    ensures forall x :: SkyHeight(Collapse(s), x) == SkyHeight(s, x)
  {
    forall x ensures SkyHeight(Collapse(s), x) == SkyHeight(s, x) {
      CollapseFromHeight(EMPTY, s, x);
    }
    if s != [] {
      forall b | b in s[1..] ensures IsLeftOf(s[0], b) {
        var j :| 1 <= j < |s| && s[j] == b;
        assert IsLeftOf(s[0], s[j]);
      }
      CollapseFromCanonical(s[0], s[1..]);
      assert Collapse(s) == CollapseFrom(s[0], s[1..]);
    }
  }

  // ---------------------------------------------------------------------------
  // A collapsed skyline is determined by its heights

  /** Two collapsed skylines that stand equally tall at every x are the same list.
      Hence the result of the collapsing pass is fixed by the skyline's heights
      alone, whatever produced the list. */
  lemma CollapsedSkylineUnique(r1: seq<Building>, r2: seq<Building>)
    requires IsCollapsedSkyline(r1) && IsCollapsedSkyline(r2)
    requires forall x :: SkyHeight(r1, x) == SkyHeight(r2, x)
    ensures r1 == r2
  {
    if r1 != [EMPTY] {
      RaisedAtFirstStart(r1);
      SkyHeightSingle(EMPTY, r1[0].start);
    }
    if r2 != [EMPTY] {
      RaisedAtFirstStart(r2);
      SkyHeightSingle(EMPTY, r2[0].start);
    }
    if r1 != [EMPTY] && r2 != [EMPTY] {
      CanonicalUnique(r1, r2);
    }
  }

  /** A non-empty canonical list shows a positive height where it starts. */
  lemma RaisedAtFirstStart(r: seq<Building>)
    requires Canonical(r) && r != []
    ensures SkyHeight(r, r[0].start) > 0.0
  {
    assert r[0] in r;
    SkyHeightCovered(r, 0, r[0].start);
  }

  /** In a sorted list the first building starts first, and everything after
      it starts at or after its end. */
  lemma FirstIsLeftmost(s: seq<Building>)
    requires Solid(s) && Sorted(s) && s != []
    ensures forall c :: c in s ==> s[0].start <= c.start
    ensures forall c :: c in s[1..] ==> s[0].end <= c.start
  {
    assert s[0] in s;
    forall c | c in s ensures s[0].start <= c.start {
      var j :| 0 <= j < |s| && s[j] == c;
      if j > 0 {
        assert IsLeftOf(s[0], s[j]);
      }
    }
    forall c | c in s[1..] ensures s[0].end <= c.start {
      var j :| 1 <= j < |s| && s[j] == c;
      assert IsLeftOf(s[0], s[j]);
    }
  }

  /** Dropping the first building of a canonical list leaves a canonical list. */
  lemma CanonicalTail(r: seq<Building>)
    requires Canonical(r) && r != []
    ensures Canonical(r[1..])
  {
    var t := r[1..];
    forall i, j | 0 <= i < j < |t| ensures IsLeftOf(t[i], t[j]) {
      assert t[i] == r[i + 1] && t[j] == r[j + 1];
    }
    forall i | 0 <= i < |t| - 1 ensures !CanBeMerged(t[i], t[i + 1]) {
      assert t[i] == r[i + 1] && t[i + 1] == r[i + 2];
    }
  }

  /** Where the first piece of a canonical list ends, the skyline no longer
      stands at that piece's height: either nothing stands there, or the next
      piece touches it with another height. */
  lemma HeightChangesAtFirstEnd(r: seq<Building>)
    requires Canonical(r) && r != []
    ensures SkyHeight(r, r[0].end) != r[0].height
  {
    var x := r[0].end;
    assert r[0] in r;
    FirstIsLeftmost(r);
    if |r| > 1 && r[1].start == x {
      assert r[1] in r;
      SkyHeightCovered(r, 1, x);
      assert !CanBeMerged(r[0], r[1]);
    } else if |r| > 1 {
      var t := r[1..];
      assert IsLeftOf(r[0], r[1]) && r[1] in r;
      forall k | 0 <= k < |t| ensures x < t[k].start {
        if k > 0 {
          assert IsLeftOf(r[1], r[k + 1]) && t[k] == r[k + 1];
        }
      }
      forall c | c in t ensures !(c.start <= x < c.end) {
        var k :| 0 <= k < |t| && t[k] == c;
      }
      SkyHeightUncovered(t, x);
    } else {
      SkyHeightUncovered(r[1..], x);
    }
  }

  /** On its own span, the first piece of a sorted list alone decides the height. */
  lemma HeightOnFirst(s: seq<Building>)
    requires Solid(s) && Sorted(s) && s != []
    ensures forall x :: s[0].start <= x < s[0].end ==> SkyHeight(s, x) == s[0].height
  {
    assert s[0] in s;
    forall x | s[0].start <= x < s[0].end ensures SkyHeight(s, x) == s[0].height {
      SkyHeightCovered(s, 0, x);
    }
  }

  /** In two canonical lists of the same skyline the first pieces agree. */
  lemma FirstPiecesAgree(r1: seq<Building>, r2: seq<Building>)
    requires Canonical(r1) && Canonical(r2) && r1 != [] && r2 != []
    requires forall x :: SkyHeight(r1, x) == SkyHeight(r2, x)
    ensures r1[0] == r2[0]
  {
    var a, b := r1[0], r2[0];
    RaisedAtFirstStart(r1);
    RaisedAtFirstStart(r2);
    FirstIsLeftmost(r1);
    FirstIsLeftmost(r2);
    SkyHeightIsTallest(r1, b.start);
    SkyHeightIsTallest(r2, a.start);
    assert a.start == b.start;
    HeightOnFirst(r1);
    HeightOnFirst(r2);
    assert a in r1 && b in r2;
    assert SkyHeight(r1, a.start) == a.height && SkyHeight(r2, b.start) == b.height;
    HeightChangesAtFirstEnd(r1);
    HeightChangesAtFirstEnd(r2);
  }

  /** Two canonical lists with the same first piece and the same skyline have
      tails with the same skyline. */
  lemma TailsAgree(r1: seq<Building>, r2: seq<Building>)
    requires Canonical(r1) && Canonical(r2) && r1 != [] && r2 != [] && r1[0] == r2[0]
    requires forall x :: SkyHeight(r1, x) == SkyHeight(r2, x)
    ensures forall x :: SkyHeight(r1[1..], x) == SkyHeight(r2[1..], x)
  {
    FirstIsLeftmost(r1);
    FirstIsLeftmost(r2);
    forall x ensures SkyHeight(r1[1..], x) == SkyHeight(r2[1..], x) {
      assert SkyHeight(r1, x) == Max(HeightAt(r1[0], x), SkyHeight(r1[1..], x));
      assert SkyHeight(r2, x) == Max(HeightAt(r2[0], x), SkyHeight(r2[1..], x));
      if x < r1[0].end {
        SkyHeightUncovered(r1[1..], x);
        SkyHeightUncovered(r2[1..], x);
      }
    }
  }

  lemma {:induction false} CanonicalUnique(r1: seq<Building>, r2: seq<Building>)
    requires Canonical(r1) && Canonical(r2)
    requires forall x :: SkyHeight(r1, x) == SkyHeight(r2, x)
    ensures r1 == r2
    decreases |r1|
  {
    if r1 != [] {
      RaisedAtFirstStart(r1);
    }
    if r2 != [] {
      RaisedAtFirstStart(r2);
    }
    if r1 != [] && r2 != [] {
      FirstPiecesAgree(r1, r2);
      TailsAgree(r1, r2);
      CanonicalTail(r1);
      CanonicalTail(r2);
      CanonicalUnique(r1[1..], r2[1..]);
      SameHeadSameTail(r1, r2);
    }
  }

  lemma SameHeadSameTail<T>(s: seq<T>, t: seq<T>)
    requires s != [] && t != [] && s[0] == t[0] && s[1..] == t[1..]
    ensures s == t
  {
    assert s == [s[0]] + s[1..] && t == [t[0]] + t[1..];
  }
}
