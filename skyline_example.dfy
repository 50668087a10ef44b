/** A client of the skyline tree: buildings are added one at a time in an
    order the caller chooses, and the collapsed skyline comes out the same
    whatever that order was. */
module SkylineClient {
  import opened BuildingValue
  import opened SkylineSpec
  import opened SkylineTree

  /** Builds a tree from the buildings, each time taking out the building at
      the index the next draw names among those not added yet. The draws
      stand for the random choices of the caller: the i-th one is below the
      number of buildings still waiting. The tree stands as tall as the
      buildings at every x. */
  method BuildSkyline(buildings: seq<Building>, draws: seq<nat>) returns (tree: SkylineNode)
    requires forall b :: b in buildings ==> WellFormed(b)
    requires |draws| == |buildings|
    requires forall i :: 0 <= i < |draws| ==> draws[i] < |buildings| - i
    ensures tree.Valid() && fresh(tree.Repr)
    ensures forall x :: SkyHeight(tree.Contents, x) == SkyHeight(buildings, x)
  {
    tree := new SkylineNode();
    var remaining := buildings;
    var step := 0;

    while remaining != []
      invariant tree.Valid() && fresh(tree.Repr)
      invariant step + |remaining| == |buildings|
      invariant forall b :: b in remaining ==> WellFormed(b)
      invariant forall x :: Max(SkyHeight(tree.Contents, x), SkyHeight(remaining, x)) == SkyHeight(buildings, x)
      decreases |remaining|
    {
      var k := draws[step];
      var building := remaining[k];
      ghost var before, waiting := tree.Contents, remaining;
      remaining := RemoveAt(remaining, k);

      tree.AddBuilding(building);
      TakenOver(before, tree.Contents, waiting, k, buildings);
      step := step + 1;
    }
  }

  /** Two trees built from the same buildings in two different orders give
      the same collapsed skyline. */
  method AnyOrderSameSkyline(buildings: seq<Building>, draws1: seq<nat>, draws2: seq<nat>)
    returns (collapsed1: seq<Building>, collapsed2: seq<Building>)
    requires forall b :: b in buildings ==> WellFormed(b)
    requires |draws1| == |buildings| && |draws2| == |buildings|
    requires forall i :: 0 <= i < |draws1| ==> draws1[i] < |buildings| - i
    requires forall i :: 0 <= i < |draws2| ==> draws2[i] < |buildings| - i
    ensures collapsed1 == collapsed2
    ensures IsCollapsedSkyline(collapsed1)
    ensures forall x :: SkyHeight(collapsed1, x) == SkyHeight(buildings, x)
  {
    var tree1 := BuildSkyline(buildings, draws1);
    var tree2 := BuildSkyline(buildings, draws2);
    collapsed1 := tree1.CollapsedList();
    collapsed2 := tree2.CollapsedList();
    CollapsedSkylineUnique(collapsed1, collapsed2);
  }

  /** The list without its k-th element: the others, in their order. */
  function RemoveAt(s: seq<Building>, k: nat): (r: seq<Building>)
    requires k < |s|
    ensures |r| == |s| - 1
    ensures forall i :: 0 <= i < k ==> r[i] == s[i]
    ensures forall i :: k <= i < |r| ==> r[i] == s[i + 1]
    ensures multiset(r) + multiset{s[k]} == multiset(s)
    ensures forall x :: SkyHeight(s, x) == Max(HeightAt(s[k], x), SkyHeight(r, x))
    ensures forall c :: c in r ==> c in s
  {
    RemoveAtHeight(s, k);
    assert s == s[..k] + [s[k]] + s[k + 1..];
    s[..k] + s[k + 1..]
  }

  lemma RemoveAtHeight(s: seq<Building>, k: nat)
    requires k < |s|
    ensures forall x :: SkyHeight(s, x) == Max(HeightAt(s[k], x), SkyHeight(s[..k] + s[k + 1..], x))
  {
    assert s == s[..k] + [s[k]] + s[k + 1..];
    forall x ensures SkyHeight(s, x) == Max(HeightAt(s[k], x), SkyHeight(s[..k] + s[k + 1..], x)) {
      SkyHeightOfJoin(s[..k], [s[k]], s[k + 1..], x);
      SkyHeightAppend(s[..k], s[k + 1..], x);
    }
  }

  /** Moving the k-th waiting building onto the tree keeps the tree and the
      waiting buildings together as tall as all the buildings. */
  lemma TakenOver(before: seq<Building>, after: seq<Building>, waiting: seq<Building>, k: nat, all: seq<Building>)
    requires k < |waiting| && Raised(before, after, waiting[k])
    requires forall x :: Max(SkyHeight(before, x), SkyHeight(waiting, x)) == SkyHeight(all, x)
    ensures forall x :: Max(SkyHeight(after, x), SkyHeight(RemoveAt(waiting, k), x)) == SkyHeight(all, x)
  {
  }

  /** Two sorted lists of solid buildings that stand equally tall everywhere
      collapse to the same list: the collapsed skyline of a tree depends only
      on the skyline, not on the order the buildings were added in. */
  lemma SameSkylineSameCollapse(s1: seq<Building>, s2: seq<Building>)
    requires Solid(s1) && Sorted(s1) && Solid(s2) && Sorted(s2)
    requires forall x :: SkyHeight(s1, x) == SkyHeight(s2, x)
    ensures Collapse(s1) == Collapse(s2)
  {
    CollapseIsCollapsedSkyline(s1);
    CollapseIsCollapsedSkyline(s2);
    CollapsedSkylineUnique(Collapse(s1), Collapse(s2));
  }

  // ---------------------------------------------------------------------------
  // Seven buildings

  const SEVEN: seq<Building> := [
    Building(1.0, 4.0, 1.0),
    Building(2.0, 3.0, 2.0),
    Building(7.0, 8.0, 1.5),
    Building(5.5, 6.5, 1.0),
    Building(5.0, 7.0, 3.0),
    Building(3.5, 6.0, 1.5),
    Building(6.0, 9.0, 0.5)]

  const SEVEN_SKYLINE: seq<Building> := [
    Building(1.0, 2.0, 1.0),
    Building(2.0, 3.0, 2.0),
    Building(3.0, 3.5, 1.0),
    Building(3.5, 5.0, 1.5),
    Building(5.0, 7.0, 3.0),
    Building(7.0, 8.0, 1.5),
    Building(8.0, 9.0, 0.5)]

  /** The seven buildings added in any order give the same seven pieces. */
  method SevenBuildings(draws: seq<nat>) returns (collapsed: seq<Building>)
    requires |draws| == |SEVEN|
    requires forall i :: 0 <= i < |draws| ==> draws[i] < |SEVEN| - i
    ensures collapsed == SEVEN_SKYLINE
  {
    var tree := BuildSkyline(SEVEN, draws);
    collapsed := tree.CollapsedList();
    SevenSkylineIsCanonical();
    forall x ensures SkyHeight(SEVEN_SKYLINE, x) == SkyHeight(SEVEN, x) {
      SevenHeights(x);
    }
    CollapsedSkylineUnique(collapsed, SEVEN_SKYLINE);
  }

  lemma SevenSkylineIsCanonical()
    ensures IsCollapsedSkyline(SEVEN_SKYLINE)
  {
  }

  /** The expected pieces stand as tall as the seven buildings at every x. */
  lemma SevenHeights(x: real)
    ensures SkyHeight(SEVEN_SKYLINE, x) == SkyHeight(SEVEN, x)
  {
    SkyHeightOfSeven(SEVEN, x);
    SkyHeightOfSeven(SEVEN_SKYLINE, x);
    var a, b := SEVEN, SEVEN_SKYLINE;
    assert a[0] == Building(1.0, 4.0, 1.0) && a[1] == Building(2.0, 3.0, 2.0) && a[2] == Building(7.0, 8.0, 1.5);
    assert a[3] == Building(5.5, 6.5, 1.0) && a[4] == Building(5.0, 7.0, 3.0) && a[5] == Building(3.5, 6.0, 1.5);
    assert a[6] == Building(6.0, 9.0, 0.5);
    assert b[0] == Building(1.0, 2.0, 1.0) && b[1] == Building(2.0, 3.0, 2.0) && b[2] == Building(3.0, 3.5, 1.0);
    assert b[3] == Building(3.5, 5.0, 1.5) && b[4] == Building(5.0, 7.0, 3.0) && b[5] == Building(7.0, 8.0, 1.5);
    assert b[6] == Building(8.0, 9.0, 0.5);
    if x < 3.0 {
    } else if x < 5.0 {
    } else if x < 7.0 {
    } else {
    }
  }

  /** The height of a list of seven, written out. */
  lemma SkyHeightOfSeven(s: seq<Building>, x: real)
    requires |s| == 7
    ensures SkyHeight(s, x) ==
              Max(HeightAt(s[0], x), Max(HeightAt(s[1], x), Max(HeightAt(s[2], x), Max(HeightAt(s[3], x),
              Max(HeightAt(s[4], x), Max(HeightAt(s[5], x), Max(HeightAt(s[6], x), 0.0)))))))
  {
    assert s[0..] == s && s[7..] == [];
    SkyHeightStep(s, 0, x);
    SkyHeightStep(s, 1, x);
    SkyHeightStep(s, 2, x);
    SkyHeightStep(s, 3, x);
    SkyHeightStep(s, 4, x);
    SkyHeightStep(s, 5, x);
    SkyHeightStep(s, 6, x);
  }

  lemma SkyHeightStep(s: seq<Building>, i: nat, x: real)
    requires i < |s|
    ensures SkyHeight(s[i..], x) == Max(HeightAt(s[i], x), SkyHeight(s[i + 1..], x))
  {
    assert s[i..][1..] == s[i + 1..];
  }
}
