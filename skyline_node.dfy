/** The skyline tree: a binary tree of buildings that keeps the skyline up to
    date as buildings are added one at a time. Every node holds one building;
    what lies wholly left of it goes to the left subtree, what lies wholly right
    of it to the right subtree, and where an added building overlaps the node's
    building the node keeps the taller intersection. */
module SkylineTree {
  import opened BuildingValue
  import opened SkylineSpec

  class SkylineNode {
    var leftNode: SkylineNode?
    var rightNode: SkylineNode?
    var building: Building

    /** The non-empty buildings of this subtree, read in order. */
    ghost var Contents: seq<Building>
    /** The nodes of this subtree. */
    ghost var Repr: set<object>
    /** Larger than the Depth of either child: what recursion into the tree decreases. */
    ghost var Depth: nat

    ghost function LeftContents(): seq<Building>
      reads this, leftNode
    {
      if leftNode == null then [] else leftNode.Contents
    }

    ghost function RightContents(): seq<Building>
      reads this, rightNode
    {
      if rightNode == null then [] else rightNode.Contents
    }

    /** The node's own building as a list: nothing when it holds an empty building. */
    function GetListOfBuilding(): (r: seq<Building>)
      reads this
      ensures r != [] <==> IsNotEmpty(building)
      ensures r != [] ==> r == [building]
    {
      if IsEmpty(building) then [] else [building]
    }

    /** The structure of the tree: children own disjoint sets of nodes, are
        valid themselves, and exist only below a node that holds a building. */
    ghost predicate Shape()
      reads this, Repr
      decreases Repr, 0
    {
      && this in Repr
      && (leftNode != null ==>
            && leftNode in Repr && leftNode in leftNode.Repr
            && leftNode.Repr <= Repr && this !in leftNode.Repr
            && leftNode.Depth < Depth && leftNode.Valid())
      && (rightNode != null ==>
            && rightNode in Repr && rightNode in rightNode.Repr
            && rightNode.Repr <= Repr && this !in rightNode.Repr
            && rightNode.Depth < Depth && rightNode.Valid())
      && (leftNode != null && rightNode != null ==> leftNode.Repr !! rightNode.Repr)
      && WellFormed(building)
      && (IsEmpty(building) ==> leftNode == null && rightNode == null)
      && (IsNotEmpty(building) ==> Depth >= 1)
    }

    /** Shape() itself, under a second name. It is wrapped so that the
        solver treats it as one fact: methods that only hand the structure
        on require and ensure this, and it is not unfolded at each call. */
    ghost predicate Kept()
      reads this, Repr
    {
      Shape()
    }

    /** The search-tree invariant: everything in the left subtree is left of
        the node's building, everything in the right subtree right of it, and
        Contents is the in-order reading of the subtree. */
    ghost predicate Valid()
      reads this, Repr
      decreases Repr, 1
    {
      && Shape()
      && (forall c :: c in LeftContents() ==> IsLeftOf(c, building))
      && (forall c :: c in RightContents() ==> IsRightOf(c, building))
      && Contents == LeftContents() + GetListOfBuilding() + RightContents()
    }

    /** A new node holds the empty building and no children. */
    constructor ()
      ensures Valid() && fresh(Repr)
      ensures building == EMPTY && leftNode == null && rightNode == null
      ensures Contents == [] && Depth == 0
    {
      leftNode := null;
      rightNode := null;
      building := EMPTY;
      Contents := [];
      Repr := {this};
      Depth := 0;
    }

    /** The in-order reading of a valid tree is a sorted list of non-empty,
        well-formed buildings: no two of them overlap. */
    lemma ContentsAreSortedSkyline()
      requires Valid()
      ensures Solid(Contents) && Sorted(Contents)
      decreases Repr
    {
      if leftNode != null {
        leftNode.ContentsAreSortedSkyline();
      }
      if rightNode != null {
        rightNode.ContentsAreSortedSkyline();
      }
      SortedJoin(LeftContents(), GetListOfBuilding(), RightContents(), building);
    }

    /** Adds a building to the subtree. An empty building changes nothing; an
        empty node adopts the building; a building wholly right (left) of the
        node's building goes to the right (left) subtree; an overlapping one is
        split: its left and right remainders go to the subtrees and the node
        keeps the intersection at the taller height. Afterwards the subtree
        stands at every x as tall as before or as the added building,
        whichever is taller, and it reaches no further left or right than it
        and the added building did. */
    method AddBuilding(added: Building)
      requires Valid() && WellFormed(added)
      modifies Repr
      ensures Valid() && fresh(Repr - old(Repr))
      ensures Raised(old(Contents), Contents, added) && WithinBounds(old(Contents), Contents, added)
      ensures IsEmpty(added) ==> Repr == old(Repr) && unchanged(Repr)
      ensures IsNotEmpty(added) && IsEmpty(old(building)) ==>
                building == added && leftNode == old(leftNode) && rightNode == old(rightNode)
      ensures IsNotEmpty(added) && IsNotEmpty(old(building)) ==> leftNode != null && rightNode != null
      ensures IsNotEmpty(added) && IsNotEmpty(old(building)) && IsRightOf(added, old(building)) ==>
                building == old(building) && LeftContents() == old(LeftContents())
      ensures IsNotEmpty(added) && IsNotEmpty(old(building)) && !IsRightOf(added, old(building))
              && IsLeftOf(added, old(building)) ==>
                building == old(building) && RightContents() == old(RightContents())
      ensures IsNotEmpty(added) && IsNotEmpty(old(building)) && Overlap(added, old(building)) ==>
                building == Intersect(added, old(building)) && IsNotEmpty(building)
                && building.height == Max(added.height, old(building).height)
      decreases Depth, 3
    {
      if IsEmpty(added) {
        return;
      }

      if IsEmpty(building) {
        building := added;
        Contents := [added];
        Depth := 1;
        return;
      }

      EnsureLeftAndRightNodesAreNonNull();

      // The added building is far right
      if IsRightOf(added, building) {
        AddRightOf(added);
        return;
      }

      // The added building is far left
      if IsLeftOf(added, building) {
        AddLeftOf(added);
        return;
      }

      AddOverlapping(added);
    }

    /** Adds the building with the given coordinates. */
    method AddBuildingOf(start: real, end: real, height: real)
      requires Valid() && start <= end
      modifies Repr
      ensures Valid() && fresh(Repr - old(Repr))
      ensures Raised(old(Contents), Contents, Building(start, end, height))
      ensures WithinBounds(old(Contents), Contents, Building(start, end, height))
    {
      AddBuilding(Building(start, end, height));
    }

    /** The case of AddBuilding where the added building lies wholly right of
        the node's building: it goes to the right subtree as it is. */
    method AddRightOf(added: Building)
      requires Valid() && WellFormed(added) && IsNotEmpty(added) && IsNotEmpty(building)
      requires leftNode != null && rightNode != null && IsRightOf(added, building)
      modifies Repr
      ensures Valid() && fresh(Repr - old(Repr))
      ensures Raised(old(Contents), Contents, added) && WithinBounds(old(Contents), Contents, added)
      ensures leftNode == old(leftNode) && rightNode == old(rightNode)
      ensures building == old(building) && leftNode.Contents == old(leftNode.Contents)
      decreases Depth, 2
    {
      ghost var l0, r0 := leftNode.Contents, rightNode.Contents;
      assert Contents == l0 + [building] + r0;
      assert StartsFrom(r0, building.end);
      AddToRightNode(added);
      InsertRightOf(l0, building, r0, rightNode.Contents, added);
      RecomputeContents();
    }

    /** The case of AddBuilding where the added building lies wholly left of
        the node's building: it goes to the left subtree as it is. */
    method AddLeftOf(added: Building)
      requires Valid() && WellFormed(added) && IsNotEmpty(added) && IsNotEmpty(building)
      requires leftNode != null && rightNode != null && IsLeftOf(added, building)
      modifies Repr
      ensures Valid() && fresh(Repr - old(Repr))
      ensures Raised(old(Contents), Contents, added) && WithinBounds(old(Contents), Contents, added)
      ensures leftNode == old(leftNode) && rightNode == old(rightNode)
      ensures building == old(building) && rightNode.Contents == old(rightNode.Contents)
      decreases Depth, 2
    {
      ghost var l0, r0 := leftNode.Contents, rightNode.Contents;
      assert Contents == l0 + [building] + r0;
      assert EndsBy(l0, building.start);
      AddToLeftNode(added);
      InsertLeftOf(l0, leftNode.Contents, building, r0, added);
      RecomputeContents();
    }

    /** The case of AddBuilding where the added building overlaps the node's
        building: the part between the two starts goes to the left subtree,
        the part between the two ends to the right subtree, and the node keeps
        the shared part at the taller height. */
    method AddOverlapping(added: Building)
      requires Valid() && WellFormed(added) && IsNotEmpty(added) && IsNotEmpty(building)
      requires leftNode != null && rightNode != null && Overlap(added, building)
      modifies Repr
      ensures Valid() && fresh(Repr - old(Repr))
      ensures Raised(old(Contents), Contents, added) && WithinBounds(old(Contents), Contents, added)
      ensures leftNode == old(leftNode) && rightNode == old(rightNode)
      ensures building == Intersect(added, old(building)) && IsNotEmpty(building)
      ensures building.height == Max(added.height, old(building).height)
      decreases Depth, 2
    {
      ghost var l0, b0, r0 := leftNode.Contents, building, rightNode.Contents;
      assert Contents == l0 + [b0] + r0;

      HandleLeftPart(added);
      HandleRightPart(added);

      // Must come after the left and right parts: it replaces the node's building.
      HandleMiddlePart(added, l0, r0);
    }

    static ghost function MaxDepth(a: nat, b: nat): nat {
      if a >= b then a else b
    }

    /** Re-reads the subtree in order once both subtrees and the node's own
        building are final. */
    ghost method RecomputeContents()
      requires Kept() && leftNode != null && rightNode != null && IsNotEmpty(building)
      requires forall c :: c in leftNode.Contents ==> IsLeftOf(c, building)
      requires forall c :: c in rightNode.Contents ==> IsRightOf(c, building)
      modifies this`Contents
      ensures Valid() && Contents == leftNode.Contents + [building] + rightNode.Contents
    {
      Contents := leftNode.Contents + [building] + rightNode.Contents;
    }

    /** Re-reads the subtree in order after an overlapping building was split
        over it: the in-order list is the old one with `added` added. */
    ghost method RecomputeSplitContents(l0: seq<Building>, b0: Building, r0: seq<Building>, added: Building)
      requires Kept() && leftNode != null && rightNode != null
      requires WellFormed(b0) && WellFormed(added) && IsNotEmpty(b0) && IsNotEmpty(added)
      requires Overlap(added, b0) && building == Intersect(added, b0)
      requires LeftPartAdded(l0, leftNode.Contents, b0, added)
      requires RightPartAdded(r0, rightNode.Contents, b0, added)
      modifies this`Contents
      ensures Valid()
      ensures Raised(l0 + [b0] + r0, Contents, added) && WithinBounds(l0 + [b0] + r0, Contents, added)
    {
      SplitOverlap(b0, added);
      InsertSplit(l0, b0, r0, leftNode.Contents, building, rightNode.Contents, added);
      Contents := leftNode.Contents + [building] + rightNode.Contents;
    }

    /** Adds a building to the left subtree and takes the subtree's new nodes
        into this node's footprint. */
    method AddToLeftNode(b: Building)
      requires Kept() && leftNode != null && rightNode != null && WellFormed(b)
      modifies this`Repr, this`Depth, leftNode.Repr
      ensures Kept() && fresh(Repr - old(Repr))
      ensures unchanged(rightNode)
      ensures Raised(old(leftNode.Contents), leftNode.Contents, b)
      ensures WithinBounds(old(leftNode.Contents), leftNode.Contents, b)
      decreases leftNode.Depth + 1, 0
    {
      leftNode.AddBuilding(b);
      Repr := Repr + leftNode.Repr;
      Depth := MaxDepth(Depth, leftNode.Depth + 1);
    }

    /** Adds a building to the right subtree and takes the subtree's new nodes
        into this node's footprint. */
    method AddToRightNode(b: Building)
      requires Kept() && leftNode != null && rightNode != null && WellFormed(b)
      modifies this`Repr, this`Depth, rightNode.Repr
      ensures Kept() && fresh(Repr - old(Repr))
      ensures unchanged(leftNode)
      ensures Raised(old(rightNode.Contents), rightNode.Contents, b)
      ensures WithinBounds(old(rightNode.Contents), rightNode.Contents, b)
      decreases rightNode.Depth + 1, 0
    {
      rightNode.AddBuilding(b);
      Repr := Repr + rightNode.Repr;
      Depth := MaxDepth(Depth, rightNode.Depth + 1);
    }

    /** Gives a node that holds a building two children, creating empty ones
        where there are none. */
    method EnsureLeftAndRightNodesAreNonNull()
      requires Valid() && IsNotEmpty(building)
      modifies this
      ensures Valid() && fresh(Repr - old(Repr))
      ensures leftNode != null && rightNode != null
      ensures old(leftNode) != null ==> leftNode == old(leftNode)
      ensures old(rightNode) != null ==> rightNode == old(rightNode)
      ensures building == old(building) && Contents == old(Contents) && Depth == old(Depth)
      ensures LeftContents() == old(LeftContents()) && RightContents() == old(RightContents())
    {
      if rightNode == null {
        rightNode := new SkylineNode();
        Repr := Repr + rightNode.Repr;
      }

      if leftNode == null {
        leftNode := new SkylineNode();
        Repr := Repr + leftNode.Repr;
      }
    }

    /** Adds the part of the two buildings between their starts to the left subtree. */
    method HandleLeftPart(added: Building)
      requires Kept() && leftNode != null && rightNode != null && IsNotEmpty(building) && WellFormed(added)
      requires forall c :: c in leftNode.Contents ==> IsLeftOf(c, building)
      modifies this`Repr, this`Depth, leftNode.Repr
      ensures Kept() && fresh(Repr - old(Repr))
      ensures unchanged(rightNode)
      ensures LeftPartAdded(old(leftNode.Contents), leftNode.Contents, building, added)
      decreases leftNode.Depth + 1, 1
    {
      var leftPart := LeftPartOfBoth(building, added);
      assert EndsBy(leftNode.Contents, Max(building.start, added.start));
      AddToLeftNode(leftPart);
    }

    /** Adds the part of the two buildings between their ends to the right subtree. */
    method HandleRightPart(added: Building)
      requires Kept() && leftNode != null && rightNode != null && IsNotEmpty(building) && WellFormed(added)
      requires forall c :: c in rightNode.Contents ==> IsRightOf(c, building)
      modifies this`Repr, this`Depth, rightNode.Repr
      ensures Kept() && fresh(Repr - old(Repr))
      ensures unchanged(leftNode)
      ensures RightPartAdded(old(rightNode.Contents), rightNode.Contents, building, added)
      decreases rightNode.Depth + 1, 1
    {
      var rightPart := RightPartOfBoth(building, added);
      assert StartsFrom(rightNode.Contents, Min(building.end, added.end));
      AddToRightNode(rightPart);
    }

    /** Replaces the node's building by its intersection with the added one,
        unless that intersection is empty; for an overlapping building it never
        is. The subtree is then the old one, `l0`, the building and `r0`, with
        the added building added. */
    method HandleMiddlePart(added: Building, ghost l0: seq<Building>, ghost r0: seq<Building>)
      requires Kept() && leftNode != null && rightNode != null
      requires WellFormed(added) && IsNotEmpty(building) && IsNotEmpty(added) && Overlap(added, building)
      requires LeftPartAdded(l0, leftNode.Contents, building, added)
      requires RightPartAdded(r0, rightNode.Contents, building, added)
      modifies this`building, this`Contents
      ensures Valid()
      ensures building == Intersect(added, old(building)) && IsNotEmpty(building)
      ensures building.height == Max(added.height, old(building).height)
      ensures Raised(l0 + [old(building)] + r0, Contents, added)
      ensures WithinBounds(l0 + [old(building)] + r0, Contents, added)
    {
      ghost var b0 := building;
      IntersectOfOverlap(b0, added);
      var intersect := Intersect(added, building);
      if IsNotEmpty(intersect) {
        building := intersect;
      }
      RecomputeSplitContents(l0, b0, r0, added);
    }

    /** The subtree's buildings read in order: the left subtree's, the node's
        own, then the right subtree's. The list is the subtree's skyline as
        sorted, non-overlapping pieces. */
    method ToList() returns (list: seq<Building>)
      requires Valid()
      ensures list == Contents
      ensures Solid(list) && Sorted(list)
      decreases Depth
    {
      list := GetListOfBuilding();

      if leftNode != null {
        var left := leftNode.ToList();
        if left != [] {
          list := left + list;
        }
      }

      if rightNode != null {
        var right := rightNode.ToList();
        if right != [] {
          list := list + right;
        }
      }

      ContentsAreSortedSkyline();
    }

    /** The subtree's skyline with touching pieces of the same height merged:
        the single EMPTY building when the tree holds none, and otherwise the
        one canonical list that stands as tall as the tree at every x. */
    method CollapsedList() returns (collapsed: seq<Building>)
      requires Valid()
      ensures collapsed == Collapse(Contents)
      ensures IsCollapsedSkyline(collapsed)
      ensures Contents == [] <==> collapsed == [EMPTY]
      ensures forall x :: SkyHeight(collapsed, x) == SkyHeight(Contents, x)
    {
      collapsed := [];
      var merged := EMPTY;

      var list := ToList();
      for i := 0 to |list|
        invariant collapsed + CollapseFrom(merged, list[i..]) == Collapse(list)
      {
        var b := list[i];
        assert list[i..][0] == b && list[i..][1..] == list[i + 1..];
        if IsEmpty(merged) {
          merged := b;
        } else if CanBeMerged(merged, b) {
          merged := merged.(end := b.end);
        } else {
          collapsed := collapsed + [merged];
          merged := b;
        }
      }

      assert list[|list|..] == [];
      collapsed := collapsed + [merged];
      CollapseIsCollapsedSkyline(list);
    }
  }

  /** The left subtree's list went from `l0` to `l1` by adding the part of
      `b` and `added` between their starts: raised by that part, still
      starting wherever it did left of both starts, and ending by the later
      start. */
  ghost predicate LeftPartAdded(l0: seq<Building>, l1: seq<Building>, b: Building, added: Building)
  {
    && Raised(l0, l1, LeftPartOfBoth(b, added))
    && (forall v :: StartsFrom(l0, v) && v <= b.start && v <= added.start ==> StartsFrom(l1, v))
    && EndsBy(l1, Max(b.start, added.start))
  }

  /** The mirror image of `LeftPartAdded` for the right subtree and the part
      between the two ends. */
  ghost predicate RightPartAdded(r0: seq<Building>, r1: seq<Building>, b: Building, added: Building)
  {
    && Raised(r0, r1, RightPartOfBoth(b, added))
    && (forall v :: EndsBy(r0, v) && b.end <= v && added.end <= v ==> EndsBy(r1, v))
    && StartsFrom(r1, Min(b.end, added.end))
  }

  /** A building wholly right of a node's building, added to its right
      subtree, raises and bounds the whole in-order list as it does the
      right subtree's list. */
  lemma InsertRightOf(l: seq<Building>, b0: Building, r0: seq<Building>, r1: seq<Building>, added: Building)
    requires IsNotEmpty(added) && IsRightOf(added, b0) && StartsFrom(r0, b0.end)
    requires Raised(r0, r1, added) && WithinBounds(r0, r1, added)
    ensures forall c :: c in r1 ==> IsRightOf(c, b0)
    ensures Raised(l + [b0] + r0, l + [b0] + r1, added)
    ensures WithinBounds(l + [b0] + r0, l + [b0] + r1, added)
  {
    assert StartsFrom(r1, b0.end);
    JoinHeight(l, b0, r0, l, b0, r1, EMPTY, added, added);
    forall v | StartsFrom(l + [b0] + r0, v) && v <= added.start ensures StartsFrom(l + [b0] + r1, v) {
      StartsFromJoin(l, b0, r0, v);
      StartsFromJoin(l, b0, r1, v);
    }
    forall v | EndsBy(l + [b0] + r0, v) && added.end <= v ensures EndsBy(l + [b0] + r1, v) {
      EndsByJoin(l, b0, r0, v);
      EndsByJoin(l, b0, r1, v);
    }
  }

  /** A building wholly left of a node's building, added to its left
      subtree, raises and bounds the whole in-order list as it does the
      left subtree's list. */
  lemma InsertLeftOf(l0: seq<Building>, l1: seq<Building>, b0: Building, r: seq<Building>, added: Building)
    requires IsNotEmpty(added) && IsLeftOf(added, b0) && EndsBy(l0, b0.start)
    requires Raised(l0, l1, added) && WithinBounds(l0, l1, added)
    ensures forall c :: c in l1 ==> IsLeftOf(c, b0)
    ensures Raised(l0 + [b0] + r, l1 + [b0] + r, added)
    ensures WithinBounds(l0 + [b0] + r, l1 + [b0] + r, added)
  {
    assert EndsBy(l1, b0.start);
    JoinHeight(l0, b0, r, l1, b0, r, added, EMPTY, added);
    forall v | StartsFrom(l0 + [b0] + r, v) && v <= added.start ensures StartsFrom(l1 + [b0] + r, v) {
      StartsFromJoin(l0, b0, r, v);
      StartsFromJoin(l1, b0, r, v);
    }
    forall v | EndsBy(l0 + [b0] + r, v) && added.end <= v ensures EndsBy(l1 + [b0] + r, v) {
      EndsByJoin(l0, b0, r, v);
      EndsByJoin(l1, b0, r, v);
    }
  }

  /** A building overlapping a node's building, split into a left part for
      the left subtree, a right part for the right subtree and the taller
      intersection for the node, raises and bounds the whole in-order list
      exactly as adding it whole would. */
  lemma InsertSplit(l0: seq<Building>, b0: Building, r0: seq<Building>,
                    l1: seq<Building>, mid: Building, r1: seq<Building>, added: Building)
    requires WellFormed(b0) && WellFormed(added) && IsNotEmpty(b0) && IsNotEmpty(added)
    requires Overlap(added, b0) && mid == Intersect(added, b0)
    requires LeftPartAdded(l0, l1, b0, added) && RightPartAdded(r0, r1, b0, added)
    ensures forall c :: c in l1 ==> IsLeftOf(c, mid)
    ensures forall c :: c in r1 ==> IsRightOf(c, mid)
    ensures Raised(l0 + [b0] + r0, l1 + [mid] + r1, added)
    ensures WithinBounds(l0 + [b0] + r0, l1 + [mid] + r1, added)
  {
    SplitOverlap(b0, added);
    JoinHeight(l0, b0, r0, l1, mid, r1, LeftPartOfBoth(b0, added), RightPartOfBoth(b0, added), added);
    forall v | StartsFrom(l0 + [b0] + r0, v) && v <= added.start ensures StartsFrom(l1 + [mid] + r1, v) {
      StartsFromJoin(l0, b0, r0, v);
      StartsFromJoin(l1, mid, r1, v);
    }
    forall v | EndsBy(l0 + [b0] + r0, v) && added.end <= v ensures EndsBy(l1 + [mid] + r1, v) {
      EndsByJoin(l0, b0, r0, v);
      EndsByJoin(l1, mid, r1, v);
    }
  }
}
