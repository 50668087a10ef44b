# Skyline algorithm, modelled in Dafny

This project models the core of a skyline builder written in Kotlin
(package `com.devaholics.skyline.tree` plus the drawing logic in
`drawing/common/SkylineDrawer.kt`) and proves its central properties.

- **`Building`** (`building.dfy`, module `BuildingValue`) is an immutable
  interval `[start, end)` with a height. The predicates are empty, left of,
  right of, left-adjacent and same height. Three decomposition operations
  split two overlapping buildings into a left remainder, a middle piece at
  the taller height and a right remainder. Every degenerate result is the
  one shared `EMPTY = Building(0, 0, 0)`.
- **`SkylineNode`** (`skyline_node.dfy`, module `SkylineTree`) is a class
  with nullable children that the methods update in place, as the Kotlin
  class does. Ghost fields carry its in-order contents, its footprint
  (`Repr`) and a depth used for termination. `AddBuilding` routes a
  building to a child or splits it around the node's building. `ToList`
  reads the tree in order. `CollapsedList` runs the merging loop over that
  list.
- **What a skyline means** (`skyline_spec.dfy`, module `SkylineSpec`):
  - `SkyHeight(s, x)` is the height a list of buildings shows at x.
  - `Collapse` is the function the merging loop computes.
  - A *collapsed skyline* is a sorted list of non-empty buildings in which
    no two neighbours touch at the same height.
  - Two collapsed skylines that stand equally tall everywhere are equal.
    From this it follows that the collapsed list does not depend on the
    order in which buildings were added.
- **`Buildings`** (`buildings.dfy`, module `BuildingFactory`):
  - `create` checks for a blank text, then for a `-` anywhere, then for a
    match of the pattern `\[F,F,F]` where `F` is `(\d+(?:.\d+)?)`. After
    a match it converts the three fields to numbers, then checks the
    height, then start against end.
  - The regular-expression `find` is modelled as the backtracking search
    it performs: the leftmost `[` that starts a match, and for each field
    the longest candidate first.
  - The separator inside a field is a parameter. `AnyCharacter` is the
    unescaped dot as written; `DecimalPoint` is the escaped dot.
- **Examples** (`buildings_examples.dfy`, module `BuildingFactoryExamples`)
  cover the texts the repository's tests use.
- **Drawing** (`skyline_drawer.dfy`, module `SkylineDrawing`): the drawer
  turns the collapsed list into the sequence of lines it hands to the
  drawing back end.
- **Client** (`skyline_example.dfy`, module `SkylineClient`):
  - it adds buildings to a tree in any order the caller picks, as the
    randomised test does;
  - it proves that the tree stands as tall as the buildings at every x;
  - it proves that every order gives the same collapsed list;
  - it proves that the seven buildings of the test give the expected
    seven pieces.

Coordinates are exact `real` numbers. The tree code only compares, takes
minima and maxima, and copies coordinates, so nothing is lost by this.

`collapsedList` of a tree that holds no building returns the one-element
list `[Building(0, 0, 0)]` (SkylineNode.kt lines 85 and 99). As a result,
`drawSkyline` of such a tree draws two zero-length lines at the origin, and
the corrected drawing draws three (`EmptyTreeDrawing`).

## Model

| member | source | states |
|---|---|---|
| BuildingValue.WithHeight | src/main/kotlin/com/devaholics/skyline/tree/Building.kt:31-33 | the copy keeps start and end and has the new height; it is empty exactly when its width is zero or the new height is at most 0 |
| BuildingValue.OrEmpty | src/main/kotlin/com/devaholics/skyline/tree/Building.kt:218-226 | the result is EMPTY or non-empty; it is EMPTY exactly when the span has zero width or the height is at most 0, and otherwise it is the given building |
| BuildingValue.LeftPartOfBoth | src/main/kotlin/com/devaholics/skyline/tree/Building.kt:119-134 | EMPTY if either building is empty or the starts coincide; otherwise the span from the smaller to the larger start, with the height of the building that starts strictly further left (a tie keeps the receiver's) |
| BuildingValue.RightPartOfBoth | src/main/kotlin/com/devaholics/skyline/tree/Building.kt:142-157 | mirror image on the ends: EMPTY if either is empty or the ends coincide; otherwise the span between the two ends, with the height of the building ending strictly further right |
| BuildingValue.Intersect | src/main/kotlin/com/devaholics/skyline/tree/Building.kt:165-188 | EMPTY when one is left of or right of the other; otherwise all four overlap branches give the span from the later start to the earlier end at the taller height, normalised to EMPTY |
| BuildingValue.EmptyIffFlat | src/main/kotlin/com/devaholics/skyline/tree/Building.kt:42-55 | a well-formed building is empty exactly when it raises no point x |
| BuildingValue.LeftOfIsMirroredRightOf | src/main/kotlin/com/devaholics/skyline/tree/Building.kt:62-73 | a is left of b exactly when b is right of a |
| BuildingValue.SeparatedIffNoCommonPoint | src/main/kotlin/com/devaholics/skyline/tree/Building.kt:57-73 | two non-empty buildings are left of or right of each other (touching allowed) exactly when no x lies under both |
| BuildingValue.MergeAdjacentSameHeight | src/main/kotlin/com/devaholics/skyline/tree/Building.kt:80-91 | a building left-adjacent to another of the same height, extended to the other's end, stands at every x as tall as the two together |
| BuildingValue.LeftPartSymmetric | src/main/kotlin/com/devaholics/skyline/tree/Building.kt:119-134 | with different starts, the left part is the same whichever building is the receiver |
| BuildingValue.RightPartSymmetric | src/main/kotlin/com/devaholics/skyline/tree/Building.kt:142-157 | with different ends, the right part is the same whichever building is the receiver |
| BuildingValue.IntersectSymmetric | src/main/kotlin/com/devaholics/skyline/tree/Building.kt:165-188 | the intersection is the same whichever building is the receiver |
| BuildingValue.IntersectOfOverlap | src/main/kotlin/com/devaholics/skyline/tree/Building.kt:165-188 | two overlapping non-empty buildings have a non-empty intersection at the taller height |
| BuildingValue.SplitOverlap | src/main/kotlin/com/devaholics/skyline/tree/Building.kt:93-117 | left part, intersection and right part lie side by side from the leftmost start to the rightmost end; a part is EMPTY exactly when the starts (ends) coincide; at every x the three stand as tall as the taller of the two buildings |
| BuildingFactory.Empty | src/main/kotlin/com/devaholics/skyline/tree/Buildings.kt:13-28 | the shared building is empty and raises no point |
| BuildingFactory.MatchAt | src/main/kotlin/com/devaholics/skyline/tree/Buildings.kt:15-17 | what the pattern engine reports when it tries position i is a match starting at i: '[' field ',' field ',' field ']' |
| BuildingFactory.MatchAtComplete | src/main/kotlin/com/devaholics/skyline/tree/Buildings.kt:15-17 | when the engine reports nothing at i, no match of the pattern starts at i |
| BuildingFactory.SearchSound | src/main/kotlin/com/devaholics/skyline/tree/Buildings.kt:15 | a field end the backtracking search reports delimits a field after which the rest of the pattern still matches |
| BuildingFactory.SearchFound | src/main/kotlin/com/devaholics/skyline/tree/Buildings.kt:15 | whenever some field end lets the rest of the pattern match, the search reports one |
| BuildingFactory.FindFromSound | src/main/kotlin/com/devaholics/skyline/tree/Buildings.kt:47-49 | what the search from i reports is a match |
| BuildingFactory.FindFromLeftmost | src/main/kotlin/com/devaholics/skyline/tree/Buildings.kt:47-49 | no match starts between i and the reported one, and none starts at or after i when nothing is reported |
| BuildingFactory.FindSound | src/main/kotlin/com/devaholics/skyline/tree/Buildings.kt:47-49 | `find` reports a match of the pattern |
| BuildingFactory.FindLeftmost | src/main/kotlin/com/devaholics/skyline/tree/Buildings.kt:47-49 | `find` reports the leftmost match, and reports nothing exactly when the text holds no match |
| BuildingFactory.FieldValue | src/main/kotlin/com/devaholics/skyline/tree/Buildings.kt:50-52 | a field that converts to a number converts to a non-negative one |
| BuildingFactory.DecimalFieldIsNumber | src/main/kotlin/com/devaholics/skyline/tree/Buildings.kt:15-52 | with an escaped dot, every text a field matches converts to a number |
| BuildingFactory.CreatedIsValid | src/main/kotlin/com/devaholics/skyline/tree/Buildings.kt:54-57 | a created building has start <= end, a positive height and a non-negative start |
| BuildingFactory.CreateChecksInOrder | src/main/kotlin/com/devaholics/skyline/tree/Buildings.kt:38-61 | blank text fails as blank exactly when blank; a '-' fails as negative exactly when the text is not blank; "not parsable" happens exactly when neither holds and no match exists; success needs a match |
| BuildingFactory.FromNumbers | src/main/kotlin/com/devaholics/skyline/tree/Buildings.kt:54-79 | once all three fields are numbers, the only failures left are a height of at most 0 and a start after the end |
| BuildingFactory.EscapedDotFieldsAreNumbers | src/main/kotlin/com/devaholics/skyline/tree/Buildings.kt:15-52 | with the dot escaped, creation never fails because a matched field is not a number |
| BuildingFactory.FindAtFirstBracket | src/main/kotlin/com/devaholics/skyline/tree/Buildings.kt:47-49 | in a text with a single '[' at its head, `find` is the attempt at position 0 |
| BuildingFactory.BracketedMatch | src/main/kotlin/com/devaholics/skyline/tree/Buildings.kt:15-49 | "[a,b,h]" with three fields free of delimiters matches exactly at its own delimiters |
| BuildingFactory.CreateBracketed | src/main/kotlin/com/devaholics/skyline/tree/Buildings.kt:38-61 | creating "[a,b,h]" from three fields converts and checks exactly a, b and h |
| BuildingFactory.CreateFormatted | src/main/kotlin/com/devaholics/skyline/tree/Buildings.kt:38-61 | for whole numbers written out as "[s,e,h]", creation fails as too flat when h = 0, otherwise as start after end when s > e, and otherwise gives Building(s, e, h) |
| BuildingFactory.CreateEqualEnds | src/main/kotlin/com/devaholics/skyline/tree/Buildings.kt:71-75 | a start equal to the end is accepted, and the building made is empty |
| BuildingFactoryExamples.CreateWholeNumbers | src/test/kotlin/com/devaholics/skyline/tree/BuildingsTest.kt:48-53 | "[1,2,3]" gives Building(1, 2, 3) under either reading of the dot |
| BuildingFactoryExamples.CreateDecimalText | src/test/kotlin/com/devaholics/skyline/tree/BuildingsTest.kt:41-46 | "[1.0,2.0,3.0]" gives Building(1, 2, 3) |
| BuildingFactoryExamples.CreateZeroHeight | src/test/kotlin/com/devaholics/skyline/tree/BuildingsTest.kt:55-58 | "[1,2,0]" fails as too flat |
| BuildingFactoryExamples.CreateStartAfterEnd | src/test/kotlin/com/devaholics/skyline/tree/BuildingsTest.kt:75-78 | "[5,1,3]" fails as start after end |
| BuildingFactoryExamples.CreateRefusedEarly | src/test/kotlin/com/devaholics/skyline/tree/BuildingsTest.kt:60-83 | "" fails as blank; "[-1,2,0]", "[1,-2,0]" and "[1,2,-1]" fail as negative |
| BuildingFactoryExamples.CreateWithoutStart | src/test/kotlin/com/devaholics/skyline/tree/BuildingsTest.kt:90-93 | "[,1,3]" is not parsable |
| BuildingFactoryExamples.CreateWithoutEnd | src/test/kotlin/com/devaholics/skyline/tree/BuildingsTest.kt:95-98 | "[1,,3]" is not parsable |
| BuildingFactoryExamples.CreateWithoutHeight | src/test/kotlin/com/devaholics/skyline/tree/BuildingsTest.kt:100-103 | "[1,3,]" is not parsable |
| BuildingFactoryExamples.ExponentAsWritten | src/main/kotlin/com/devaholics/skyline/tree/Buildings.kt:15-17 | as written, "[1,2e1,3]" is accepted as Building(1, 20, 3) |
| BuildingFactoryExamples.ExponentField | src/main/kotlin/com/devaholics/skyline/tree/Buildings.kt:15-50 | as written, "2e1" is a field and converts to 20 |
| BuildingFactoryExamples.ExponentEscaped | src/main/kotlin/com/devaholics/skyline/tree/Buildings.kt:15-17 | with the dot escaped, "[1,2e1,3]" is not parsable |
| BuildingFactoryExamples.FourFieldsAsWritten | src/test/kotlin/com/devaholics/skyline/tree/BuildingsTest.kt:85-88 | as written, "[1,2,2,3]" fails because the matched start "1,2" is not a number |
| BuildingFactoryExamples.FourFieldsSplit | src/main/kotlin/com/devaholics/skyline/tree/Buildings.kt:47-52 | as written, creating "[1,2,2,3]" converts the fields "1,2", "2" and "3" |
| BuildingFactoryExamples.FourFieldsMatch | src/main/kotlin/com/devaholics/skyline/tree/Buildings.kt:15-17 | as written, the match in "[1,2,2,3]" has its commas at 4 and 6 and its ']' at 8 |
| BuildingFactoryExamples.CommaIsNoNumber | src/main/kotlin/com/devaholics/skyline/tree/Buildings.kt:50 | "1,2" does not convert to a number |
| BuildingFactoryExamples.FourFieldsEscaped | src/test/kotlin/com/devaholics/skyline/tree/BuildingsTest.kt:85-88 | with the dot escaped, "[1,2,2,3]" is not parsable |
| SkylineSpec.SkyHeightIsTallest | src/test/kotlin/com/devaholics/skyline/tree/SkylineNodeTest.kt:37-52 | the skyline height at x is that of the tallest building over x: none is taller, and one reaches it unless it is 0 |
| SkylineSpec.SortedJoin | src/main/kotlin/com/devaholics/skyline/tree/SkylineNode.kt:147-161 | left list, own building and right list joined in order are sorted and solid when the parts lie on the right sides of the building |
| SkylineSpec.JoinHeight | src/main/kotlin/com/devaholics/skyline/tree/SkylineNode.kt:54-58 | replacing a node's three parts by lists raised by the left and right pieces around a new own building raises the whole by the added building |
| SkylineSpec.CollapseFromHeight | src/main/kotlin/com/devaholics/skyline/tree/SkylineNode.kt:88-99 | collapsing from a pending building stands at every x as tall as that building and the rest together |
| SkylineSpec.CollapseFromCanonical | src/main/kotlin/com/devaholics/skyline/tree/SkylineNode.kt:88-99 | the collapsed output is canonical; its first piece keeps the pending building's start and height; its last piece ends where the input ends |
| SkylineSpec.CollapseIsCollapsedSkyline | src/main/kotlin/com/devaholics/skyline/tree/SkylineNode.kt:82-101 | collapsing a sorted solid list gives a collapsed skyline of the same heights; it is [EMPTY] exactly when the input is empty |
| SkylineSpec.CanonicalUnique | src/main/kotlin/com/devaholics/skyline/tree/SkylineNode.kt:75-81 | two canonical lists that stand equally tall at every x are equal |
| SkylineSpec.CollapsedSkylineUnique | src/main/kotlin/com/devaholics/skyline/tree/SkylineNode.kt:75-101 | two collapsed skylines that stand equally tall at every x are equal |
| SkylineTree.SkylineNode.constructor | src/main/kotlin/com/devaholics/skyline/tree/SkylineNode.kt:9-11 | a new node holds the empty building and no children, and its tree is valid and empty |
| SkylineTree.SkylineNode.GetListOfBuilding | src/main/kotlin/com/devaholics/skyline/tree/SkylineNode.kt:164-170 | the list is empty exactly when the node's building is empty, and otherwise holds just that building |
| SkylineTree.SkylineNode.ContentsAreSortedSkyline | src/main/kotlin/com/devaholics/skyline/tree/SkylineNode.kt:147-161 | the in-order contents of a valid tree are non-empty, well-formed buildings, each left of every later one |
| SkylineTree.SkylineNode.AddBuilding | src/main/kotlin/com/devaholics/skyline/tree/SkylineNode.kt:29-61 | the search-tree invariant is kept; the contents stand at every x as tall as before or as the added building; they reach no further than both did; an empty building changes nothing; an empty node adopts the building; a non-empty node has both children afterwards; right of (left of) leaves the building and the other subtree alone; an overlap leaves the non-empty intersection at the taller height |
| SkylineTree.SkylineNode.AddBuildingOf | src/main/kotlin/com/devaholics/skyline/tree/SkylineNode.kt:20-22 | adding by coordinates is adding Building(start, end, height) |
| SkylineTree.SkylineNode.AddRightOf | src/main/kotlin/com/devaholics/skyline/tree/SkylineNode.kt:42-46 | a building right of the node's goes to the right subtree; the node's building and the left subtree are unchanged; the whole is raised by it |
| SkylineTree.SkylineNode.AddLeftOf | src/main/kotlin/com/devaholics/skyline/tree/SkylineNode.kt:48-52 | a building left of the node's goes to the left subtree; the node's building and the right subtree are unchanged; the whole is raised by it |
| SkylineTree.SkylineNode.AddOverlapping | src/main/kotlin/com/devaholics/skyline/tree/SkylineNode.kt:54-58 | an overlapping building raises the whole by itself, and the node keeps the non-empty intersection at the taller height |
| SkylineTree.SkylineNode.AddToLeftNode | src/main/kotlin/com/devaholics/skyline/tree/SkylineNode.kt:120 | the left child is raised by the building, within the bounds of both; the right child is untouched |
| SkylineTree.SkylineNode.AddToRightNode | src/main/kotlin/com/devaholics/skyline/tree/SkylineNode.kt:126 | the right child is raised by the building, within the bounds of both; the left child is untouched |
| SkylineTree.SkylineNode.EnsureLeftAndRightNodesAreNonNull | src/main/kotlin/com/devaholics/skyline/tree/SkylineNode.kt:107-115 | afterwards both children exist; existing children are kept; the building, the contents and both subtree lists are unchanged |
| SkylineTree.SkylineNode.HandleLeftPart | src/main/kotlin/com/devaholics/skyline/tree/SkylineNode.kt:117-121 | the left subtree is raised by the left part of the node's building as it was before the update and the added one, and it ends by the later start |
| SkylineTree.SkylineNode.HandleRightPart | src/main/kotlin/com/devaholics/skyline/tree/SkylineNode.kt:123-127 | the right subtree is raised by the right part, and it starts from the earlier end |
| SkylineTree.SkylineNode.HandleMiddlePart | src/main/kotlin/com/devaholics/skyline/tree/SkylineNode.kt:129-135 | the node's building becomes the intersection, never EMPTY, at the taller height; the tree is valid again and raised by the added building |
| SkylineTree.SkylineNode.ToList | src/main/kotlin/com/devaholics/skyline/tree/SkylineNode.kt:147-161 | the list is the in-order contents, sorted and made of non-empty buildings |
| SkylineTree.SkylineNode.CollapsedList | src/main/kotlin/com/devaholics/skyline/tree/SkylineNode.kt:82-101 | the loop computes Collapse of the contents: a collapsed skyline of the same heights, [EMPTY] exactly when the tree is empty |
| SkylineTree.InsertRightOf | src/main/kotlin/com/devaholics/skyline/tree/SkylineNode.kt:43-46 | raising the right list by a building right of the node's raises the whole list and keeps the right list right of the node's building |
| SkylineTree.InsertLeftOf | src/main/kotlin/com/devaholics/skyline/tree/SkylineNode.kt:49-52 | the mirror image for the left list |
| SkylineTree.InsertSplit | src/main/kotlin/com/devaholics/skyline/tree/SkylineNode.kt:54-58 | after the three parts are handled, the subtrees lie on the right sides of the intersection, and the whole is raised by the added building within its bounds |
| SkylineDrawing.DrawSkyline | src/main/kotlin/com/devaholics/skyline/drawing/common/SkylineDrawer.kt:19-43 | the lines are the drawing of the collapsed list; every horizontal line runs along the skyline; every raised point lies under a horizontal line at its height |
| SkylineDrawing.DrawSkylineClosed | src/main/kotlin/com/devaholics/skyline/drawing/common/SkylineDrawer.kt:19-43 | the corrected drawing starts with the first building's left side and includes the last building's right side |
| SkylineDrawing.DrawList | src/main/kotlin/com/devaholics/skyline/drawing/common/SkylineDrawer.kt:26-42 | the loop emits, index by index, the lines StrokesAt gives for each index |
| SkylineDrawing.NothingDrawnForNothing | src/main/kotlin/com/devaholics/skyline/drawing/common/SkylineDrawer.kt:22-24 | an empty list draws nothing |
| SkylineDrawing.EmptyTreeDrawing | src/main/kotlin/com/devaholics/skyline/drawing/common/SkylineDrawer.kt:20-24 | an empty tree collapses to [EMPTY], which is drawn as degenerate lines at the origin |
| SkylineDrawing.DrawingLength | src/main/kotlin/com/devaholics/skyline/drawing/common/SkylineDrawer.kt:26-42 | n >= 1 buildings give n + 1 + (1 if n > 1) + (number of touching neighbours) lines |
| SkylineDrawing.DrawingStartsWithLeftSide | src/main/kotlin/com/devaholics/skyline/drawing/common/SkylineDrawer.kt:27-28 | the first line drawn is the left side of the first building |
| SkylineDrawing.RoofDrawnLast | src/main/kotlin/com/devaholics/skyline/drawing/common/SkylineDrawer.kt:40-41 | the last line drawn for each index is that building's roof |
| SkylineDrawing.RightSideDrawn | src/main/kotlin/com/devaholics/skyline/drawing/common/SkylineDrawer.kt:30-32 | with more than one building, the last building's right side is drawn |
| SkylineDrawing.ConnectionIffTouching | src/main/kotlin/com/devaholics/skyline/drawing/common/SkylineDrawer.kt:34-37 | the step from the previous roof is drawn at index i > 0 exactly when the previous building ends where this one starts |
| SkylineDrawing.SingleBuildingLacksRightSide | src/main/kotlin/com/devaholics/skyline/drawing/common/SkylineDrawer.kt:27-33 | as written, one building is drawn as its left side and roof only, without its right side |
| SkylineDrawing.SingleBuildingClosed | src/main/kotlin/com/devaholics/skyline/drawing/common/SkylineDrawer.kt:27-33 | corrected, one building is drawn as left side, right side and roof |
| SkylineDrawing.DrawingTracesSkyline | src/main/kotlin/com/devaholics/skyline/drawing/common/SkylineDrawer.kt:19-43 | for a collapsed skyline, horizontal lines run along it and cover every raised point |
| SkylineDrawing.RoofsTraceSkyline | src/main/kotlin/com/devaholics/skyline/drawing/common/SkylineDrawer.kt:40-41 | every horizontal line of a canonical list's drawing lies at the skyline height over its whole span |
| SkylineDrawing.SkylineUnderRoofs | src/main/kotlin/com/devaholics/skyline/drawing/common/SkylineDrawer.kt:40-41 | every raised point lies under a horizontal line drawn at its height |
| SkylineDrawing.HorizontalStrokeIsRoof | src/main/kotlin/com/devaholics/skyline/drawing/common/SkylineDrawer.kt:56-58 | in a canonical list, the only horizontal line drawn for an index is its roof |
| SkylineClient.BuildSkyline | src/test/kotlin/com/devaholics/skyline/tree/SkylineNodeTest.kt:86-98 | adding the buildings in the drawn order gives a valid tree that stands at every x as tall as the tallest building over x |
| SkylineClient.AnyOrderSameSkyline | src/test/kotlin/com/devaholics/skyline/tree/SkylineNodeTest.kt:75-84 | two insertion orders of the same buildings give the same collapsed list, a collapsed skyline of the buildings' heights |
| SkylineClient.RemoveAt | src/test/kotlin/com/devaholics/skyline/tree/SkylineNodeTest.kt:93 | the result is the list without its k-th building: the others in their order, position by position, and the same multiset less that building; the list stands as tall as that building and the rest |
| SkylineClient.SameSkylineSameCollapse | src/test/kotlin/com/devaholics/skyline/tree/SkylineNodeTest.kt:75-84 | sorted solid lists that stand equally tall everywhere collapse to the same list |
| SkylineClient.SevenBuildings | src/test/kotlin/com/devaholics/skyline/tree/SkylineNodeTest.kt:17-34 | the seven buildings added in any order collapse to the seven expected pieces |
| SkylineClient.SevenSkylineIsCanonical | src/test/kotlin/com/devaholics/skyline/tree/SkylineNodeTest.kt:27-34 | the expected pieces form a collapsed skyline |
| SkylineClient.SevenHeights | src/test/kotlin/com/devaholics/skyline/tree/SkylineNodeTest.kt:17-34 | the expected pieces stand as tall as the seven buildings at every x |
| BuildingValue.IsEmpty | src/main/kotlin/com/devaholics/skyline/tree/Building.kt:42-45 | zero width or a height of at most 0; EmptyIffFlat states that this is exactly a building that raises no point |
| BuildingValue.IsNotEmpty | src/main/kotlin/com/devaholics/skyline/tree/Building.kt:53-55 | the negation of IsEmpty |
| BuildingValue.IsLeftOf | src/main/kotlin/com/devaholics/skyline/tree/Building.kt:62-64 | ends at or before the other starts (touching allowed); LeftOfIsMirroredRightOf and SeparatedIffNoCommonPoint state its meaning |
| BuildingValue.IsRightOf | src/main/kotlin/com/devaholics/skyline/tree/Building.kt:71-73 | starts at or after the other ends; the mirror image of IsLeftOf |
| BuildingValue.IsLeftAdjacentOf | src/main/kotlin/com/devaholics/skyline/tree/Building.kt:80-82 | ends exactly where the other starts |
| BuildingValue.IsSameHeight | src/main/kotlin/com/devaholics/skyline/tree/Building.kt:89-91 | exact equality of heights |
| BuildingValue.IsOverlappingLeftOf | src/main/kotlin/com/devaholics/skyline/tree/Building.kt:201-204 | reaches into the other from its left; used by Intersect |
| BuildingValue.IsOverlappingRightOf | src/main/kotlin/com/devaholics/skyline/tree/Building.kt:209-211 | reaches into the other from its right; used by Intersect |
| BuildingFactory.IsBlank | src/main/kotlin/com/devaholics/skyline/tree/Buildings.kt:39 | nothing but whitespace, the empty text included; CreateChecksInOrder states that exactly these fail as blank |
| BuildingFactory.Find | src/main/kotlin/com/devaholics/skyline/tree/Buildings.kt:47-49 | a reported match lies in order within the text; FindSound and FindLeftmost state that it is the leftmost match, and that nothing is reported exactly when no match exists |
| BuildingFactory.FromFields | src/main/kotlin/com/devaholics/skyline/tree/Buildings.kt:50-57 | converts the three fields in order, then checks the height, then start against end; FromNumbers and CreatedIsValid state what it can return |
| BuildingFactory.CreateWith | src/main/kotlin/com/devaholics/skyline/tree/Buildings.kt:38-61 | creation with the separator as a parameter; CreateChecksInOrder, CreatedIsValid and CreateFormatted state its checks and their order |
| BuildingFactory.Create | src/main/kotlin/com/devaholics/skyline/tree/Buildings.kt:38-61 | creation as written, with the unescaped dot; the lemmas about CreateWith and the examples state its behaviour |
| BuildingFactory.CreateWithEscapedDot | src/main/kotlin/com/devaholics/skyline/tree/Buildings.kt:15-61 | creation with the dot escaped; EscapedDotFieldsAreNumbers states that it never fails on a matched field |
| SkylineSpec.AreAdjacent | src/main/kotlin/com/devaholics/skyline/tree/SkylineNode.kt:143-145 | the first ends exactly where the second starts |
| SkylineSpec.CanBeMerged | src/main/kotlin/com/devaholics/skyline/tree/SkylineNode.kt:137-140 | adjacent and equally tall; MergeAdjacentSameHeight states that merging such a pair keeps the height at every x |
| SkylineSpec.CollapseFrom | src/main/kotlin/com/devaholics/skyline/tree/SkylineNode.kt:88-99 | the merging loop from a pending building; CollapseFromHeight and CollapseFromCanonical state that it keeps the heights and gives a canonical list |
| SkylineSpec.Collapse | src/main/kotlin/com/devaholics/skyline/tree/SkylineNode.kt:82-101 | the merging loop from the empty building; CollapseIsCollapsedSkyline and CollapsedSkylineUnique state its result |
| SkylineDrawing.LeftSide | src/main/kotlin/com/devaholics/skyline/drawing/common/SkylineDrawer.kt:52-54 | the line from (start, 0) to (start, height) |
| SkylineDrawing.TopSide | src/main/kotlin/com/devaholics/skyline/drawing/common/SkylineDrawer.kt:56-58 | the line from (start, height) to (end, height); HorizontalStrokeIsRoof states that it is the only horizontal line drawn |
| SkylineDrawing.RightSide | src/main/kotlin/com/devaholics/skyline/drawing/common/SkylineDrawer.kt:60-62 | the line from (end, 0) to (end, height) |
| SkylineDrawing.Connection | src/main/kotlin/com/devaholics/skyline/drawing/common/SkylineDrawer.kt:48-50 | the line from the previous roof's end to this roof's start; ConnectionIffTouching states when it is drawn |
| SkylineDrawing.StrokesAt | src/main/kotlin/com/devaholics/skyline/drawing/common/SkylineDrawer.kt:26-42 | the lines for one index: left side at index 0; right side for the last index after 0; then the connection when the neighbour touches; then the roof; DrawingStartsWithLeftSide, RoofDrawnLast and RightSideDrawn state these |

## Left out

- SkylineTree.SkylineNode.constructor: models only the call with no arguments, which every call site in the repository uses. The Kotlin primary constructor also takes optional children and a building (SkylineNode.kt:9-11). Those arguments can build a node with an empty building and a child, which the model's tree invariant excludes.
- Floating point: `Float` values, `Number.toFloat()` in the convenience constructors, rounding, NaN and infinities. Coordinates are exact reals.
- BuildingFactory.FieldValue: models the text-to-float conversion only on the texts a field can hold: digits, digits '.' digits, and digits 'e'/'E' digits. Every other field is "not a number". The exception that the conversion throws becomes the `NotANumber` error.
- BuildingFactory.IsWhitespace: the blank check uses a fixed set of whitespace characters (the Unicode space separators and the control whitespace). It is not the platform's full character table.
- SkylineTree.SkylineNode.AddBuilding: requires `start <= end` of the added building. The source does not check this; the parser guarantees it (Buildings.kt:71-75). A building with start after end would count as non-empty there.
- SkylineTree.SkylineNode.AddBuildingOf: requires `start <= end`, for the same reason.
- The builder-style return value of `addBuilding` (it returns the node itself) is not modelled. The methods return nothing, and chained calls become consecutive calls.
- `SkylineNode.balance()` only throws "not implemented" and is not modelled.
- `toString` of buildings and nodes is not modelled.
- Object-identity checks on the shared empty building (the same instance every time) are not modelled. Datatype values have no identity, and `EMPTY` is one constant.
- The random generator of the randomised test becomes a parameter: the sequence of indices drawn (`draws`). The 200000 repetitions are not modelled.
- The `Drawer` interface and its Swing implementation are not modelled. The drawer's calls are recorded as a sequence of `Line` values.
- The UI (window, scaling, zoom) and the application entry points are not modelled.
- The drawing leaves gaps between separated buildings open, as the code does. No property about walls across gaps is claimed.

## Findings

| source | as written | input that shows it | evidently intended | confidence | as-written member | corrected member |
|---|---|---|---|---|---|---|
| src/main/kotlin/com/devaholics/skyline/tree/Buildings.kt:15-17 | the dot inside a field is unescaped, so a field may be digits, any character, digits | "[1,2e1,3]" is accepted as Building(1, 20, 3) | a field is a decimal number with an optional decimal point, so this text is refused | not executed | BuildingFactoryExamples.ExponentAsWritten | BuildingFactoryExamples.ExponentEscaped |
| src/main/kotlin/com/devaholics/skyline/tree/Buildings.kt:15-17 | the unescaped dot lets a comma stand inside the first field | "[1,2,2,3]" matches with start field "1,2" and fails as "not a number" instead of "not parsable" | a text with four fields does not match the pattern, and no matched field fails to convert | not executed | BuildingFactoryExamples.FourFieldsAsWritten | BuildingFactory.EscapedDotFieldsAreNumbers |
| src/main/kotlin/com/devaholics/skyline/drawing/common/SkylineDrawer.kt:27-33 | the right side is drawn only in the `else` branch of the first index | a skyline of one building, e.g. Building(1, 2, 3), draws its left side and roof but not its right side | the last building always gets its right side | not executed | SkylineDrawing.SingleBuildingLacksRightSide | SkylineDrawing.DrawSkylineClosed |
