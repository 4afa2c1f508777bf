/**
 * The helpers the directional sweeps are built from (Utils.cs; Core.cs keeps
 * private copies of DropFactory, SetValueFactory and IsInnerCondition, and its
 * own GetValueFactory, which is modelled in module Cores).
 *
 * A sweep fixes two flags: `isAlongRow` (lines are rows, else columns) and
 * `isIncreasing` (tiles move toward index 0 of each line, else toward its last
 * index).  The outer index picks a line and the inner index a cell in it.
 */
module Utils {
  import opened Optional
  import opened Compaction
  import opened Elements
  import opened Grid

  /** DropFactory: the next inner index toward the target edge.  Called with
      the negated flag it gives the sweep's "reverse drop". */
  function Drop(isIncreasing: bool, innerIndex: int): int
  {
    if isIncreasing then innerIndex - 1 else innerIndex + 1
  }

  /** The inner index a sweep starts at and the one it ends at. */
  function InnerStart(isIncreasing: bool, innerCount: int): int
  {
    if isIncreasing then 0 else innerCount - 1
  }

  function InnerEnd(isIncreasing: bool, innerCount: int): int
  {
    if isIncreasing then innerCount - 1 else 0
  }

  /** Drop moves one distance closer to the target edge, the reverse drop one
      distance away from it, and each undoes the other. */
  lemma DropByDistance(isIncreasing: bool, innerCount: int, d: int, innerIndex: int)
    ensures Drop(isIncreasing, InnerIndex(isIncreasing, innerCount, d)) == InnerIndex(isIncreasing, innerCount, d - 1)
    ensures Drop(!isIncreasing, InnerIndex(isIncreasing, innerCount, d)) == InnerIndex(isIncreasing, innerCount, d + 1)
    ensures Drop(!isIncreasing, Drop(isIncreasing, innerIndex)) == innerIndex
    ensures InnerStart(isIncreasing, innerCount) == InnerIndex(isIncreasing, innerCount, 0)
    ensures InnerEnd(isIncreasing, innerCount) == InnerIndex(isIncreasing, innerCount, innerCount - 1)
  {
  }

  /** IsInnerCondition: the index lies between start and end, whichever is smaller. */
  function IsInnerCondition(index: int, innerStart: int, innerEnd: int): bool
  {
    var minIndex := if innerStart <= innerEnd then innerStart else innerEnd;
    var maxIndex := if innerStart <= innerEnd then innerEnd else innerStart;
    minIndex <= index && index <= maxIndex
  }

  /** For a non-empty line the condition is exactly "the index is on the line",
      in either sweep order; for an empty line it still admits the start index,
      which is why a sweep over a board with an empty inner dimension fails. */
  lemma InnerConditionOnLine(isIncreasing: bool, innerCount: int, index: int, d: int)
    ensures IsInnerCondition(index, InnerStart(isIncreasing, innerCount), InnerEnd(isIncreasing, innerCount))
         == IsInnerCondition(index, InnerEnd(isIncreasing, innerCount), InnerStart(isIncreasing, innerCount))
    ensures innerCount > 0 ==>
              (IsInnerCondition(index, InnerStart(isIncreasing, innerCount), InnerEnd(isIncreasing, innerCount))
               <==> 0 <= index < innerCount)
    ensures innerCount > 0 ==>
              (IsInnerCondition(InnerIndex(isIncreasing, innerCount, d),
                                InnerStart(isIncreasing, innerCount), InnerEnd(isIncreasing, innerCount))
               <==> 0 <= d < innerCount)
    ensures innerCount == 0 ==>
              IsInnerCondition(InnerStart(isIncreasing, 0), InnerStart(isIncreasing, 0), InnerEnd(isIncreasing, 0))
  {
  }

  /** The inner loop's cursor: `innerItem` is the cell at distance `c` from
      the leading edge of a line of `innerCount` cells, and the loop condition
      holds exactly while cells remain. */
  ghost predicate Cursor(isIncreasing: bool, innerCount: int, innerStart: int, innerEnd: int, c: int, innerItem: int)
  {
    innerStart == InnerStart(isIncreasing, innerCount) && innerEnd == InnerEnd(isIncreasing, innerCount)
    && 0 <= c <= innerCount && innerItem == InnerIndex(isIncreasing, innerCount, c)
    && (IsInnerCondition(innerItem, innerStart, innerEnd) <==> c < innerCount)
  }

  lemma CursorStart(isIncreasing: bool, innerCount: int)
    requires innerCount > 0
    ensures Cursor(isIncreasing, innerCount, InnerStart(isIncreasing, innerCount), InnerEnd(isIncreasing, innerCount),
                   0, InnerStart(isIncreasing, innerCount))
  {
    DropByDistance(isIncreasing, innerCount, 0, 0);
    InnerConditionOnLine(isIncreasing, innerCount, InnerStart(isIncreasing, innerCount), 0);
  }

  /** Dropping the index backward moves the cursor one cell on. */
  lemma CursorNext(isIncreasing: bool, innerCount: int, innerStart: int, innerEnd: int, c: int, innerItem: int)
    requires Cursor(isIncreasing, innerCount, innerStart, innerEnd, c, innerItem) && c < innerCount
    ensures Cursor(isIncreasing, innerCount, innerStart, innerEnd, c + 1, Drop(!isIncreasing, innerItem))
  {
    DropByDistance(isIncreasing, innerCount, c, innerItem);
    InnerConditionOnLine(isIncreasing, innerCount, Drop(!isIncreasing, innerItem), c + 1);
  }

  /** The row and column of inner index `innerItem` of line `outerItem` are in range. */
  predicate OnBoard(isAlongRow: bool, elements: array2<int>, outerItem: int, innerItem: int)
  {
    var (r, c) := Position(isAlongRow, outerItem, innerItem);
    0 <= r < elements.Length0 && 0 <= c < elements.Length1
  }

  /** Utils.GetValueFactory: the element read at inner index `innerItem` of line
      `outerItem`.  It is labelled (outerItem, innerItem) in both modes, so when
      lines are columns its Row holds the column index and its Column the row
      index. */
  function GetValue(isAlongRow: bool, elements: array2<int>, outerItem: int, innerItem: int): (e: Element)
    reads elements
    requires OnBoard(isAlongRow, elements, outerItem, innerItem)
    ensures e.Row == outerItem && e.Column == innerItem
    ensures 0 <= outerItem < OuterCount(Cells(elements), isAlongRow)
    ensures 0 <= innerItem < InnerCount(Cells(elements), isAlongRow)
    ensures e.Value == At(Cells(elements), isAlongRow, outerItem, innerItem)
  {
    if isAlongRow then Element(outerItem, innerItem, elements[outerItem, innerItem])
    else Element(outerItem, innerItem, elements[innerItem, outerItem])
  }

  /** SetValueFactory: writes inner index `innerItem` of line `outerItem`, and no other cell. */
  method SetValue(isAlongRow: bool, elements: array2<int>, outerItem: int, innerItem: int, value: int)
    requires OnBoard(isAlongRow, elements, outerItem, innerItem)
    modifies elements
    ensures Cells(elements) == Put(old(Cells(elements)), Position(isAlongRow, outerItem, innerItem).0,
                                   Position(isAlongRow, outerItem, innerItem).1, value)
  {
    var (r, c) := Position(isAlongRow, outerItem, innerItem);
    ghost var before := Cells(elements);
    elements[r, c] := value;
    ghost var after := Cells(elements);
    ghost var expected := Put(before, r, c, value);
    forall r' | 0 <= r' < elements.Length0 ensures after[r'] == expected[r'] {
    }
  }

  /** Reading back what SetValue wrote gives the value written, and every other cell is as before. */
  lemma ReadAfterWrite(isAlongRow: bool, g: seq<seq<int>>, outerItem: int, innerItem: int, value: int,
                       outer': int, inner': int)
    requires IsGrid(g)
    requires 0 <= outerItem < OuterCount(g, isAlongRow) && 0 <= innerItem < InnerCount(g, isAlongRow)
    requires 0 <= outer' < OuterCount(g, isAlongRow) && 0 <= inner' < InnerCount(g, isAlongRow)
    ensures IsGrid(Put(g, Position(isAlongRow, outerItem, innerItem).0, Position(isAlongRow, outerItem, innerItem).1, value))
    ensures At(Put(g, Position(isAlongRow, outerItem, innerItem).0, Position(isAlongRow, outerItem, innerItem).1, value),
               isAlongRow, outer', inner')
         == if (outer', inner') == (outerItem, innerItem) then value else At(g, isAlongRow, outer', inner')
  {
    var (r, c) := Position(isAlongRow, outerItem, innerItem);
    var h := Put(g, r, c, value);
    assert forall k :: 0 <= k < |h| ==> |h[k]| == |g[k]|;
  }

  // ---------------------------------------------------------------------------
  // The two halves of processing one tile, shared by every sweep
  // ---------------------------------------------------------------------------

  /** The probe loop (CalculateNewItem in Core.cs and UpdateLoop.cs, inline in
      Game.Update): from inner index `innerItem` (distance c) step toward the
      edge while the index is on the line and the cell is empty.  `h` is the
      board apart from line `outerItem`, which is `line` in edge-distance order. */
  method CalculateNewItem(elements: array2<int>, isAlongRow: bool, isIncreasing: bool,
                          innerStart: int, innerEnd: int, base: int, outerItem: int, innerItem: int,
                          ghost h: seq<seq<int>>, ghost line: seq<int>, ghost c: int)
    returns (newInnerItem: int)
    requires IsGrid(h) && 0 <= outerItem < OuterCount(h, isAlongRow) && |line| == InnerCount(h, isAlongRow)
    requires innerStart == InnerStart(isIncreasing, |line|) && innerEnd == InnerEnd(isIncreasing, |line|)
    requires 0 <= c < |line| && innerItem == InnerIndex(isIncreasing, |line|, c)
    requires Cells(elements) == WithLine(h, isAlongRow, isIncreasing, outerItem, line)
    ensures newInnerItem == InnerIndex(isIncreasing, |line|, Probe(line, base, c - 1))
  {
    var n := |line|;
    newInnerItem := innerItem;
    ghost var p := c;
    DropByDistance(isIncreasing, n, p, newInnerItem);
    newInnerItem := Drop(isIncreasing, newInnerItem);
    p := p - 1;
    InnerConditionOnLine(isIncreasing, n, newInnerItem, p);
    while IsInnerCondition(newInnerItem, innerStart, innerEnd)
          && GetValue(isAlongRow, elements, outerItem, newInnerItem).Value == base
      invariant -1 <= p < c && newInnerItem == InnerIndex(isIncreasing, n, p)
      invariant IsInnerCondition(newInnerItem, innerStart, innerEnd) <==> 0 <= p
      invariant Probe(line, base, c - 1) == Probe(line, base, p)
      decreases p
    {
      AtWithLine(h, isAlongRow, isIncreasing, outerItem, line, p);
      assert line[p] == base;
      DropByDistance(isIncreasing, n, p, newInnerItem);
      newInnerItem := Drop(isIncreasing, newInnerItem);
      p := p - 1;
      InnerConditionOnLine(isIncreasing, n, newInnerItem, p);
    }
    if 0 <= p {
      AtWithLine(h, isAlongRow, isIncreasing, outerItem, line, p);
    }
  }

  /** Where a transition put its tile, as an inner index, and what it wrote there. */
  datatype Landing = Landing(newInnerItem: int, value: int, merged: bool)

  function LandingOf(isIncreasing: bool, innerCount: int, shift: Option<Shift>): Option<Landing>
  {
    match shift
    case None => None
    case Some(s) => Some(Landing(InnerIndex(isIncreasing, innerCount, s.dst), s.value, s.merged))
  }

  /** The merge half of UpdatingElement: the tile at distance c merges into
      the equal tile at distance p; the destination gets merge(destination,
      source) and the source cell becomes empty. */
  method MergeTile(elements: array2<int>, isAlongRow: bool, isIncreasing: bool,
                   base: int, merge: (int, int) -> int,
                   outerItem: int, innerItem: int, newInnerItem: int,
                   ghost h: seq<seq<int>>, ghost line: seq<int>, ghost c: int, ghost p: int)
    returns (newElement: int)
    requires IsGrid(h) && 0 <= outerItem < OuterCount(h, isAlongRow) && |line| == InnerCount(h, isAlongRow)
    requires 0 <= p < c < |line|
    requires innerItem == InnerIndex(isIncreasing, |line|, c) && newInnerItem == InnerIndex(isIncreasing, |line|, p)
    requires Cells(elements) == WithLine(h, isAlongRow, isIncreasing, outerItem, line)
    requires line[c] != base && p == Probe(line, base, c - 1) && line[p] == line[c]
    modifies elements
    ensures newElement == merge(line[p], line[c])
    ensures Cells(elements) == WithLine(h, isAlongRow, isIncreasing, outerItem, Step(line, base, merge, c).line)
    ensures Step(line, base, merge, c).shift == Some(Shift(c, p, newElement, true))
  {
    AtWithLine(h, isAlongRow, isIncreasing, outerItem, line, c);
    AtWithLine(h, isAlongRow, isIncreasing, outerItem, line, p);
    newElement := merge(GetValue(isAlongRow, elements, outerItem, newInnerItem).Value,
                        GetValue(isAlongRow, elements, outerItem, innerItem).Value);
    SetInLine(elements, isAlongRow, isIncreasing, outerItem, newInnerItem, newElement, h, line, p);
    SetInLine(elements, isAlongRow, isIncreasing, outerItem, innerItem, base, h, line[p := newElement], c);
    assert Step(line, base, merge, c) == LineStep(line[p := newElement][c := base], Some(Shift(c, p, newElement, true)));
  }

  /** SetValue seen on the line: writing inner index `innerItem` (distance d)
      of line `outerItem` replaces element d of the line and nothing else. */
  method SetInLine(elements: array2<int>, isAlongRow: bool, isIncreasing: bool, outerItem: int, innerItem: int,
                   value: int, ghost h: seq<seq<int>>, ghost line: seq<int>, ghost d: int)
    requires IsGrid(h) && 0 <= outerItem < OuterCount(h, isAlongRow) && |line| == InnerCount(h, isAlongRow)
    requires 0 <= d < |line| && innerItem == InnerIndex(isIncreasing, |line|, d)
    requires Cells(elements) == WithLine(h, isAlongRow, isIncreasing, outerItem, line)
    modifies elements
    ensures Cells(elements) == WithLine(h, isAlongRow, isIncreasing, outerItem, line[d := value])
  {
    PutInLine(h, isAlongRow, isIncreasing, outerItem, line, d, value);
    SetValue(isAlongRow, elements, outerItem, innerItem, value);
  }

  /** The stacking half of UpdatingElement: the tile at distance c moves to
      distance p + 1, just behind the probe's stop (it may stay where it is). */
  method StackTile(elements: array2<int>, isAlongRow: bool, isIncreasing: bool, base: int, ghost merge: (int, int) -> int,
                   outerItem: int, innerItem: int, newInnerItem: int,
                   ghost h: seq<seq<int>>, ghost line: seq<int>, ghost c: int, ghost p: int)
    returns (newItem: int)
    requires IsGrid(h) && 0 <= outerItem < OuterCount(h, isAlongRow) && |line| == InnerCount(h, isAlongRow)
    requires -1 <= p < c < |line|
    requires innerItem == InnerIndex(isIncreasing, |line|, c) && newInnerItem == InnerIndex(isIncreasing, |line|, p)
    requires Cells(elements) == WithLine(h, isAlongRow, isIncreasing, outerItem, line)
    requires line[c] != base && p == Probe(line, base, c - 1) && !(p != -1 && line[p] == line[c])
    modifies elements
    ensures newItem == InnerIndex(isIncreasing, |line|, p + 1)
    ensures Cells(elements) == WithLine(h, isAlongRow, isIncreasing, outerItem, Step(line, base, merge, c).line)
    ensures Step(line, base, merge, c).shift == if p + 1 == c then None else Some(Shift(c, p + 1, line[c], false))
  {
    AtWithLine(h, isAlongRow, isIncreasing, outerItem, line, c);
    DropByDistance(isIncreasing, |line|, p, newInnerItem);
    newItem := Drop(!isIncreasing, newInnerItem);
    var value := GetValue(isAlongRow, elements, outerItem, innerItem).Value;
    SetInLine(elements, isAlongRow, isIncreasing, outerItem, innerItem, base, h, line, c);
    SetInLine(elements, isAlongRow, isIncreasing, outerItem, newItem, value, h, line[c := base], p + 1);
    assert Step(line, base, merge, c).line == line[c := base][p + 1 := line[c]];
  }

  /** The tile at inner index `innerItem` (distance c, not empty) after the
      probe stopped at `newInnerItem`: it merges into the tile there when the
      index is on the line and the values are equal, and otherwise moves to the
      cell just behind it.  The landing is reported when the tile left its cell. */
  method MoveTile(elements: array2<int>, isAlongRow: bool, isIncreasing: bool,
                  innerStart: int, innerEnd: int, base: int, merge: (int, int) -> int,
                  outerItem: int, innerItem: int, newInnerItem: int,
                  ghost h: seq<seq<int>>, ghost line: seq<int>, ghost c: int)
    returns (landing: Option<Landing>)
    requires IsGrid(h) && 0 <= outerItem < OuterCount(h, isAlongRow) && |line| == InnerCount(h, isAlongRow)
    requires innerStart == InnerStart(isIncreasing, |line|) && innerEnd == InnerEnd(isIncreasing, |line|)
    requires 0 <= c < |line| && innerItem == InnerIndex(isIncreasing, |line|, c)
    requires Cells(elements) == WithLine(h, isAlongRow, isIncreasing, outerItem, line)
    requires line[c] != base
    requires newInnerItem == InnerIndex(isIncreasing, |line|, Probe(line, base, c - 1))
    modifies elements
    ensures Cells(elements) == WithLine(h, isAlongRow, isIncreasing, outerItem, Step(line, base, merge, c).line)
    ensures landing == LandingOf(isIncreasing, |line|, Step(line, base, merge, c).shift)
  {
    ghost var p := Probe(line, base, c - 1);
    InnerConditionOnLine(isIncreasing, |line|, newInnerItem, p);
    AtWithLine(h, isAlongRow, isIncreasing, outerItem, line, c);
    if 0 <= p {
      AtWithLine(h, isAlongRow, isIncreasing, outerItem, line, p);
    }
    if IsInnerCondition(newInnerItem, innerStart, innerEnd)
       && GetValue(isAlongRow, elements, outerItem, newInnerItem).Value
          == GetValue(isAlongRow, elements, outerItem, innerItem).Value
    {
      var newElement := MergeTile(elements, isAlongRow, isIncreasing, base, merge, outerItem, innerItem, newInnerItem,
                                  h, line, c, p);
      landing := Some(Landing(newInnerItem, newElement, true));
    } else {
      var value := GetValue(isAlongRow, elements, outerItem, innerItem).Value;
      var newItem := StackTile(elements, isAlongRow, isIncreasing, base, merge, outerItem, innerItem, newInnerItem,
                               h, line, c, p);
      landing := if newItem == innerItem then None else Some(Landing(newItem, value, false));
    }
  }
}
