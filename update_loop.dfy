/**
 * The sweep as a class of its own (UpdateLoop.cs): built for one direction over
 * a board array, it sweeps every line with the merge function it is given and
 * returns the map of transitions.  It reads elements through
 * Utils.GetValueFactory, so the map's elements are labelled (line, inner index).
 */
module UpdateLoops {
  import opened Optional
  import opened Compaction
  import opened Elements
  import opened Grid
  import opened Utils
  import opened Transitions

  class UpdateLoop {
    const outerCount: int
    const innerCount: int
    const innerStart: int
    const innerEnd: int
    const baseValue: int
    /** The flags the drop, get-value and set-value delegates were made from. */
    const isAlongRow: bool
    const isIncreasing: bool
    const elements: array2<int>

    /** The counts agree with the array's dimensions, and the array can be swept. */
    ghost predicate Fits()
    {
      outerCount == (if isAlongRow then elements.Length0 else elements.Length1)
      && innerCount == (if isAlongRow then elements.Length1 else elements.Length0)
      && innerStart == InnerStart(isIncreasing, innerCount) && innerEnd == InnerEnd(isIncreasing, innerCount)
      && Sweepable(elements.Length0, elements.Length1)
    }

    /** The layout of the map Loop returns. */
    function LoopLayout(): Layout
    {
      Layout(OuterInner, isAlongRow, isIncreasing, innerCount, baseValue)
    }

    /** UpdateLoop(isAlongRow, isIncreasing, height, width, elements, baseValue):
        line counts from the given dimensions, sweep bounds from the direction. */
    constructor(isAlongRow: bool, isIncreasing: bool, height: int, width: int, elements: array2<int>, baseValue: int)
      ensures this.isAlongRow == isAlongRow && this.isIncreasing == isIncreasing
      ensures this.elements == elements && this.baseValue == baseValue
      ensures outerCount == (if isAlongRow then height else width)
      ensures innerCount == (if isAlongRow then width else height)
      ensures innerStart == InnerStart(isIncreasing, innerCount) && innerEnd == InnerEnd(isIncreasing, innerCount)
      ensures height == elements.Length0 && width == elements.Length1 && Sweepable(height, width) ==> Fits()
    {
      this.baseValue := baseValue;
      outerCount := if isAlongRow then height else width;
      innerCount := if isAlongRow then width else height;
      innerStart := if isIncreasing then 0 else (if isAlongRow then width else height) - 1;
      innerEnd := if isIncreasing then (if isAlongRow then width else height) - 1 else 0;
      this.isAlongRow := isAlongRow;
      this.isIncreasing := isIncreasing;
      this.elements := elements;
    }

    /** Loop(newValue): sweeps every line, merging equal tiles with `newValue`,
        and returns the map from each vacated cell to where its tile went. */
    method Loop(newValue: (int, int) -> int) returns (updatingMap: map<Element, Element>)
      requires Fits()
      modifies elements
      ensures Cells(elements) == PassGrid(old(Cells(elements)), isAlongRow, isIncreasing, baseValue, newValue)
      ensures updatingMap == TransitionMap(LoopLayout(), Moves(old(Cells(elements)), isAlongRow, isIncreasing,
                                                               baseValue, newValue))
    {
      ghost var g := Cells(elements);
      ghost var rs := LinePassesExist(g, isAlongRow, isIncreasing, baseValue, newValue);
      ghost var changed, gain;
      updatingMap, changed, gain := LoopLines(newValue, g, rs);
      PassedLinesEnd(g, isAlongRow, isIncreasing, baseValue, newValue, rs, Cells(elements), changed, gain);
      MappedLinesEnd(LoopLayout(), g, newValue, rs, updatingMap);
    }

    /** The outer loop of Loop, from the board `g` whose line passes are `rs`. */
    method LoopLines(newValue: (int, int) -> int, ghost g: seq<seq<int>>, ghost rs: seq<LinePass>)
      returns (updatingMap: map<Element, Element>, ghost changed: bool, ghost gain: int)
      requires Fits() && g == Cells(elements)
      requires LinePasses(g, isAlongRow, isIncreasing, baseValue, newValue, rs)
      modifies elements
      ensures PassedLines(g, isAlongRow, isIncreasing, baseValue, newValue, rs, |rs|, Cells(elements), changed, gain)
      ensures MappedLines(LoopLayout(), rs, |rs|, updatingMap)
    {
      updatingMap := map[];
      changed, gain := false, 0;
      assert outerCount == |rs| && innerCount == InnerCount(g, isAlongRow);
      PassedLinesStart(g, isAlongRow, isIncreasing, baseValue, newValue, rs);
      MappedLinesStart(LoopLayout(), rs);
      for outerItem := 0 to outerCount
        invariant PassedLines(g, isAlongRow, isIncreasing, baseValue, newValue, rs, outerItem, Cells(elements),
                              changed, gain)
        invariant MappedLines(LoopLayout(), rs, outerItem, updatingMap)
      {
        updatingMap, changed, gain := LoopOuter(newValue, outerItem, updatingMap, g, rs, changed, gain);
      }
    }

    /** One iteration of the outer loop of Loop: line `outerItem` is swept and
        its transitions are added to the map. */
    method LoopOuter(newValue: (int, int) -> int, outerItem: int, updatingMap: map<Element, Element>,
                     ghost g: seq<seq<int>>, ghost rs: seq<LinePass>, ghost changed: bool, ghost gain: int)
      returns (updatingMap': map<Element, Element>, ghost changed': bool, ghost gain': int)
      requires Fits() && innerCount == InnerCount(g, isAlongRow)
      requires LinePasses(g, isAlongRow, isIncreasing, baseValue, newValue, rs)
      requires 0 <= outerItem < |rs|
      requires PassedLines(g, isAlongRow, isIncreasing, baseValue, newValue, rs, outerItem, Cells(elements),
                           changed, gain)
      requires MappedLines(LoopLayout(), rs, outerItem, updatingMap)
      modifies elements
      ensures PassedLines(g, isAlongRow, isIncreasing, baseValue, newValue, rs, outerItem + 1, Cells(elements),
                          changed', gain')
      ensures MappedLines(LoopLayout(), rs, outerItem + 1, updatingMap')
    {
      ghost var v := LineOf(g, isAlongRow, isIncreasing, outerItem);
      ghost var h := Cells(elements);
      WithLineStart(g, isAlongRow, isIncreasing, baseValue, newValue, outerItem);
      MappedLineStart(LoopLayout(), newValue, outerItem, v, updatingMap);
      updatingMap' := LoopLine(newValue, outerItem, updatingMap, h, v, LoopLayout());
      PassedLinesNext(g, isAlongRow, isIncreasing, baseValue, newValue, rs, outerItem, h, changed, gain);
      MappedLinesNext(LoopLayout(), g, newValue, rs, outerItem, updatingMap, updatingMap');
      changed' := changed || |Pass(v, baseValue, newValue).shifts| > 0;
      gain' := gain + Gain(Tag(outerItem, Pass(v, baseValue, newValue).shifts));
    }

    /** Line `outerItem` of the board (`cells`) is the line `v` swept up to
        distance `c`, and the rest of the board is `h`. */
    ghost predicate SweptTo(newValue: (int, int) -> int, outerItem: int, h: seq<seq<int>>, v: seq<int>, c: int,
                            cells: seq<seq<int>>)
    {
      IsGrid(h) && 0 <= outerItem < OuterCount(h, isAlongRow) && innerCount == |v| == InnerCount(h, isAlongRow)
      && 0 <= c <= |v|
      // stated through a trigger on LineAfter, so that only the loop's own lemmas look inside
      && forall d {:trigger LineAfter(newValue, v, d)} ::
           d == c ==> cells == WithLine(h, isAlongRow, isIncreasing, outerItem, LineAfter(newValue, v, d))
    }

    /** The line once the sweep has processed distances 0 .. c-1. */
    ghost function LineAfter(newValue: (int, int) -> int, v: seq<int>, c: int): seq<int>
      requires 0 <= c <= |v|
    {
      Sweep(v, baseValue, newValue, c).line
    }

    /** The inner loop of Loop over line `outerItem`: `h` is the board apart
        from that line and `v` the line in edge-distance order. */
    method LoopLine(newValue: (int, int) -> int, outerItem: int, updatingMap: map<Element, Element>,
                    ghost h: seq<seq<int>>, ghost v: seq<int>, ghost layout: Layout)
      returns (updatingMap': map<Element, Element>)
      requires Fits() && layout == LoopLayout()
      requires IsGrid(h) && 0 <= outerItem < OuterCount(h, isAlongRow)
      requires innerCount == |v| == InnerCount(h, isAlongRow) > 0
      requires Cells(elements) == WithLine(h, isAlongRow, isIncreasing, outerItem, v)
      requires MappedLine(layout, newValue, outerItem, v, 0, updatingMap, updatingMap)
      modifies elements
      ensures Cells(elements) == WithLine(h, isAlongRow, isIncreasing, outerItem, Pass(v, baseValue, newValue).line)
      ensures MappedLine(layout, newValue, outerItem, v, |v|, updatingMap, updatingMap')
    {
      updatingMap' := updatingMap;
      var innerItem := innerStart;
      ghost var c := 0;
      CursorStart(isIncreasing, innerCount);
      SweptToStart(newValue, outerItem, h, v, Cells(elements));
      while IsInnerCondition(innerItem, innerStart, innerEnd)
        invariant Cursor(isIncreasing, innerCount, innerStart, innerEnd, c, innerItem)
        invariant SweptTo(newValue, outerItem, h, v, c, Cells(elements))
        invariant MappedLine(layout, newValue, outerItem, v, c, updatingMap, updatingMap')
        decreases innerCount - c
      {
        updatingMap' := LoopTile(newValue, outerItem, innerItem, h, v, c, layout, updatingMap, updatingMap');
        CursorNext(isIncreasing, innerCount, innerStart, innerEnd, c, innerItem);
        innerItem := Drop(!isIncreasing, innerItem);
        c := c + 1;
      }
      SweptToEnd(newValue, outerItem, h, v, Cells(elements));
    }

    lemma SweptToStart(newValue: (int, int) -> int, outerItem: int, h: seq<seq<int>>, v: seq<int>,
                       cells: seq<seq<int>>)
      requires IsGrid(h) && 0 <= outerItem < OuterCount(h, isAlongRow) && innerCount == |v| == InnerCount(h, isAlongRow)
      requires cells == WithLine(h, isAlongRow, isIncreasing, outerItem, v)
      ensures SweptTo(newValue, outerItem, h, v, 0, cells)
    {
      assert LineAfter(newValue, v, 0) == v;
    }

    lemma SweptToEnd(newValue: (int, int) -> int, outerItem: int, h: seq<seq<int>>, v: seq<int>,
                     cells: seq<seq<int>>)
      requires SweptTo(newValue, outerItem, h, v, |v|, cells)
      ensures cells == WithLine(h, isAlongRow, isIncreasing, outerItem, Pass(v, baseValue, newValue).line)
    {
      assert cells == WithLine(h, isAlongRow, isIncreasing, outerItem, LineAfter(newValue, v, |v|));
    }

    /** One iteration of the inner loop of Loop: an empty cell is skipped;
        otherwise the tile is probed, moved, and its transition (if any) added. */
    method LoopTile(newValue: (int, int) -> int, outerItem: int, innerItem: int,
                    ghost h: seq<seq<int>>, ghost v: seq<int>, ghost c: int,
                    ghost layout: Layout, ghost m0: map<Element, Element>, updatingMap: map<Element, Element>)
      returns (updatingMap': map<Element, Element>)
      requires Fits() && layout == LoopLayout()
      requires Cursor(isIncreasing, innerCount, innerStart, innerEnd, c, innerItem) && c < innerCount
      requires SweptTo(newValue, outerItem, h, v, c, Cells(elements))
      requires MappedLine(layout, newValue, outerItem, v, c, m0, updatingMap)
      modifies elements
      ensures SweptTo(newValue, outerItem, h, v, c + 1, Cells(elements))
      ensures MappedLine(layout, newValue, outerItem, v, c + 1, m0, updatingMap')
    {
      ghost var line := LineAfter(newValue, v, c);
      assert LineAfter(newValue, v, c + 1) == Step(line, baseValue, newValue, c).line;
      MappedLineNext(layout, newValue, outerItem, v, c, m0, updatingMap);
      updatingMap' := updatingMap;
      AtWithLine(h, isAlongRow, isIncreasing, outerItem, line, c);
      if GetValue(isAlongRow, elements, outerItem, innerItem).Value == baseValue {
        return;
      }
      var newItem := CalculateNewItem(outerItem, innerItem, h, line, c);
      var update := UpdatingElement(newItem, innerItem, outerItem, newValue, h, line, c);
      if update.Some? {
        updatingMap' := updatingMap[update.value.0 := update.value.1];
      }
    }

    /** CalculateNewItem(innerItem, outerItem): the probe of Utils, on this
        loop's line bounds and base value. */
    method CalculateNewItem(outerItem: int, innerItem: int, ghost h: seq<seq<int>>, ghost line: seq<int>, ghost c: int)
      returns (newInnerItem: int)
      requires Fits()
      requires IsGrid(h) && 0 <= outerItem < OuterCount(h, isAlongRow) && innerCount == |line| == InnerCount(h, isAlongRow)
      requires 0 <= c < |line| && innerItem == InnerIndex(isIncreasing, |line|, c)
      requires Cells(elements) == WithLine(h, isAlongRow, isIncreasing, outerItem, line)
      ensures newInnerItem == InnerIndex(isIncreasing, |line|, Probe(line, baseValue, c - 1))
    {
      newInnerItem := Utils.CalculateNewItem(elements, isAlongRow, isIncreasing, innerStart, innerEnd, baseValue,
                                             outerItem, innerItem, h, line, c);
    }

    /** UpdatingElement(newInnerItem, innerItem, outerItem, merge): merges the
        tile into the probed one or stacks it behind, then returns the pair of
        elements read at its old and new cells, or null when it did not move. */
    method UpdatingElement(newInnerItem: int, innerItem: int, outerItem: int, merge: (int, int) -> int,
                           ghost h: seq<seq<int>>, ghost line: seq<int>, ghost c: int)
      returns (update: Option<(Element, Element)>)
      requires Fits()
      requires IsGrid(h) && 0 <= outerItem < OuterCount(h, isAlongRow) && innerCount == |line| == InnerCount(h, isAlongRow)
      requires 0 <= c < |line| && innerItem == InnerIndex(isIncreasing, |line|, c)
      requires Cells(elements) == WithLine(h, isAlongRow, isIncreasing, outerItem, line)
      requires line[c] != baseValue
      requires newInnerItem == InnerIndex(isIncreasing, |line|, Probe(line, baseValue, c - 1))
      modifies elements
      ensures Cells(elements) == WithLine(h, isAlongRow, isIncreasing, outerItem, Step(line, baseValue, merge, c).line)
      ensures update == match Step(line, baseValue, merge, c).shift
                        case None => None
                        case Some(s) => Some((Source(LoopLayout(), Move(outerItem, s)), Target(LoopLayout(), Move(outerItem, s))))
    {
      var landing := MoveTile(elements, isAlongRow, isIncreasing, innerStart, innerEnd, baseValue, merge,
                              outerItem, innerItem, newInnerItem, h, line, c);
      update := None;
      if landing.Some? {
        ghost var st := Step(line, baseValue, merge, c);
        StepVacates(line, baseValue, merge, c);
        update := ReadTransition(outerItem, innerItem, landing.value, h, st.line, st.shift.value);
      }
    }

    /** The pair UpdatingElement returns once a tile has left its cell: the
        elements now read at the vacated cell and at the landing cell. */
    method ReadTransition(outerItem: int, innerItem: int, landing: Landing,
                          ghost h: seq<seq<int>>, ghost line: seq<int>, ghost s: Shift)
      returns (update: Option<(Element, Element)>)
      requires Fits()
      requires IsGrid(h) && 0 <= outerItem < OuterCount(h, isAlongRow) && innerCount == |line| == InnerCount(h, isAlongRow)
      requires 0 <= s.src < |line| && 0 <= s.dst < |line| && line[s.src] == baseValue && line[s.dst] == s.value
      requires innerItem == InnerIndex(isIncreasing, |line|, s.src)
      requires landing == Landing(InnerIndex(isIncreasing, |line|, s.dst), s.value, s.merged)
      requires Cells(elements) == WithLine(h, isAlongRow, isIncreasing, outerItem, line)
      ensures update == Some((Source(LoopLayout(), Move(outerItem, s)), Target(LoopLayout(), Move(outerItem, s))))
    {
      AtWithLine(h, isAlongRow, isIncreasing, outerItem, line, s.src);
      AtWithLine(h, isAlongRow, isIncreasing, outerItem, line, s.dst);
      update := Some((GetValue(isAlongRow, elements, outerItem, innerItem),
                      GetValue(isAlongRow, elements, outerItem, landing.newInnerItem)));
    }
  }
}
