/**
 * The reusable engine (Core.cs): a Height x Width board of ints in which
 * `baseValue` marks an empty cell, a caller-supplied merge function, a score,
 * and the map of transitions of the last sweep.  Random draws are parameters.
 * Accesses the source makes with an index out of range throw there; here they
 * give None.
 */
module Cores {
  import opened Optional
  import opened Compaction
  import opened Elements
  import opened Grid
  import opened Utils
  import opened Transitions

  /** The board after MapperElements(mapper) on a square board g.  ForEach hands
      the mapper the value of the transposed cell, so below the diagonal it sees
      the value it has already written above the diagonal. */
  function Mapped(g: seq<seq<int>>, mapper: Element -> int): (h: seq<seq<int>>)
    requires IsGrid(g) && (|g| == Width(g) || |g| == 0 || Width(g) == 0)
    ensures IsGrid(h) && |h| == |g| && Width(h) == Width(g)
  {
    seq(|g|, r requires 0 <= r < |g| =>
      seq(Width(g), c requires 0 <= c < Width(g) =>
        mapper(Element(r, c, if c < r then mapper(Element(c, r, g[r][c])) else g[c][r]))))
  }

  /** With the identity as mapper, MapperElements does not keep the board: it
      mirrors the lower triangle (row >= column) onto the upper one. */
  lemma MappedIdentityMirrors(g: seq<seq<int>>)
    requires IsGrid(g) && (|g| == Width(g) || |g| == 0 || Width(g) == 0)
    ensures forall r, c :: 0 <= r < |g| && 0 <= c < Width(g) ==>
              Mapped(g, (e: Element) => e.Value)[r][c] == if c < r then g[r][c] else g[c][r]
  {
  }

  /** A concrete board on which the identity mapper loses a tile. */
  lemma MapperIdentityErases()
    ensures Mapped([[0, 2], [0, 0]], (e: Element) => e.Value) == [[0, 0], [0, 0]]
  {
    var h := Mapped([[0, 2], [0, 0]], (e: Element) => e.Value);
    assert h[0] == [0, 0] && h[1] == [0, 0];
  }

  /** MapperElements as evidently intended: the mapper sees each cell's own value. */
  function MappedAsIntended(g: seq<seq<int>>, mapper: Element -> int): (h: seq<seq<int>>)
    requires IsGrid(g)
    ensures IsGrid(h) && |h| == |g| && Width(h) == Width(g)
  {
    seq(|g|, r requires 0 <= r < |g| =>
      seq(Width(g), c requires 0 <= c < Width(g) => mapper(Element(r, c, g[r][c]))))
  }

  /** The intended MapperElements with the identity leaves every board as it is. */
  lemma MappedAsIntendedIdentity(g: seq<seq<int>>)
    requires IsGrid(g)
    ensures MappedAsIntended(g, (e: Element) => e.Value) == g
  {
    var h := MappedAsIntended(g, (e: Element) => e.Value);
    forall r | 0 <= r < |g| ensures h[r] == g[r] {
    }
  }

  /** A mapper that ignores the value it is handed (as the constructor's does)
      gives the same board either way. */
  lemma MappedIgnoringValues(g: seq<seq<int>>, mapper: Element -> int)
    requires IsGrid(g) && (|g| == Width(g) || |g| == 0 || Width(g) == 0)
    requires forall r, c, x, y :: mapper(Element(r, c, x)) == mapper(Element(r, c, y))
    ensures Mapped(g, mapper) == MappedAsIntended(g, mapper)
  {
    var h := Mapped(g, mapper);
    var h' := MappedAsIntended(g, mapper);
    forall r | 0 <= r < |g| ensures h[r] == h'[r] {
    }
  }

  /** The elements ForEach hands its action in row r, columns 0 .. c-1. */
  function VisitIn(g: seq<seq<int>>, r: int, c: int): (s: seq<Element>)
    requires IsGrid(g) && (|g| == Width(g) || |g| == 0 || Width(g) == 0)
    requires 0 <= r < |g| && 0 <= c <= Width(g)
    ensures |s| == c
    decreases c
  {
    if c == 0 then [] else VisitIn(g, r, c - 1) + [Element(r, c - 1, g[c - 1][r])]
  }

  /** The elements ForEach hands its action in rows 0 .. r-1. */
  function VisitRows(g: seq<seq<int>>, r: int): (s: seq<Element>)
    requires IsGrid(g) && (|g| == Width(g) || |g| == 0 || Width(g) == 0)
    requires 0 <= r <= |g|
    decreases r
  {
    if r == 0 then [] else VisitRows(g, r - 1) + VisitIn(g, r - 1, Width(g))
  }

  /** The cell an element names. */
  function CellOf(e: Element): (int, int)
  {
    (e.Row, e.Column)
  }

  /** ForEach hands its action every cell exactly once, row by row, and the
      element for cell (r, c) carries the value of cell (c, r). */
  lemma ForEachExact(g: seq<seq<int>>)
    requires IsGrid(g) && (|g| == Width(g) || |g| == 0 || Width(g) == 0)
    ensures |VisitRows(g, |g|)| == |g| * Width(g)
    ensures forall e :: e in VisitRows(g, |g|) <==>
              0 <= e.Row < |g| && 0 <= e.Column < Width(g) && e.Value == g[e.Column][e.Row]
    ensures forall k, k' :: 0 <= k < k' < |VisitRows(g, |g|)| ==>
              RowMajorBefore(CellOf(VisitRows(g, |g|)[k]), CellOf(VisitRows(g, |g|)[k']))
  {
    var s := VisitRows(g, |g|);
    VisitRowsSize(g, |g|);
    forall e: Element | e in s ensures 0 <= e.Row < |g| && 0 <= e.Column < Width(g) && e.Value == g[e.Column][e.Row] {
      var k :| 0 <= k < |s| && s[k] == e;
      VisitRowsSound(g, |g|, k);
    }
    forall e: Element | 0 <= e.Row < |g| && 0 <= e.Column < Width(g) && e.Value == g[e.Column][e.Row] ensures e in s {
      var k := VisitRowsComplete(g, |g|, e.Row, e.Column);
    }
    VisitRowsOrdered(g, |g|);
  }

  /** Element j of row r's visits is cell (r, j) with the value of cell (j, r). */
  lemma {:induction false} VisitInAt(g: seq<seq<int>>, r: int, c: int, j: int)
    requires IsGrid(g) && (|g| == Width(g) || |g| == 0 || Width(g) == 0)
    requires 0 <= r < |g| && 0 <= j < c <= Width(g)
    ensures VisitIn(g, r, c)[j] == Element(r, j, g[j][r])
  {
    if j < c - 1 {
      assert VisitIn(g, r, c)[j] == VisitIn(g, r, c - 1)[j];
      VisitInAt(g, r, c - 1, j);
    }
  }

  lemma {:induction false} VisitRowsSize(g: seq<seq<int>>, r: int)
    requires IsGrid(g) && (|g| == Width(g) || |g| == 0 || Width(g) == 0)
    requires 0 <= r <= |g|
    ensures |VisitRows(g, r)| == r * Width(g)
  {
    if r > 0 {
      VisitRowsSize(g, r - 1);
    }
  }

  /** Every visit of rows 0 .. r-1 is a cell of those rows carrying the transposed value. */
  lemma {:induction false} VisitRowsSound(g: seq<seq<int>>, r: int, k: int)
    requires IsGrid(g) && (|g| == Width(g) || |g| == 0 || Width(g) == 0)
    requires 0 <= r <= |g| && 0 <= k < |VisitRows(g, r)|
    ensures 0 <= VisitRows(g, r)[k].Row < r && 0 <= VisitRows(g, r)[k].Column < Width(g)
    ensures VisitRows(g, r)[k].Value == g[VisitRows(g, r)[k].Column][VisitRows(g, r)[k].Row]
  {
    var a := VisitRows(g, r - 1);
    var b := VisitIn(g, r - 1, Width(g));
    assert VisitRows(g, r) == a + b;
    if k < |a| {
      assert (a + b)[k] == a[k];
      VisitRowsSound(g, r - 1, k);
    } else {
      assert (a + b)[k] == b[k - |a|];
      VisitInAt(g, r - 1, Width(g), k - |a|);
    }
  }

  /** Every cell of rows 0 .. r-1 is visited, at index k. */
  lemma {:induction false} VisitRowsComplete(g: seq<seq<int>>, r: int, i: int, j: int) returns (k: nat)
    requires IsGrid(g) && (|g| == Width(g) || |g| == 0 || Width(g) == 0)
    requires 0 <= i < r <= |g| && 0 <= j < Width(g)
    ensures k < |VisitRows(g, r)| && VisitRows(g, r)[k] == Element(i, j, g[j][i])
  {
    var a := VisitRows(g, r - 1);
    var b := VisitIn(g, r - 1, Width(g));
    assert VisitRows(g, r) == a + b;
    if i == r - 1 {
      k := |a| + j;
      VisitInAt(g, i, Width(g), j);
      assert (a + b)[k] == b[j];
    } else {
      k := VisitRowsComplete(g, r - 1, i, j);
      assert (a + b)[k] == a[k];
    }
  }

  /** The visits come in row-major order. */
  lemma {:induction false} VisitRowsOrdered(g: seq<seq<int>>, r: int)
    requires IsGrid(g) && (|g| == Width(g) || |g| == 0 || Width(g) == 0)
    requires 0 <= r <= |g|
    ensures forall k, k' :: 0 <= k < k' < |VisitRows(g, r)| ==>
              RowMajorBefore(CellOf(VisitRows(g, r)[k]), CellOf(VisitRows(g, r)[k']))
  {
    if r > 0 {
      var a := VisitRows(g, r - 1);
      var b := VisitIn(g, r - 1, Width(g));
      assert VisitRows(g, r) == a + b;
      VisitRowsOrdered(g, r - 1);
      var s := a + b;
      forall k, k' | 0 <= k < k' < |s| ensures RowMajorBefore(CellOf(s[k]), CellOf(s[k'])) {
        if k' < |a| {
          assert (a + b)[k] == a[k] && (a + b)[k'] == a[k'];
        } else if k < |a| {
          assert (a + b)[k] == a[k] && (a + b)[k'] == b[k' - |a|];
          VisitRowsSound(g, r - 1, k);
          VisitInAt(g, r - 1, Width(g), k' - |a|);
        } else {
          assert (a + b)[k] == b[k - |a|] && (a + b)[k'] == b[k' - |a|];
          VisitInAt(g, r - 1, Width(g), k - |a|);
          VisitInAt(g, r - 1, Width(g), k' - |a|);
        }
      }
    }
  }

  /** Cell (r, c) differs from its right and its lower neighbour, where those exist. */
  ghost predicate PairOk(g: seq<seq<int>>, r: int, c: int)
    requires IsGrid(g) && 0 <= r < |g| && 0 <= c < Width(g)
  {
    (c < Width(g) - 1 ==> g[r][c] != g[r][c + 1]) && (r < |g| - 1 ==> g[r][c] != g[r + 1][c])
  }

  /** Every cell before (row, column) in row-major order passes PairOk. */
  ghost predicate CheckedBefore(g: seq<seq<int>>, row: int, column: int)
    requires IsGrid(g)
  {
    forall r, c :: 0 <= r < |g| && 0 <= c < Width(g) && (r < row || (r == row && c < column)) ==>
      PairOk(g, r, c)
  }

  /** Checking every cell's right and lower neighbour is checking every row
      and every column for equal neighbours. */
  lemma CheckedAll(g: seq<seq<int>>)
    requires IsGrid(g)
    ensures CheckedBefore(g, |g|, 0) <==> RowsDistinct(g) && ColumnsDistinct(g)
  {
    if CheckedBefore(g, |g|, 0) {
      forall r | 0 <= r < |g| ensures NoEqualNeighbours(g[r], Width(g)) {
        forall k | 0 < k < Width(g) ensures g[r][k - 1] != g[r][k] {
          assert PairOk(g, r, k - 1);
        }
      }
      forall c | 0 <= c < Width(g) ensures NoEqualNeighbours(Column(g, c), |g|) {
        forall k | 0 < k < |g| ensures g[k - 1][c] != g[k][c] {
          assert PairOk(g, k - 1, c);
        }
      }
    }
    if RowsDistinct(g) && ColumnsDistinct(g) {
      forall r, c | 0 <= r < |g| && 0 <= c < Width(g) ensures PairOk(g, r, c) {
        if c < Width(g) - 1 {
          assert NoEqualNeighbours(g[r], Width(g));
        }
        if r < |g| - 1 {
          assert NoEqualNeighbours(Column(g, c), |g|);
          assert Column(g, c)[r] == g[r][c] && Column(g, c)[r + 1] == g[r + 1][c];
        }
      }
    }
  }

  class Core {
    const Width: int
    const Height: int
    var HasUpdated: bool
    var Score: int
    /** null until the first UpdateElements. */
    var UpdatingMap: Option<map<Element, Element>>
    var ChanceBetterValue: int
    var StandardNewValue: int
    var BetterNewValue: int
    const elements: array2<int>
    const baseValue: int
    const mergeElements: (int, int) -> int

    /** The array is Height x Width, and square unless it has no cells: the
        constructor's ForEach reads index [column, row] of every cell. */
    ghost predicate Valid()
    {
      elements.Length0 == Height && elements.Length1 == Width
      && (Height == Width || Height == 0 || Width == 0)
    }

    /** Core(width, height, startScore, baseValue, mergeElements): a board of
        empty cells.  new int[height, width] throws for a negative size, and the
        constructor's MapperElements throws for a board that is not square. */
    constructor(width: int, height: int, startScore: Option<int>, baseValue: Option<int>,
                mergeElements: (int, int) -> int)
      requires 0 <= width && 0 <= height
      requires height == width || height == 0 || width == 0
      ensures Valid() && fresh(elements)
      ensures Width == width && Height == height
      ensures Score == (if startScore.Some? then startScore.value else 0)
      ensures this.baseValue == (if baseValue.Some? then baseValue.value else 0)
      ensures this.mergeElements == mergeElements
      ensures !HasUpdated && UpdatingMap == None
      ensures ChanceBetterValue == 95 && StandardNewValue == 2 && BetterNewValue == 4
      ensures forall r, c :: 0 <= r < height && 0 <= c < width ==> Cells(elements)[r][c] == this.baseValue
    {
      Width := width;
      Height := height;
      Score := if startScore.Some? then startScore.value else 0;
      elements := new int[height, width];
      this.baseValue := if baseValue.Some? then baseValue.value else 0;
      this.mergeElements := mergeElements;
      HasUpdated := false;
      UpdatingMap := None;
      ChanceBetterValue := 95;
      StandardNewValue := 2;
      BetterNewValue := 4;
      new;
      var empty := this.baseValue;
      MapperElements(element => empty);
    }

    /** GetValue(row, column): the cell's value; None where the index is out of range. */
    function GetValue(row: int, column: int): (v: Option<int>)
      reads elements
      requires Valid()
      ensures v.Some? <==> 0 <= row < Height && 0 <= column < Width
      ensures v.Some? ==> v.value == Cells(elements)[row][column]
    {
      if 0 <= row < elements.Length0 && 0 <= column < elements.Length1 then Some(elements[row, column]) else None
    }

    /** CheckIfEmpty(row, column): whether the cell holds the empty value. */
    function CheckIfEmpty(row: int, column: int): (b: Option<bool>)
      reads elements
      requires Valid()
      ensures b.Some? <==> GetValue(row, column).Some?
      ensures b == Some(true) <==> GetValue(row, column) == Some(baseValue)
    {
      match GetValue(row, column)
      case None => None
      case Some(v) => Some(v == baseValue)
    }

    /** Include(element): whether the board holds the element's value at its cell. */
    function Include(element: Element): (b: Option<bool>)
      reads elements
      requires Valid()
      ensures b.Some? <==> GetValue(element.Row, element.Column).Some?
      ensures b == Some(true) <==> GetValue(element.Row, element.Column) == Some(element.Value)
    {
      if 0 <= element.Row < elements.Length0 && 0 <= element.Column < elements.Length1
      then Some(elements[element.Row, element.Column] == element.Value)
      else None
    }

    /** SetValue(element): writes the element's value into its cell and returns
        the element; afterwards the board includes it and nothing else changed. */
    method SetValue(element: Element) returns (result: Option<Element>)
      requires Valid()
      modifies elements
      ensures result.Some? <==> 0 <= element.Row < Height && 0 <= element.Column < Width
      ensures result.Some? ==> result.value == element
      ensures result.Some? ==>
                Cells(elements) == Put(old(Cells(elements)), element.Row, element.Column, element.Value)
      ensures result.None? ==> Cells(elements) == old(Cells(elements))
      ensures result.Some? ==> Include(element) == Some(true)
    {
      if !(0 <= element.Row < elements.Length0 && 0 <= element.Column < elements.Length1) {
        return None;
      }
      ghost var before := Cells(elements);
      elements[element.Row, element.Column] := element.Value;
      forall r | 0 <= r < Height
        ensures Cells(elements)[r] == Put(before, element.Row, element.Column, element.Value)[r]
      {
      }
      result := Some(element);
    }

    /** ForEach, with an action that only reads: the elements it hands the
        action, row by row.  Element (row, column) carries the value of cell
        (column, row). */
    method ForEach() returns (visited: seq<Element>)
      requires Valid()
      ensures visited == VisitRows(Cells(elements), Height)
    {
      ghost var g := Cells(elements);
      visited := [];
      for row := 0 to Height
        invariant visited == VisitRows(g, row)
      {
        for column := 0 to Width
          invariant visited == VisitRows(g, row) + VisitIn(g, row, column)
        {
          var value := GetValue(column, row);
          visited := visited + [Element(row, column, value.value)];
        }
      }
    }

    /** MapperElements(mapper): ForEach with an action that writes
        mapper(element) into the element's own cell. */
    method MapperElements(mapper: Element -> int)
      requires Valid()
      modifies elements
      ensures Cells(elements) == Mapped(old(Cells(elements)), mapper)
    {
      ghost var g := Cells(elements);
      ghost var h := Mapped(g, mapper);
      for row := 0 to Height
        invariant forall r, c :: 0 <= r < Height && 0 <= c < Width ==>
                    elements[r, c] == if r < row then h[r][c] else g[r][c]
      {
        for column := 0 to Width
          invariant forall r, c :: 0 <= r < Height && 0 <= c < Width ==>
                      elements[r, c] == if r < row || (r == row && c < column) then h[r][c] else g[r][c]
        {
          var element := Element(row, column, elements[column, row]);
          elements[row, column] := mapper(element);
        }
      }
      forall r | 0 <= r < Height ensures Cells(elements)[r] == h[r] {
      }
    }

    /** IsGameOver as written: the first test guards on the row but reads the
        next column, the second guards on the column but reads the next row.
        At row 0, column Width - 1 of a board of side 2 or more the read is out
        of range and the call throws; on smaller boards nothing is compared. */
    method IsGameOver() returns (result: Option<bool>)
      requires Valid()
      ensures result.None? <==> Height >= 2 && Width >= 2
      ensures result.Some? ==> result.value
    {
      var over := true;
      for row := 0 to Height
        invariant Height >= 2 && Width >= 2 ==> row == 0
        invariant !(Height >= 2 && Width >= 2) ==> over
      {
        for column := 0 to Width
          invariant Height >= 2 && Width >= 2 ==> row == 0 && column < Width
          invariant !(Height >= 2 && Width >= 2) ==> over
        {
          var element := Element(row, column, GetValue(column, row).value);
          if element.Row < Height - 1 {
            var here := GetValue(element.Row, element.Column);
            var next := GetValue(element.Row, element.Column + 1);
            if next.None? {
              return None;
            }
            if here == next {
              over := false;
            }
          }
          if element.Column < Width - 1 {
            var here := GetValue(element.Row, element.Column);
            var next := GetValue(element.Row + 1, element.Column);
            if next.None? {
              return None;
            }
            if here == next {
              over := false;
            }
          }
        }
      }
      return Some(over);
    }

    /** IsGameOver as evidently intended: the right neighbour is compared while
        the column is not the last, the lower one while the row is not the last.
        The result is false exactly when two neighbouring cells are equal. */
    method IsGameOverAsIntended() returns (result: bool)
      requires Valid()
      ensures result <==> RowsDistinct(Cells(elements)) && ColumnsDistinct(Cells(elements))
    {
      ghost var g := Cells(elements);
      result := true;
      for row := 0 to Height
        invariant result <==> CheckedBefore(g, row, 0)
      {
        for column := 0 to Width
          invariant result <==> CheckedBefore(g, row, column)
        {
          if column < Width - 1 && GetValue(row, column) == GetValue(row, column + 1) {
            result := false;
          }
          if row < Height - 1 && GetValue(row, column) == GetValue(row + 1, column) {
            result := false;
          }
          assert result <==> CheckedBefore(g, row, column) && PairOk(g, row, column);
        }
      }
      CheckedAll(g);
    }

    /** NewElement: lists the empty cells row by row and picks the one at
        `index` (random.Next(0, count): below count, or 0 when count is 0) with
        the standard value when `roll` (random.Next(0, 100)) is below
        ChanceBetterValue, else the better value.  On a full board the list
        index is out of range: None. */
    method NewElement(index: int, roll: int) returns (element: Option<Element>)
      requires Valid()
      requires 0 <= index < |EmptySlots(Cells(elements), baseValue)| || index == 0
      ensures element.None? <==> |EmptySlots(Cells(elements), baseValue)| == 0
      ensures element.Some? ==>
                element.value.Row == EmptySlots(Cells(elements), baseValue)[index].0 &&
                element.value.Column == EmptySlots(Cells(elements), baseValue)[index].1 &&
                element.value.Value == if roll < ChanceBetterValue then StandardNewValue else BetterNewValue
      ensures element.Some? ==> CheckIfEmpty(element.value.Row, element.value.Column) == Some(true)
    {
      var empties := EmptyCells();
      if index >= |empties| {
        return None;
      }
      EmptySlotsExact(Cells(elements), baseValue);
      assert empties[index] in EmptySlots(Cells(elements), baseValue);
      var value := if roll < ChanceBetterValue then StandardNewValue else BetterNewValue;
      var (randomRow, randomColumn) := empties[index];
      element := Some(Element(randomRow, randomColumn, value));
    }

    /** The list NewElement builds before it picks: the cells CheckIfEmpty
        accepts, row by row. */
    method EmptyCells() returns (empties: seq<(int, int)>)
      requires Valid()
      ensures empties == EmptySlots(Cells(elements), baseValue)
    {
      ghost var g := Cells(elements);
      empties := [];
      for row := 0 to Height
        invariant empties == EmptyRows(g, baseValue, row)
      {
        for column := 0 to Width
          invariant empties == EmptyRows(g, baseValue, row) + EmptyIn(g, baseValue, row, column)
        {
          if CheckIfEmpty(row, column) == Some(true) {
            empties := empties + [(row, column)];
          }
        }
      }
    }

    /** Core's GetValueFactory: the element at inner index `innerItem` of line
        `outerItem`, labelled with its own row and column. */
    function GetValueAt(isAlongRow: bool, outerItem: int, innerItem: int): (e: Element)
      reads elements
      requires OnBoard(isAlongRow, elements, outerItem, innerItem)
      ensures (e.Row, e.Column) == Position(isAlongRow, outerItem, innerItem)
      ensures e.Value == At(Cells(elements), isAlongRow, outerItem, innerItem)
    {
      if isAlongRow then Element(outerItem, innerItem, elements[outerItem, innerItem])
      else Element(innerItem, outerItem, elements[innerItem, outerItem])
    }

    /** UpdateElements(isAlongRow, isIncreasing): sweeps every line toward its
        start (isIncreasing) or its end, merging equal tiles with mergeElements.
        HasUpdated says whether anything moved, Score grows by the merged
        values, and UpdatingMap maps each vacated cell to where its tile went. */
    method UpdateElements(isAlongRow: bool, isIncreasing: bool)
      requires Valid() && Sweepable(Height, Width)
      modifies this`HasUpdated, this`Score, this`UpdatingMap, elements
      ensures Cells(elements) == PassGrid(old(Cells(elements)), isAlongRow, isIncreasing, baseValue, mergeElements)
      ensures Score == old(Score) + Gain(Moves(old(Cells(elements)), isAlongRow, isIncreasing, baseValue, mergeElements))
      ensures HasUpdated <==> Moves(old(Cells(elements)), isAlongRow, isIncreasing, baseValue, mergeElements) != []
      ensures UpdatingMap == Some(TransitionMap(
                Layout(RowColumn, isAlongRow, isIncreasing, InnerCount(old(Cells(elements)), isAlongRow), baseValue),
                Moves(old(Cells(elements)), isAlongRow, isIncreasing, baseValue, mergeElements)))
    {
      var outerCount := if isAlongRow then Height else Width;
      var innerCount := if isAlongRow then Width else Height;
      var innerStart := if isIncreasing then 0 else innerCount - 1;
      var innerEnd := if isIncreasing then innerCount - 1 else 0;
      HasUpdated := false;
      ghost var g := Cells(elements);
      ghost var score0 := Score;
      ghost var layout := Layout(RowColumn, isAlongRow, isIncreasing, innerCount, baseValue);
      ghost var rs := LinePassesExist(g, isAlongRow, isIncreasing, baseValue, mergeElements);
      var updatingMap := UpdateLines(isAlongRow, isIncreasing, outerCount, innerCount, innerStart, innerEnd,
                                     g, rs, score0, layout);
      PassedLinesEnd(g, isAlongRow, isIncreasing, baseValue, mergeElements, rs, Cells(elements), HasUpdated,
                     Score - score0);
      MappedLinesEnd(layout, g, mergeElements, rs, updatingMap);
      UpdatingMap := Some(updatingMap);
    }

    /** The outer loop of UpdateElements, from a board `g` with nothing swept
        yet, whose line passes are `rs`. */
    method UpdateLines(isAlongRow: bool, isIncreasing: bool, outerCount: int, innerCount: int,
                       innerStart: int, innerEnd: int, ghost g: seq<seq<int>>, ghost rs: seq<LinePass>,
                       ghost score0: int, ghost layout: Layout)
      returns (updatingMap: map<Element, Element>)
      requires Valid() && Sweepable(Height, Width)
      requires g == Cells(elements) && !HasUpdated && Score == score0
      requires LinePasses(g, isAlongRow, isIncreasing, baseValue, mergeElements, rs)
      requires outerCount == (if isAlongRow then Height else Width) && innerCount == (if isAlongRow then Width else Height)
      requires innerStart == InnerStart(isIncreasing, innerCount) && innerEnd == InnerEnd(isIncreasing, innerCount)
      requires layout == Layout(RowColumn, isAlongRow, isIncreasing, innerCount, baseValue)
      modifies this`HasUpdated, this`Score, elements
      ensures PassedLines(g, isAlongRow, isIncreasing, baseValue, mergeElements, rs, |rs|,
                          Cells(elements), HasUpdated, Score - score0)
      ensures MappedLines(layout, rs, |rs|, updatingMap)
    {
      updatingMap := map[];
      assert outerCount == |rs| && innerCount == InnerCount(g, isAlongRow);
      PassedLinesStart(g, isAlongRow, isIncreasing, baseValue, mergeElements, rs);
      MappedLinesStart(layout, rs);
      for outerItem := 0 to outerCount
        invariant PassedLines(g, isAlongRow, isIncreasing, baseValue, mergeElements, rs, outerItem, Cells(elements),
                              HasUpdated, Score - score0)
        invariant MappedLines(layout, rs, outerItem, updatingMap)
      {
        updatingMap := UpdateLine(isAlongRow, isIncreasing, innerCount, innerStart, innerEnd, outerItem,
                                  updatingMap, g, rs, score0, layout);
      }
    }

    /** One iteration of the outer loop of UpdateElements: line `outerItem`,
        whose predecessors are already swept, is swept in turn. */
    method UpdateLine(isAlongRow: bool, isIncreasing: bool, innerCount: int, innerStart: int, innerEnd: int,
                      outerItem: int, updatingMap: map<Element, Element>,
                      ghost g: seq<seq<int>>, ghost rs: seq<LinePass>, ghost score0: int, ghost layout: Layout)
      returns (updatingMap': map<Element, Element>)
      requires LinePasses(g, isAlongRow, isIncreasing, baseValue, mergeElements, rs)
      requires PassedLines(g, isAlongRow, isIncreasing, baseValue, mergeElements, rs, outerItem, Cells(elements),
                           HasUpdated, Score - score0)
      requires MappedLines(layout, rs, outerItem, updatingMap)
      requires layout == Layout(RowColumn, isAlongRow, isIncreasing, innerCount, baseValue)
      requires outerItem < |rs| && innerCount == InnerCount(g, isAlongRow) > 0
      requires innerStart == InnerStart(isIncreasing, innerCount) && innerEnd == InnerEnd(isIncreasing, innerCount)
      modifies this`HasUpdated, this`Score, elements
      ensures PassedLines(g, isAlongRow, isIncreasing, baseValue, mergeElements, rs, outerItem + 1, Cells(elements),
                          HasUpdated, Score - score0)
      ensures MappedLines(layout, rs, outerItem + 1, updatingMap')
    {
      ghost var v := LineOf(g, isAlongRow, isIncreasing, outerItem);
      ghost var h := Cells(elements);
      ghost var hasUpdated0 := HasUpdated;
      ghost var gain0 := Score - score0;
      WithLineStart(g, isAlongRow, isIncreasing, baseValue, mergeElements, outerItem);
      MappedLineStart(layout, mergeElements, outerItem, v, updatingMap);
      updatingMap' := SweepLine(isAlongRow, isIncreasing, innerCount, innerStart, innerEnd, outerItem,
                                updatingMap, h, v, layout);
      PassedLinesNext(g, isAlongRow, isIncreasing, baseValue, mergeElements, rs, outerItem, h, hasUpdated0, gain0);
      MappedLinesNext(layout, g, mergeElements, rs, outerItem, updatingMap, updatingMap');
    }

    /** The inner loop of UpdateElements over line `outerItem`: `h` is the board
        apart from that line and `v` the line in edge-distance order. */
    method SweepLine(isAlongRow: bool, isIncreasing: bool, innerCount: int, innerStart: int, innerEnd: int,
                     outerItem: int, updatingMap: map<Element, Element>,
                     ghost h: seq<seq<int>>, ghost v: seq<int>, ghost layout: Layout)
      returns (updatingMap': map<Element, Element>)
      requires IsGrid(h) && 0 <= outerItem < OuterCount(h, isAlongRow)
      requires innerCount == |v| == InnerCount(h, isAlongRow) > 0
      requires innerStart == InnerStart(isIncreasing, innerCount) && innerEnd == InnerEnd(isIncreasing, innerCount)
      requires Cells(elements) == WithLine(h, isAlongRow, isIncreasing, outerItem, v)
      requires layout == Layout(RowColumn, isAlongRow, isIncreasing, innerCount, baseValue)
      requires MappedLine(layout, mergeElements, outerItem, v, 0, updatingMap, updatingMap)
      modifies this`HasUpdated, this`Score, elements
      ensures Cells(elements) == WithLine(h, isAlongRow, isIncreasing, outerItem, Pass(v, baseValue, mergeElements).line)
      ensures HasUpdated == (old(HasUpdated) || |Pass(v, baseValue, mergeElements).shifts| > 0)
      ensures Score == old(Score) + Gain(Tag(outerItem, Pass(v, baseValue, mergeElements).shifts))
      ensures MappedLine(layout, mergeElements, outerItem, v, |v|, updatingMap, updatingMap')
    {
      ghost var hasUpdated0 := HasUpdated;
      ghost var score0 := Score;
      updatingMap' := updatingMap;
      var innerItem := innerStart;
      ghost var c := 0;
      CursorStart(isIncreasing, innerCount);
      SweptLineStart(h, isAlongRow, isIncreasing, baseValue, mergeElements, outerItem, v, hasUpdated0, score0);
      while IsInnerCondition(innerItem, innerStart, innerEnd)
        invariant Cursor(isIncreasing, innerCount, innerStart, innerEnd, c, innerItem)
        invariant SweptLine(h, isAlongRow, isIncreasing, baseValue, mergeElements, outerItem, v, c, Cells(elements),
                            hasUpdated0, HasUpdated, score0, Score)
        invariant MappedLine(layout, mergeElements, outerItem, v, c, updatingMap, updatingMap')
        decreases innerCount - c
      {
        updatingMap' := SweepTile(isAlongRow, isIncreasing, innerCount, innerStart, innerEnd, outerItem, innerItem,
                                  h, v, c, hasUpdated0, score0, layout, updatingMap, updatingMap');
        CursorNext(isIncreasing, innerCount, innerStart, innerEnd, c, innerItem);
        innerItem := Drop(!isIncreasing, innerItem);
        c := c + 1;
      }
      SweptLineEnd(h, isAlongRow, isIncreasing, baseValue, mergeElements, outerItem, v, Cells(elements),
                   hasUpdated0, HasUpdated, score0, Score);
    }

    /** One iteration of the inner loop, as a step of the sweep of the line. */
    method SweepTile(isAlongRow: bool, isIncreasing: bool, innerCount: int, innerStart: int, innerEnd: int,
                     outerItem: int, innerItem: int,
                     ghost h: seq<seq<int>>, ghost v: seq<int>, ghost c: int, ghost hasUpdated0: bool,
                     ghost score0: int, ghost layout: Layout, ghost m0: map<Element, Element>,
                     updatingMap: map<Element, Element>)
      returns (updatingMap': map<Element, Element>)
      requires SweptLine(h, isAlongRow, isIncreasing, baseValue, mergeElements, outerItem, v, c, Cells(elements),
                         hasUpdated0, HasUpdated, score0, Score)
      requires MappedLine(layout, mergeElements, outerItem, v, c, m0, updatingMap)
      requires layout == Layout(RowColumn, isAlongRow, isIncreasing, innerCount, baseValue)
      requires innerCount == |v| && c < innerCount && innerItem == InnerIndex(isIncreasing, innerCount, c)
      requires innerStart == InnerStart(isIncreasing, innerCount) && innerEnd == InnerEnd(isIncreasing, innerCount)
      modifies this`HasUpdated, this`Score, elements
      ensures SweptLine(h, isAlongRow, isIncreasing, baseValue, mergeElements, outerItem, v, c + 1, Cells(elements),
                        hasUpdated0, HasUpdated, score0, Score)
      ensures MappedLine(layout, mergeElements, outerItem, v, c + 1, m0, updatingMap')
    {
      ghost var cells := Cells(elements);
      ghost var hasUpdated := HasUpdated;
      ghost var score := Score;
      ghost var line := Sweep(v, baseValue, mergeElements, c).line;
      ghost var st := Step(line, baseValue, mergeElements, c).shift;
      MappedLineNext(layout, mergeElements, outerItem, v, c, m0, updatingMap);
      updatingMap' := UpdateTile(isAlongRow, isIncreasing, innerCount, innerStart, innerEnd, outerItem, innerItem,
                                 h, line, c, layout, updatingMap);
      SweptLineNext(h, isAlongRow, isIncreasing, baseValue, mergeElements, outerItem, v, c, cells,
                    hasUpdated0, hasUpdated, score0, score, Cells(elements), st.Some?,
                    if st.Some? && st.value.merged then st.value.value else 0);
    }

    /** The body of the inner loop: the tile at distance c (inner index
        `innerItem`) is skipped when empty, and otherwise probed toward the edge
        and merged or stacked; a tile that left its cell adds an entry to the map. */
    method UpdateTile(isAlongRow: bool, isIncreasing: bool, innerCount: int, innerStart: int, innerEnd: int,
                      outerItem: int, innerItem: int,
                      ghost h: seq<seq<int>>, ghost line: seq<int>, ghost c: int, ghost layout: Layout,
                      updatingMap: map<Element, Element>)
      returns (updatingMap': map<Element, Element>)
      requires IsGrid(h) && 0 <= outerItem < OuterCount(h, isAlongRow)
      requires innerCount == |line| == InnerCount(h, isAlongRow)
      requires innerStart == InnerStart(isIncreasing, innerCount) && innerEnd == InnerEnd(isIncreasing, innerCount)
      requires 0 <= c < innerCount && innerItem == InnerIndex(isIncreasing, innerCount, c)
      requires Cells(elements) == WithLine(h, isAlongRow, isIncreasing, outerItem, line)
      requires layout == Layout(RowColumn, isAlongRow, isIncreasing, innerCount, baseValue)
      requires Step(line, baseValue, mergeElements, c).shift.Some? ==>
                 Source(layout, Move(outerItem, Step(line, baseValue, mergeElements, c).shift.value)) !in updatingMap
      modifies this`HasUpdated, this`Score, elements
      ensures Cells(elements) == WithLine(h, isAlongRow, isIncreasing, outerItem, Step(line, baseValue, mergeElements, c).line)
      ensures HasUpdated == (old(HasUpdated) || Step(line, baseValue, mergeElements, c).shift.Some?)
      ensures Score == old(Score) + (if Step(line, baseValue, mergeElements, c).shift.Some?
                                        && Step(line, baseValue, mergeElements, c).shift.value.merged
                                     then Step(line, baseValue, mergeElements, c).shift.value.value else 0)
      ensures updatingMap' == match Step(line, baseValue, mergeElements, c).shift
                              case None => updatingMap
                              case Some(s) => updatingMap[Source(layout, Move(outerItem, s)) := Target(layout, Move(outerItem, s))]
    {
      updatingMap' := updatingMap;
      AtWithLine(h, isAlongRow, isIncreasing, outerItem, line, c);
      if GetValueAt(isAlongRow, outerItem, innerItem).Value == baseValue {
        return;
      }
      var newInnerItem := CalculateNewItem(elements, isAlongRow, isIncreasing, innerStart, innerEnd, baseValue,
                                           outerItem, innerItem, h, line, c);
      var landing := MoveTile(elements, isAlongRow, isIncreasing, innerStart, innerEnd, baseValue, mergeElements,
                              outerItem, innerItem, newInnerItem, h, line, c);
      if landing.Some? {
        ghost var st := Step(line, baseValue, mergeElements, c);
        StepVacates(line, baseValue, mergeElements, c);
        updatingMap' := RecordTransition(isAlongRow, isIncreasing, outerItem, innerItem, landing.value,
                                         h, st.line, st.shift.value, layout, updatingMap);
      }
    }

    /** What UpdateElements does once a tile has left its cell: it sets
        HasUpdated, adds the element now read at the vacated cell as a key
        mapped to the element read at the landing cell, and adds a merged value
        to Score.  `line` is the line after the step and `s` its transition. */
    method RecordTransition(isAlongRow: bool, isIncreasing: bool, outerItem: int, innerItem: int, landing: Landing,
                            ghost h: seq<seq<int>>, ghost line: seq<int>, ghost s: Shift, ghost layout: Layout,
                            updatingMap: map<Element, Element>)
      returns (updatingMap': map<Element, Element>)
      requires IsGrid(h) && 0 <= outerItem < OuterCount(h, isAlongRow) && |line| == InnerCount(h, isAlongRow)
      requires layout == Layout(RowColumn, isAlongRow, isIncreasing, |line|, baseValue)
      requires 0 <= s.src < |line| && 0 <= s.dst < |line| && line[s.src] == baseValue && line[s.dst] == s.value
      requires innerItem == InnerIndex(isIncreasing, |line|, s.src)
      requires landing == Landing(InnerIndex(isIncreasing, |line|, s.dst), s.value, s.merged)
      requires Cells(elements) == WithLine(h, isAlongRow, isIncreasing, outerItem, line)
      requires Source(layout, Move(outerItem, s)) !in updatingMap
      modifies this`HasUpdated, this`Score
      ensures HasUpdated && Score == old(Score) + (if s.merged then s.value else 0)
      ensures updatingMap' == updatingMap[Source(layout, Move(outerItem, s)) := Target(layout, Move(outerItem, s))]
    {
      AtWithLine(h, isAlongRow, isIncreasing, outerItem, line, s.src);
      AtWithLine(h, isAlongRow, isIncreasing, outerItem, line, s.dst);
      HasUpdated := true;
      var key := GetValueAt(isAlongRow, outerItem, innerItem);
      var value := GetValueAt(isAlongRow, outerItem, landing.newInnerItem);
      updatingMap' := updatingMap[key := value];
      if landing.merged {
        Score := Score + landing.value;
      }
    }
  }
}
