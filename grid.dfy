/**
 * The whole-board view of one sweep: which cells form the lines for a
 * direction, the board after a pass, the transitions it records, and what the
 * pass conserves.
 *
 * A board snapshot is a sequence of rows.  For a direction the sweep works on
 * `OuterCount` lines (the rows when moving along a row, else the columns), each
 * `InnerCount` cells long, and reads line `o` in edge-distance order through
 * `InnerIndex`, so that every lemma of module Compaction applies to each line.
 */
module Grid {
  import opened Optional
  import opened Compaction

  /** A board snapshot whose rows all have the same length. */
  ghost predicate IsGrid(g: seq<seq<int>>)
  {
    forall r :: 0 <= r < |g| ==> |g[r]| == Width(g)
  }

  function Width(g: seq<seq<int>>): nat
  {
    if g == [] then 0 else |g[0]|
  }

  /** The values of an array board, row by row. */
  ghost function Cells(a: array2<int>): (g: seq<seq<int>>)
    reads a
    ensures |g| == a.Length0 && IsGrid(g) && (a.Length0 > 0 ==> Width(g) == a.Length1)
    ensures forall r, c :: 0 <= r < a.Length0 && 0 <= c < a.Length1 ==> g[r][c] == a[r, c]
  {
    seq(a.Length0, r requires 0 <= r < a.Length0 reads a =>
      seq(a.Length1, c requires 0 <= c < a.Length1 reads a => a[r, c]))
  }

  /** A sweep indexes cell 0 of every line, so a board with exactly one zero
      dimension cannot be swept along the other one. */
  predicate Sweepable(height: int, width: int)
  {
    (height == 0) == (width == 0)
  }

  function OuterCount(g: seq<seq<int>>, alongRow: bool): nat
  {
    if alongRow then |g| else Width(g)
  }

  function InnerCount(g: seq<seq<int>>, alongRow: bool): nat
  {
    if alongRow then Width(g) else |g|
  }

  /** The inner index of the cell at distance d from the target edge: the sweep
      starts at index 0 when moving toward index 0 and at n - 1 otherwise. */
  function InnerIndex(isIncreasing: bool, n: int, d: int): int
  {
    if isIncreasing then d else n - 1 - d
  }

  /** The cell at inner index j of line o. */
  function At(g: seq<seq<int>>, alongRow: bool, o: int, j: int): int
    requires IsGrid(g)
    requires 0 <= o < OuterCount(g, alongRow) && 0 <= j < InnerCount(g, alongRow)
  {
    if alongRow then g[o][j] else g[j][o]
  }

  /** Line o in edge-distance order. */
  function LineOf(g: seq<seq<int>>, alongRow: bool, isIncreasing: bool, o: int): (v: seq<int>)
    requires IsGrid(g) && 0 <= o < OuterCount(g, alongRow)
    ensures |v| == InnerCount(g, alongRow)
  {
    var n := InnerCount(g, alongRow);
    seq(n, d requires 0 <= d < n => At(g, alongRow, o, InnerIndex(isIncreasing, n, d)))
  }

  /** The value of cell (r, c) after a pass. */
  function Swept(g: seq<seq<int>>, alongRow: bool, isIncreasing: bool, base: int,
                 merge: (int, int) -> int, r: int, c: int): int
    requires IsGrid(g) && 0 <= r < |g| && 0 <= c < Width(g)
  {
    var o := if alongRow then r else c;
    var j := if alongRow then c else r;
    Pass(LineOf(g, alongRow, isIncreasing, o), base, merge).line[InnerIndex(isIncreasing, InnerCount(g, alongRow), j)]
  }

  /** The board after a pass: every line passed on its own. */
  function PassGrid(g: seq<seq<int>>, alongRow: bool, isIncreasing: bool, base: int,
                    merge: (int, int) -> int): (g': seq<seq<int>>)
    requires IsGrid(g)
    ensures IsGrid(g') && |g'| == |g| && Width(g') == Width(g)
  {
    seq(|g|, r requires 0 <= r < |g| =>
      seq(Width(g), c requires 0 <= c < Width(g) => Swept(g, alongRow, isIncreasing, base, merge, r, c)))
  }

  /** A transition of line `outer`. */
  datatype Move = Move(outer: int, shift: Shift)

  function Tag(o: int, s: seq<Shift>): (ms: seq<Move>)
    ensures |ms| == |s| && forall k {:trigger ms[k]} :: 0 <= k < |s| ==> ms[k] == Move(o, s[k])
  {
    seq(|s|, k requires 0 <= k < |s| => Move(o, s[k]))
  }

  /** The transitions of one line. */
  function LineShifts(g: seq<seq<int>>, alongRow: bool, isIncreasing: bool, base: int,
                      merge: (int, int) -> int, o: int): seq<Shift>
    requires IsGrid(g) && 0 <= o < OuterCount(g, alongRow)
  {
    Pass(LineOf(g, alongRow, isIncreasing, o), base, merge).shifts
  }

  /** The transitions recorded while passing lines 0 .. o-1, in order. */
  function PassMoves(g: seq<seq<int>>, alongRow: bool, isIncreasing: bool, base: int,
                     merge: (int, int) -> int, o: nat): seq<Move>
    requires IsGrid(g) && o <= OuterCount(g, alongRow)
  {
    if o == 0 then []
    else PassMoves(g, alongRow, isIncreasing, base, merge, o - 1)
         + Tag(o - 1, LineShifts(g, alongRow, isIncreasing, base, merge, o - 1))
  }

  /** All transitions of a pass. */
  function Moves(g: seq<seq<int>>, alongRow: bool, isIncreasing: bool, base: int,
                 merge: (int, int) -> int): seq<Move>
    requires IsGrid(g)
  {
    PassMoves(g, alongRow, isIncreasing, base, merge, OuterCount(g, alongRow))
  }

  /** The sum of the values written by merges. */
  function Gain(ms: seq<Move>): int
  {
    if |ms| == 0 then 0
    else Gain(ms[..|ms| - 1]) + (if ms[|ms| - 1].shift.merged then ms[|ms| - 1].shift.value else 0)
  }

  /** The number of merges. */
  function MergeCount(ms: seq<Move>): nat
  {
    if |ms| == 0 then 0 else MergeCount(ms[..|ms| - 1]) + (if ms[|ms| - 1].shift.merged then 1 else 0)
  }

  // ---------------------------------------------------------------------------
  // Lines of the board after a pass
  // ---------------------------------------------------------------------------

  /** Line o of the board after a pass is the pass of line o. */
  lemma LineOfPassGrid(g: seq<seq<int>>, alongRow: bool, isIncreasing: bool, base: int,
                       merge: (int, int) -> int, o: int)
    requires IsGrid(g) && 0 <= o < OuterCount(g, alongRow)
    ensures LineOf(PassGrid(g, alongRow, isIncreasing, base, merge), alongRow, isIncreasing, o)
         == Pass(LineOf(g, alongRow, isIncreasing, o), base, merge).line
  {
    var g' := PassGrid(g, alongRow, isIncreasing, base, merge);
    var n := InnerCount(g, alongRow);
    var v := LineOf(g', alongRow, isIncreasing, o);
    var w := Pass(LineOf(g, alongRow, isIncreasing, o), base, merge).line;
    forall d | 0 <= d < n ensures v[d] == w[d] {
      var j := InnerIndex(isIncreasing, n, d);
      if alongRow {
        assert v[d] == g'[o][j] == Swept(g, alongRow, isIncreasing, base, merge, o, j);
      } else {
        assert v[d] == g'[j][o] == Swept(g, alongRow, isIncreasing, base, merge, j, o);
      }
    }
  }

  /** After a pass every line holds its tiles stacked against the target edge,
      equal neighbours merged as in Compaction.Chain, and empty cells behind
      them; in particular every line is packed toward the edge. */
  lemma PassGridCompacts(g: seq<seq<int>>, alongRow: bool, isIncreasing: bool, base: int,
                         merge: (int, int) -> int, o: int)
    requires IsGrid(g) && 0 <= o < OuterCount(g, alongRow)
    requires NeverEmpties(merge, base)
    ensures LineOf(PassGrid(g, alongRow, isIncreasing, base, merge), alongRow, isIncreasing, o)
         == Compacted(LineOf(g, alongRow, isIncreasing, o), base, merge)
    ensures Packed(LineOf(PassGrid(g, alongRow, isIncreasing, base, merge), alongRow, isIncreasing, o),
                   base, InnerCount(g, alongRow))
  {
    LineOfPassGrid(g, alongRow, isIncreasing, base, merge, o);
    PassCompacts(LineOf(g, alongRow, isIncreasing, o), base, merge);
    PassPacks(LineOf(g, alongRow, isIncreasing, o), base, merge);
  }

  // ---------------------------------------------------------------------------
  // A pass changes the board exactly when it records a transition
  // ---------------------------------------------------------------------------

  lemma PassMovesStep(g: seq<seq<int>>, alongRow: bool, isIncreasing: bool, base: int,
                      merge: (int, int) -> int, o: nat)
    requires IsGrid(g) && 0 < o <= OuterCount(g, alongRow)
    ensures PassMoves(g, alongRow, isIncreasing, base, merge, o)
         == PassMoves(g, alongRow, isIncreasing, base, merge, o - 1)
            + Tag(o - 1, LineShifts(g, alongRow, isIncreasing, base, merge, o - 1))
    ensures |PassMoves(g, alongRow, isIncreasing, base, merge, o)|
         == |PassMoves(g, alongRow, isIncreasing, base, merge, o - 1)|
            + |LineShifts(g, alongRow, isIncreasing, base, merge, o - 1)|
  {
  }

  lemma {:induction false} PassMovesEmpty(g: seq<seq<int>>, alongRow: bool, isIncreasing: bool, base: int,
                                          merge: (int, int) -> int, o: nat)
    requires IsGrid(g) && o <= OuterCount(g, alongRow)
    ensures PassMoves(g, alongRow, isIncreasing, base, merge, o) == [] <==>
            forall o' :: 0 <= o' < o ==> LineShifts(g, alongRow, isIncreasing, base, merge, o') == []
  {
    var i := 0;
    while i < o
      invariant 0 <= i <= o
      invariant PassMoves(g, alongRow, isIncreasing, base, merge, i) == [] <==>
                forall o' :: 0 <= o' < i ==> LineShifts(g, alongRow, isIncreasing, base, merge, o') == []
    {
      PassMovesStep(g, alongRow, isIncreasing, base, merge, i + 1);
      if PassMoves(g, alongRow, isIncreasing, base, merge, i + 1) == [] {
        forall o' | 0 <= o' < i + 1
          ensures LineShifts(g, alongRow, isIncreasing, base, merge, o') == []
        {
        }
      } else if PassMoves(g, alongRow, isIncreasing, base, merge, i) != [] {
        var o' :| 0 <= o' < i && LineShifts(g, alongRow, isIncreasing, base, merge, o') != [];
      }
      i := i + 1;
    }
  }

  /** Two boards of the same shape are equal when all their lines are. */
  lemma EqualByLines(g: seq<seq<int>>, h: seq<seq<int>>, alongRow: bool, isIncreasing: bool)
    requires IsGrid(g) && IsGrid(h) && |g| == |h| && Width(g) == Width(h)
    requires forall o :: 0 <= o < OuterCount(g, alongRow) ==>
               LineOf(g, alongRow, isIncreasing, o) == LineOf(h, alongRow, isIncreasing, o)
    ensures g == h
  {
    forall r | 0 <= r < |g| ensures g[r] == h[r] {
      forall c | 0 <= c < Width(g) ensures g[r][c] == h[r][c] {
        var o := if alongRow then r else c;
        var j := if alongRow then c else r;
        var d := InnerIndex(isIncreasing, InnerCount(g, alongRow), j);
        assert LineOf(g, alongRow, isIncreasing, o)[d] == LineOf(h, alongRow, isIncreasing, o)[d];
      }
    }
  }

  /** A pass reports no transition if and only if it leaves the board as it was. */
  lemma PassGridUnchangedIff(g: seq<seq<int>>, alongRow: bool, isIncreasing: bool, base: int,
                             merge: (int, int) -> int)
    requires IsGrid(g)
    ensures Moves(g, alongRow, isIncreasing, base, merge) == [] <==>
            PassGrid(g, alongRow, isIncreasing, base, merge) == g
  {
    var g' := PassGrid(g, alongRow, isIncreasing, base, merge);
    var m := OuterCount(g, alongRow);
    PassMovesEmpty(g, alongRow, isIncreasing, base, merge, m);
    forall o | 0 <= o < m
      ensures LineShifts(g, alongRow, isIncreasing, base, merge, o) == [] <==>
              LineOf(g', alongRow, isIncreasing, o) == LineOf(g, alongRow, isIncreasing, o)
    {
      var v := LineOf(g, alongRow, isIncreasing, o);
      LineOfPassGrid(g, alongRow, isIncreasing, base, merge, o);
      SweepChangesIffShifts(v, base, merge, |v|);
    }
    if Moves(g, alongRow, isIncreasing, base, merge) == [] {
      EqualByLines(g', g, alongRow, isIncreasing);
    }
  }

  // ---------------------------------------------------------------------------
  // A full board is stuck exactly when no two neighbours are equal
  // ---------------------------------------------------------------------------

  /** No cell of the board holds the empty value. */
  ghost predicate FullGrid(g: seq<seq<int>>, base: int)
  {
    IsGrid(g) && forall r, c :: 0 <= r < |g| && 0 <= c < Width(g) ==> g[r][c] != base
  }

  /** No two horizontally neighbouring cells hold the same value. */
  ghost predicate RowsDistinct(g: seq<seq<int>>)
  {
    IsGrid(g) && forall r :: 0 <= r < |g| ==> NoEqualNeighbours(g[r], Width(g))
  }

  /** No two vertically neighbouring cells hold the same value. */
  ghost predicate ColumnsDistinct(g: seq<seq<int>>)
  {
    IsGrid(g) && forall c :: 0 <= c < Width(g) ==> NoEqualNeighbours(Column(g, c), |g|)
  }

  /** Line o read by inner index: row o when moving along a row, else column o. */
  function Straight(g: seq<seq<int>>, alongRow: bool, o: int): (s: seq<int>)
    requires IsGrid(g) && 0 <= o < OuterCount(g, alongRow)
    ensures |s| == InnerCount(g, alongRow)
    ensures forall j :: 0 <= j < |s| ==> s[j] == At(g, alongRow, o, j)
  {
    if alongRow then g[o] else Column(g, o)
  }

  /** Line o in edge-distance order has no equal neighbours exactly when it
      has none read by inner index: reversing a line keeps its neighbours. */
  lemma LineNeighbours(g: seq<seq<int>>, alongRow: bool, isIncreasing: bool, o: int)
    requires IsGrid(g) && 0 <= o < OuterCount(g, alongRow)
    ensures NoEqualNeighbours(LineOf(g, alongRow, isIncreasing, o), InnerCount(g, alongRow))
            <==> NoEqualNeighbours(Straight(g, alongRow, o), InnerCount(g, alongRow))
  {
    var v := LineOf(g, alongRow, isIncreasing, o);
    var s := Straight(g, alongRow, o);
    var n := InnerCount(g, alongRow);
    if NoEqualNeighbours(v, n) {
      forall j | 0 < j < n ensures s[j - 1] != s[j] {
        var d := if isIncreasing then j else n - j;
        assert v[d - 1] != v[d];
      }
    }
    if NoEqualNeighbours(s, n) {
      forall d | 0 < d < n ensures v[d - 1] != v[d] {
        var j := if isIncreasing then d else n - d;
        assert s[j - 1] != s[j];
      }
    }
  }

  /** The lines of a direction have no equal neighbours exactly when the
      board has none along that direction. */
  lemma StraightsDistinct(g: seq<seq<int>>, alongRow: bool)
    requires IsGrid(g)
    ensures (forall o :: 0 <= o < OuterCount(g, alongRow) ==>
               NoEqualNeighbours(Straight(g, alongRow, o), InnerCount(g, alongRow)))
            <==> if alongRow then RowsDistinct(g) else ColumnsDistinct(g)
  {
    forall o | 0 <= o < OuterCount(g, alongRow)
      ensures Straight(g, alongRow, o) == if alongRow then g[o] else Column(g, o)
    {
    }
  }

  /** Every line of a full board is full. */
  lemma FullLines(g: seq<seq<int>>, alongRow: bool, isIncreasing: bool, base: int, o: int)
    requires FullGrid(g, base) && 0 <= o < OuterCount(g, alongRow)
    ensures Full(LineOf(g, alongRow, isIncreasing, o), base)
  {
    var v := LineOf(g, alongRow, isIncreasing, o);
    forall d | 0 <= d < |v| ensures v[d] != base {
      var j := InnerIndex(isIncreasing, |v|, d);
      assert v[d] == At(g, alongRow, o, j);
    }
  }

  /** On a full board, a pass records nothing exactly when no two neighbours
      along its lines are equal: neighbours in a row when moving along a row,
      in a column otherwise.  With no empty cell, only a merge moves a tile. */
  lemma FullGridStuckIff(g: seq<seq<int>>, alongRow: bool, isIncreasing: bool, base: int,
                         merge: (int, int) -> int)
    requires FullGrid(g, base)
    ensures Moves(g, alongRow, isIncreasing, base, merge) == [] <==>
            if alongRow then RowsDistinct(g) else ColumnsDistinct(g)
  {
    var m := OuterCount(g, alongRow);
    PassMovesEmpty(g, alongRow, isIncreasing, base, merge, m);
    forall o | 0 <= o < m
      ensures LineShifts(g, alongRow, isIncreasing, base, merge, o) == [] <==>
              NoEqualNeighbours(Straight(g, alongRow, o), InnerCount(g, alongRow))
    {
      FullLines(g, alongRow, isIncreasing, base, o);
      FullLineStuckIff(LineOf(g, alongRow, isIncreasing, o), base, merge);
      LineNeighbours(g, alongRow, isIncreasing, o);
    }
    var n := InnerCount(g, alongRow);
    StraightsDistinct(g, alongRow);
    if Moves(g, alongRow, isIncreasing, base, merge) == [] {
      forall o | 0 <= o < m ensures NoEqualNeighbours(Straight(g, alongRow, o), n) {
        assert LineShifts(g, alongRow, isIncreasing, base, merge, o) == [];
      }
    }
    if forall o :: 0 <= o < m ==> NoEqualNeighbours(Straight(g, alongRow, o), n) {
      forall o | 0 <= o < m ensures LineShifts(g, alongRow, isIncreasing, base, merge, o) == [] {
        assert NoEqualNeighbours(Straight(g, alongRow, o), n);
      }
    }
  }

  // ---------------------------------------------------------------------------
  // Totals over the board: summing line by line in any direction
  // ---------------------------------------------------------------------------

  /** The total of a measure over all cells, row by row. */
  function GridTotal(g: seq<seq<int>>, m: Measure, base: int): int
  {
    if g == [] then 0 else GridTotal(g[..|g| - 1], m, base) + Total(g[|g| - 1], m, base)
  }

  /** The total of a measure over the lines 0 .. o-1 of a direction. */
  function LinesTotal(g: seq<seq<int>>, alongRow: bool, isIncreasing: bool, m: Measure, base: int, o: nat): int
    requires IsGrid(g) && o <= OuterCount(g, alongRow)
  {
    if o == 0 then 0
    else LinesTotal(g, alongRow, isIncreasing, m, base, o - 1) + Total(LineOf(g, alongRow, isIncreasing, o - 1), m, base)
  }

  function Column(g: seq<seq<int>>, c: nat): (v: seq<int>)
    requires forall r :: 0 <= r < |g| ==> c < |g[r]|
    ensures |v| == |g| && forall r :: 0 <= r < |g| ==> v[r] == g[r][c]
  {
    seq(|g|, r requires 0 <= r < |g| => g[r][c])
  }

  function ColumnsTotal(g: seq<seq<int>>, m: Measure, base: int, w: nat): int
    requires forall r :: 0 <= r < |g| ==> w <= |g[r]|
  {
    if w == 0 then 0 else ColumnsTotal(g, m, base, w - 1) + Total(Column(g, w - 1), m, base)
  }

  lemma {:induction false} TotalCons(x: int, v: seq<int>, m: Measure, base: int)
    requires m != Distance
    ensures Total([x] + v, m, base) == Term(m, base, 0, x) + Total(v, m, base)
  {
    if v != [] {
      var n := |v|;
      assert ([x] + v)[..n] == [x] + v[..n - 1];
      TotalCons(x, v[..n - 1], m, base);
    } else {
      assert [x] + v == [x];
      assert [x][..0] == [];
    }
  }

  /** A measure that does not look at positions has the same total on a line read backwards. */
  lemma {:induction false} TotalMirror(v: seq<int>, w: seq<int>, m: Measure, base: int)
    requires m != Distance
    requires |w| == |v| && forall k :: 0 <= k < |v| ==> w[k] == v[|v| - 1 - k]
    ensures Total(w, m, base) == Total(v, m, base)
  {
    if v != [] {
      var n := |v|;
      assert w == [w[0]] + w[1..];
      TotalMirror(v[..n - 1], w[1..], m, base);
      TotalCons(w[0], w[1..], m, base);
    }
  }

  lemma {:induction false} LineTotal(g: seq<seq<int>>, alongRow: bool, isIncreasing: bool, m: Measure, base: int, o: nat)
    requires IsGrid(g) && o < OuterCount(g, alongRow) && m != Distance
    ensures Total(LineOf(g, alongRow, isIncreasing, o), m, base)
         == Total(if alongRow then g[o] else Column(g, o), m, base)
  {
    var v := if alongRow then g[o] else Column(g, o);
    var line := LineOf(g, alongRow, isIncreasing, o);
    if isIncreasing {
      assert line == v;
    } else {
      TotalMirror(v, line, m, base);
    }
  }

  lemma {:induction false} RowsTotal(g: seq<seq<int>>, isIncreasing: bool, m: Measure, base: int, o: nat)
    requires IsGrid(g) && o <= |g| && m != Distance
    ensures LinesTotal(g, true, isIncreasing, m, base, o) == GridTotal(g[..o], m, base)
  {
    if o > 0 {
      RowsTotal(g, isIncreasing, m, base, o - 1);
      LineTotal(g, true, isIncreasing, m, base, o - 1);
      assert g[..o][..o - 1] == g[..o - 1];
    }
  }

  lemma {:induction false} ColumnsOfLines(g: seq<seq<int>>, isIncreasing: bool, m: Measure, base: int, o: nat)
    requires IsGrid(g) && o <= Width(g) && m != Distance
    ensures LinesTotal(g, false, isIncreasing, m, base, o) == ColumnsTotal(g, m, base, o)
  {
    if o > 0 {
      ColumnsOfLines(g, isIncreasing, m, base, o - 1);
      LineTotal(g, false, isIncreasing, m, base, o - 1);
    }
  }

  lemma {:induction false} ColumnsOfNothing(m: Measure, base: int, w: nat)
    ensures ColumnsTotal([], m, base, w) == 0
  {
    if w > 0 {
      ColumnsOfNothing(m, base, w - 1);
      assert Column([], w - 1) == [];
    }
  }

  /** Splitting off the last row from every column. */
  lemma {:induction false} ColumnsSplit(g: seq<seq<int>>, m: Measure, base: int, w: nat)
    requires |g| > 0 && forall r :: 0 <= r < |g| ==> w <= |g[r]|
    requires m != Distance
    ensures ColumnsTotal(g, m, base, w)
         == ColumnsTotal(g[..|g| - 1], m, base, w) + Total(g[|g| - 1][..w], m, base)
  {
    if w > 0 {
      var h := |g|;
      ColumnsSplit(g, m, base, w - 1);
      assert Column(g, w - 1)[..h - 1] == Column(g[..h - 1], w - 1);
      assert g[h - 1][..w][..w - 1] == g[h - 1][..w - 1];
    }
  }

  lemma {:induction false} ColumnsIsGrid(g: seq<seq<int>>, m: Measure, base: int, w: nat)
    requires forall r :: 0 <= r < |g| ==> |g[r]| == w
    requires m != Distance
    ensures ColumnsTotal(g, m, base, w) == GridTotal(g, m, base)
  {
    if g == [] {
      ColumnsOfNothing(m, base, w);
    } else {
      var h := |g|;
      ColumnsSplit(g, m, base, w);
      ColumnsIsGrid(g[..h - 1], m, base, w);
      assert g[h - 1][..w] == g[h - 1];
    }
  }

  /** Summing line by line, in either direction, gives the board total. */
  lemma {:induction false} LinesIsGrid(g: seq<seq<int>>, alongRow: bool, isIncreasing: bool, m: Measure, base: int)
    requires IsGrid(g) && m != Distance
    ensures LinesTotal(g, alongRow, isIncreasing, m, base, OuterCount(g, alongRow)) == GridTotal(g, m, base)
  {
    if alongRow {
      RowsTotal(g, isIncreasing, m, base, |g|);
      assert g[..|g|] == g;
    } else {
      ColumnsOfLines(g, isIncreasing, m, base, Width(g));
      ColumnsIsGrid(g, m, base, Width(g));
    }
  }

  lemma {:induction false} MergeCountSnoc(ms: seq<Move>, x: Move)
    ensures MergeCount(ms + [x]) == MergeCount(ms) + (if x.shift.merged then 1 else 0)
  {
    assert (ms + [x])[..|ms|] == ms;
  }

  lemma {:induction false} MergeCountTag(ms: seq<Move>, o: int, s: seq<Shift>)
    ensures MergeCount(ms + Tag(o, s)) == MergeCount(ms) + Merges(s)
  {
    if s != [] {
      var n := |s|;
      assert ms + Tag(o, s) == (ms + Tag(o, s[..n - 1])) + [Move(o, s[n - 1])];
      MergeCountSnoc(ms + Tag(o, s[..n - 1]), Move(o, s[n - 1]));
      MergeCountTag(ms, o, s[..n - 1]);
    } else {
      assert ms + Tag(o, s) == ms;
    }
  }

  lemma LineMassKept(g: seq<seq<int>>, alongRow: bool, isIncreasing: bool, merge: (int, int) -> int, o: nat)
    requires IsGrid(g) && o < OuterCount(g, alongRow)
    requires Additive(merge)
    ensures Total(LineOf(PassGrid(g, alongRow, isIncreasing, 0, merge), alongRow, isIncreasing, o), Mass, 0)
         == Total(LineOf(g, alongRow, isIncreasing, o), Mass, 0)
  {
    LineOfPassGrid(g, alongRow, isIncreasing, 0, merge, o);
    var v := LineOf(g, alongRow, isIncreasing, o);
    SweepMass(v, merge, |v|);
  }

  /** Boards whose lines have equal totals have equal lines totals. */
  lemma {:induction false} LinesSame(g: seq<seq<int>>, g': seq<seq<int>>, alongRow: bool, isIncreasing: bool,
                                     m: Measure, base: int, o: nat)
    requires IsGrid(g) && IsGrid(g') && |g'| == |g| && Width(g') == Width(g)
    requires o <= OuterCount(g, alongRow)
    requires forall o' :: 0 <= o' < o ==>
      Total(LineOf(g', alongRow, isIncreasing, o'), m, base) == Total(LineOf(g, alongRow, isIncreasing, o'), m, base)
    ensures LinesTotal(g', alongRow, isIncreasing, m, base, o) == LinesTotal(g, alongRow, isIncreasing, m, base, o)
  {
    if o > 0 {
      LinesSame(g, g', alongRow, isIncreasing, m, base, o - 1);
    }
  }

  /** Under the numeric policy (empty is 0, merging doubles) a pass keeps the
      sum of all cell values. */
  lemma {:induction false} PassGridMass(g: seq<seq<int>>, alongRow: bool, isIncreasing: bool, merge: (int, int) -> int)
    requires IsGrid(g)
    requires Additive(merge)
    ensures GridTotal(PassGrid(g, alongRow, isIncreasing, 0, merge), Mass, 0) == GridTotal(g, Mass, 0)
  {
    var g' := PassGrid(g, alongRow, isIncreasing, 0, merge);
    forall o' | 0 <= o' < OuterCount(g, alongRow)
      ensures Total(LineOf(g', alongRow, isIncreasing, o'), Mass, 0) == Total(LineOf(g, alongRow, isIncreasing, o'), Mass, 0)
    {
      LineMassKept(g, alongRow, isIncreasing, merge, o');
    }
    LinesSame(g, g', alongRow, isIncreasing, Mass, 0, OuterCount(g, alongRow));
    LinesIsGrid(g, alongRow, isIncreasing, Mass, 0);
    LinesIsGrid(g', alongRow, isIncreasing, Mass, 0);
  }

  lemma {:induction false} LineOccupancyDrops(g: seq<seq<int>>, alongRow: bool, isIncreasing: bool, base: int,
                            merge: (int, int) -> int, o: nat)
    requires IsGrid(g) && o < OuterCount(g, alongRow)
    requires NeverEmpties(merge, base)
    ensures Total(LineOf(PassGrid(g, alongRow, isIncreasing, base, merge), alongRow, isIncreasing, o), Occupancy, base)
         == Total(LineOf(g, alongRow, isIncreasing, o), Occupancy, base)
            - Merges(LineShifts(g, alongRow, isIncreasing, base, merge, o))
  {
    LineOfPassGrid(g, alongRow, isIncreasing, base, merge, o);
    var v := LineOf(g, alongRow, isIncreasing, o);
    SweepOccupancy(v, base, merge, |v|);
  }

  function Sum(s: seq<int>): int
  {
    if s == [] then 0 else Sum(s[..|s| - 1]) + s[|s| - 1]
  }

  /** Line totals that drop line by line make a lines total that drops by the sum. */
  lemma {:induction false} LinesDrop(g: seq<seq<int>>, g': seq<seq<int>>, alongRow: bool, isIncreasing: bool,
                                     m: Measure, base: int, drop: seq<int>, o: nat)
    requires IsGrid(g) && IsGrid(g') && |g'| == |g| && Width(g') == Width(g)
    requires o <= OuterCount(g, alongRow) && o <= |drop|
    requires forall o' :: 0 <= o' < o ==>
      Total(LineOf(g', alongRow, isIncreasing, o'), m, base)
      == Total(LineOf(g, alongRow, isIncreasing, o'), m, base) - drop[o']
    ensures LinesTotal(g', alongRow, isIncreasing, m, base, o)
         == LinesTotal(g, alongRow, isIncreasing, m, base, o) - Sum(drop[..o])
  {
    if o > 0 {
      LinesDrop(g, g', alongRow, isIncreasing, m, base, drop, o - 1);
      assert drop[..o][..o - 1] == drop[..o - 1];
    }
  }

  /** The merges of each line pass, line by line. */
  function LineMerges(rs: seq<LinePass>): (s: seq<int>)
    ensures |s| == |rs| && forall o :: 0 <= o < |rs| ==> s[o] == Merges(rs[o].shifts)
  {
    seq(|rs|, o requires 0 <= o < |rs| => Merges(rs[o].shifts))
  }

  /** The merges of lines 0 .. o-1 add up line by line. */
  lemma {:induction false} MergeCountByLines(rs: seq<LinePass>, o: nat)
    requires o <= |rs|
    ensures MergeCount(MovesOf(rs, o)) == Sum(LineMerges(rs)[..o])
  {
    if o > 0 {
      var s := LineMerges(rs);
      MergeCountByLines(rs, o - 1);
      MergeCountTag(MovesOf(rs, o - 1), o - 1, rs[o - 1].shifts);
      assert s[..o][..o - 1] == s[..o - 1];
    }
  }

  /** A pass empties exactly one cell per merge: the number of occupied cells
      drops by the number of merges it records. */
  lemma {:induction false} PassGridOccupancy(g: seq<seq<int>>, alongRow: bool, isIncreasing: bool, base: int,
                          merge: (int, int) -> int)
    requires IsGrid(g)
    requires NeverEmpties(merge, base)
    ensures GridTotal(PassGrid(g, alongRow, isIncreasing, base, merge), Occupancy, base)
         == GridTotal(g, Occupancy, base) - MergeCount(Moves(g, alongRow, isIncreasing, base, merge))
  {
    var g' := PassGrid(g, alongRow, isIncreasing, base, merge);
    var rs := LinePassesExist(g, alongRow, isIncreasing, base, merge);
    var drop := LineMerges(rs);
    var n := OuterCount(g, alongRow);
    forall o' | 0 <= o' < n
      ensures Total(LineOf(g', alongRow, isIncreasing, o'), Occupancy, base)
           == Total(LineOf(g, alongRow, isIncreasing, o'), Occupancy, base) - drop[o']
    {
      LineOccupancyDrops(g, alongRow, isIncreasing, base, merge, o');
      assert rs[o'] == Pass(LineOf(g, alongRow, isIncreasing, o'), base, merge);
    }
    LinesDrop(g, g', alongRow, isIncreasing, Occupancy, base, drop, n);
    MergeCountByLines(rs, n);
    MovesOfPasses(g, alongRow, isIncreasing, base, merge, rs, n);
    assert drop[..n] == drop;
    LinesIsGrid(g, alongRow, isIncreasing, Occupancy, base);
    LinesIsGrid(g', alongRow, isIncreasing, Occupancy, base);
  }

  // ---------------------------------------------------------------------------
  // The order of the recorded transitions
  // ---------------------------------------------------------------------------

  /** Appending the transitions of line o to moves of earlier lines keeps them ordered. */
  lemma TagOrdered(prev: seq<Move>, o: int, s: seq<Shift>, n: int)
    requires Ordered(prev, o, n)
    requires forall k :: 0 <= k < |s| ==> 0 <= s[k].dst < s[k].src < n
    requires forall k1, k2 :: 0 <= k1 < k2 < |s| ==> s[k1].src < s[k2].src
    requires 0 <= o
    ensures Ordered(prev + Tag(o, s), o + 1, n)
  {
    var ms := prev + Tag(o, s);
    forall k | 0 <= k < |ms|
      ensures 0 <= ms[k].outer < o + 1 && 0 <= ms[k].shift.dst < ms[k].shift.src < n
    {
      if k >= |prev| {
        assert ms[k] == Move(o, s[k - |prev|]);
      }
    }
    forall k1, k2 | 0 <= k1 < k2 < |ms| ensures Before(ms[k1], ms[k2]) {
      if k2 < |prev| {
      } else if k1 < |prev| {
        assert ms[k2] == Move(o, s[k2 - |prev|]);
      } else {
        assert ms[k1] == Move(o, s[k1 - |prev|]);
        assert ms[k2] == Move(o, s[k2 - |prev|]);
      }
    }
  }

  lemma LineShiftsOrdered(g: seq<seq<int>>, alongRow: bool, isIncreasing: bool, base: int,
                          merge: (int, int) -> int, o: int)
    requires IsGrid(g) && 0 <= o < OuterCount(g, alongRow)
    ensures forall k :: 0 <= k < |LineShifts(g, alongRow, isIncreasing, base, merge, o)| ==>
              0 <= LineShifts(g, alongRow, isIncreasing, base, merge, o)[k].dst
                < LineShifts(g, alongRow, isIncreasing, base, merge, o)[k].src < InnerCount(g, alongRow)
    ensures forall k1, k2 :: 0 <= k1 < k2 < |LineShifts(g, alongRow, isIncreasing, base, merge, o)| ==>
              LineShifts(g, alongRow, isIncreasing, base, merge, o)[k1].src
                < LineShifts(g, alongRow, isIncreasing, base, merge, o)[k2].src
  {
    var v := LineOf(g, alongRow, isIncreasing, o);
    SweepShiftsOrdered(v, base, merge, |v|);
  }

  /** Moves come line by line and, within a line, in sweep order; every move
      goes strictly toward the edge.  In particular no two moves share a source
      cell. */
  lemma {:induction false} PassMovesOrdered(g: seq<seq<int>>, alongRow: bool, isIncreasing: bool, base: int,
                                            merge: (int, int) -> int, o: nat)
    requires IsGrid(g) && o <= OuterCount(g, alongRow)
    ensures Ordered(PassMoves(g, alongRow, isIncreasing, base, merge, o), o, InnerCount(g, alongRow))
  {
    var rs := LinePassesExist(g, alongRow, isIncreasing, base, merge);
    var n := InnerCount(g, alongRow);
    var i := 0;
    while i < o
      invariant 0 <= i <= o
      invariant Ordered(MovesOf(rs, i), i, n)
    {
      LineShiftsOrdered(g, alongRow, isIncreasing, base, merge, i);
      assert rs[i].shifts == LineShifts(g, alongRow, isIncreasing, base, merge, i);
      TagOrdered(MovesOf(rs, i), i, rs[i].shifts, n);
      i := i + 1;
    }
    MovesOfPasses(g, alongRow, isIncreasing, base, merge, rs, o);
  }

  /** Moves of lines before `o`, each going strictly toward the edge of a line
      of `n` cells, listed in strict order. */
  predicate Ordered(ms: seq<Move>, o: int, n: int)
  {
    (forall k :: 0 <= k < |ms| ==> 0 <= ms[k].outer < o && 0 <= ms[k].shift.dst < ms[k].shift.src < n)
    && forall k1, k2 :: 0 <= k1 < k2 < |ms| ==> Before(ms[k1], ms[k2])
  }

  /** Strict order of moves: by line, then by source distance. */
  predicate Before(a: Move, b: Move)
  {
    a.outer < b.outer || (a.outer == b.outer && a.shift.src < b.shift.src)
  }

  // ---------------------------------------------------------------------------
  // A pass that moves something leaves room for a new tile
  // ---------------------------------------------------------------------------

  lemma {:induction false} DistanceOfFull(v: seq<int>, w: seq<int>, base: int)
    requires |v| == |w|
    requires forall k :: 0 <= k < |v| ==> v[k] != base && w[k] != base
    ensures Total(v, Distance, base) == Total(w, Distance, base)
  {
    if v != [] {
      DistanceOfFull(v[..|v| - 1], w[..|w| - 1], base);
    }
  }

  lemma {:induction false} OccupancyBound(v: seq<int>, base: int)
    ensures Total(v, Occupancy, base) <= |v|
    ensures Total(v, Occupancy, base) == |v| <==> forall k :: 0 <= k < |v| ==> v[k] != base
  {
    if v != [] {
      var n := |v|;
      OccupancyBound(v[..n - 1], base);
      assert forall k :: 0 <= k < n - 1 ==> v[..n - 1][k] == v[k];
      forall k | 0 <= k < n && Total(v, Occupancy, base) == n ensures v[k] != base {
        if k < n - 1 {
          assert v[..n - 1][k] == v[k];
        }
      }
    }
  }

  /** A full line reached from a line by steps that each lower the distance
      weight and never fill a cell took no step at all. */
  lemma {:induction false} FullAfterNoSteps(v: seq<int>, w: seq<int>, base: int, merges: nat, steps: nat)
    requires |w| == |v|
    requires forall k :: 0 <= k < |w| ==> w[k] != base
    requires Total(w, Occupancy, base) == Total(v, Occupancy, base) - merges
    requires Total(w, Distance, base) + steps <= Total(v, Distance, base)
    ensures steps == 0
  {
    OccupancyBound(w, base);
    OccupancyBound(v, base);
    DistanceOfFull(w, v, base);
  }

  /** A line the pass changes ends with an empty cell somewhere: a merge
      empties a cell, and a slide needs one to slide into. */
  lemma LineHasRoom(v: seq<int>, base: int, merge: (int, int) -> int)
    requires NeverEmpties(merge, base)
    requires Pass(v, base, merge).shifts != []
    ensures exists k :: 0 <= k < |v| && Pass(v, base, merge).line[k] == base
  {
    var r := Sweep(v, base, merge, |v|);
    SweepOccupancy(v, base, merge, |v|);
    SweepChangesIffShifts(v, base, merge, |v|);
    if forall k :: 0 <= k < |v| ==> r.line[k] != base {
      FullAfterNoSteps(v, r.line, base, Merges(r.shifts), |r.shifts|);
    }
  }

  /** After a pass that records a transition the board has an empty cell. */
  lemma PassGridHasRoom(g: seq<seq<int>>, alongRow: bool, isIncreasing: bool, base: int,
                        merge: (int, int) -> int)
    requires IsGrid(g)
    requires NeverEmpties(merge, base)
    requires Moves(g, alongRow, isIncreasing, base, merge) != []
    ensures exists r, c :: 0 <= r < |g| && 0 <= c < Width(g) &&
              PassGrid(g, alongRow, isIncreasing, base, merge)[r][c] == base
  {
    var m := OuterCount(g, alongRow);
    var n := InnerCount(g, alongRow);
    var g' := PassGrid(g, alongRow, isIncreasing, base, merge);
    PassMovesEmpty(g, alongRow, isIncreasing, base, merge, m);
    var o :| 0 <= o < m && LineShifts(g, alongRow, isIncreasing, base, merge, o) != [];
    var v := LineOf(g, alongRow, isIncreasing, o);
    LineHasRoom(v, base, merge);
    var d :| 0 <= d < n && Pass(v, base, merge).line[d] == base;
    LineOfPassGrid(g, alongRow, isIncreasing, base, merge, o);
    var j := InnerIndex(isIncreasing, n, d);
    assert LineOf(g', alongRow, isIncreasing, o)[d] == base;
    if alongRow {
      assert g'[o][j] == base;
    } else {
      assert g'[j][o] == base;
    }
  }

  // ---------------------------------------------------------------------------
  // Intermediate boards of a sweep, for the array implementations
  // ---------------------------------------------------------------------------

  /** The (row, column) of inner index j of line o. */
  function Position(alongRow: bool, o: int, j: int): (int, int)
  {
    if alongRow then (o, j) else (j, o)
  }

  /** Writing one cell of a board. */
  function Put(g: seq<seq<int>>, r: int, c: int, x: int): seq<seq<int>>
    requires 0 <= r < |g| && 0 <= c < |g[r]|
  {
    g[r := g[r][c := x]]
  }

  /** The board with line o replaced by v (given in edge-distance order). */
  function WithLine(g: seq<seq<int>>, alongRow: bool, isIncreasing: bool, o: int, v: seq<int>): (h: seq<seq<int>>)
    requires IsGrid(g) && 0 <= o < OuterCount(g, alongRow) && |v| == InnerCount(g, alongRow)
    ensures IsGrid(h) && |h| == |g| && Width(h) == Width(g)
    ensures forall r, c :: 0 <= r < |g| && 0 <= c < Width(g) ==>
              h[r][c] == if (if alongRow then r else c) == o
                         then v[InnerIndex(isIncreasing, InnerCount(g, alongRow), if alongRow then c else r)]
                         else g[r][c]
  {
    var n := InnerCount(g, alongRow);
    seq(|g|, r requires 0 <= r < |g| =>
      seq(Width(g), c requires 0 <= c < Width(g) =>
        if (if alongRow then r else c) == o
        then v[InnerIndex(isIncreasing, n, if alongRow then c else r)]
        else g[r][c]))
  }

  /** The board once lines 0 .. i-1 have been passed. */
  function PassedUpTo(g: seq<seq<int>>, alongRow: bool, isIncreasing: bool, base: int,
                      merge: (int, int) -> int, i: int): (h: seq<seq<int>>)
    requires IsGrid(g)
    ensures IsGrid(h) && |h| == |g| && Width(h) == Width(g)
  {
    seq(|g|, r requires 0 <= r < |g| =>
      seq(Width(g), c requires 0 <= c < Width(g) =>
        if (if alongRow then r else c) < i then Swept(g, alongRow, isIncreasing, base, merge, r, c) else g[r][c]))
  }

  lemma PassedUpToEnds(g: seq<seq<int>>, alongRow: bool, isIncreasing: bool, base: int,
                       merge: (int, int) -> int)
    requires IsGrid(g)
    ensures PassedUpTo(g, alongRow, isIncreasing, base, merge, 0) == g
    ensures PassedUpTo(g, alongRow, isIncreasing, base, merge, OuterCount(g, alongRow))
         == PassGrid(g, alongRow, isIncreasing, base, merge)
  {
    var h0 := PassedUpTo(g, alongRow, isIncreasing, base, merge, 0);
    var h1 := PassedUpTo(g, alongRow, isIncreasing, base, merge, OuterCount(g, alongRow));
    var g' := PassGrid(g, alongRow, isIncreasing, base, merge);
    forall r | 0 <= r < |g| ensures h0[r] == g[r] && h1[r] == g'[r] {
    }
  }

  /** Before line i is processed it is the original line; writing it back leaves the board. */
  lemma WithLineStart(g: seq<seq<int>>, alongRow: bool, isIncreasing: bool, base: int,
                      merge: (int, int) -> int, i: int)
    requires IsGrid(g) && 0 <= i < OuterCount(g, alongRow)
    ensures WithLine(PassedUpTo(g, alongRow, isIncreasing, base, merge, i), alongRow, isIncreasing, i,
                     LineOf(g, alongRow, isIncreasing, i))
         == PassedUpTo(g, alongRow, isIncreasing, base, merge, i)
  {
    var h := PassedUpTo(g, alongRow, isIncreasing, base, merge, i);
    var w := WithLine(h, alongRow, isIncreasing, i, LineOf(g, alongRow, isIncreasing, i));
    var n := InnerCount(g, alongRow);
    forall r | 0 <= r < |g| ensures w[r] == h[r] {
      forall c | 0 <= c < Width(g) ensures w[r][c] == h[r][c] {
        var j := if alongRow then c else r;
        assert InnerIndex(isIncreasing, n, InnerIndex(isIncreasing, n, j)) == j;
      }
    }
  }

  /** The transitions of lines 0 .. i-1 when line o passes as `rs[o]`. */
  function MovesOf(rs: seq<LinePass>, i: nat): seq<Move>
    requires i <= |rs|
  {
    if i == 0 then [] else MovesOf(rs, i - 1) + Tag(i - 1, rs[i - 1].shifts)
  }

  /** `rs` holds the pass of every line of `g`.  (The trigger lets a proof use
      this fact only for a line it names, so the passes of the other lines are
      not unfolded.) */
  ghost predicate LinePasses(g: seq<seq<int>>, alongRow: bool, isIncreasing: bool, base: int,
                             merge: (int, int) -> int, rs: seq<LinePass>)
  {
    IsGrid(g) && |rs| == OuterCount(g, alongRow)
    && forall o {:trigger LineOf(g, alongRow, isIncreasing, o)} :: 0 <= o < |rs| ==>
         rs[o] == Pass(LineOf(g, alongRow, isIncreasing, o), base, merge)
  }

  /** Every board has its line passes. */
  lemma LinePassesExist(g: seq<seq<int>>, alongRow: bool, isIncreasing: bool, base: int, merge: (int, int) -> int)
    returns (rs: seq<LinePass>)
    requires IsGrid(g)
    ensures LinePasses(g, alongRow, isIncreasing, base, merge, rs)
  {
    var n := OuterCount(g, alongRow);
    rs := seq(n, o requires 0 <= o < n => Pass(LineOf(g, alongRow, isIncreasing, o), base, merge));
  }

  /** Folding the line passes gives the transitions of the pass. */
  lemma {:induction false} MovesOfPasses(g: seq<seq<int>>, alongRow: bool, isIncreasing: bool, base: int,
                                         merge: (int, int) -> int, rs: seq<LinePass>, i: nat)
    requires LinePasses(g, alongRow, isIncreasing, base, merge, rs) && i <= |rs|
    ensures MovesOf(rs, i) == PassMoves(g, alongRow, isIncreasing, base, merge, i)
  {
    var k := 0;
    while k < i
      invariant 0 <= k <= i
      invariant MovesOf(rs, k) == PassMoves(g, alongRow, isIncreasing, base, merge, k)
    {
      assert rs[k] == Pass(LineOf(g, alongRow, isIncreasing, k), base, merge);
      PassMovesStep(g, alongRow, isIncreasing, base, merge, k + 1);
      k := k + 1;
    }
  }

  /** The state of a pass once lines 0 .. i-1 are done: the board `h`, whether
      anything moved so far, and the sum of the merged values so far. */
  ghost predicate PassedLines(g: seq<seq<int>>, alongRow: bool, isIncreasing: bool, base: int,
                              merge: (int, int) -> int, rs: seq<LinePass>, i: int,
                              h: seq<seq<int>>, changed: bool, gain: int)
  {
    IsGrid(g) && 0 <= i <= |rs|
    && h == PassedUpTo(g, alongRow, isIncreasing, base, merge, i)
    && gain == Gain(MovesOf(rs, i))
    && (changed <==> |MovesOf(rs, i)| > 0)
  }

  /** A pass starts from the board itself, with nothing moved and nothing gained. */
  lemma PassedLinesStart(g: seq<seq<int>>, alongRow: bool, isIncreasing: bool, base: int,
                         merge: (int, int) -> int, rs: seq<LinePass>)
    requires LinePasses(g, alongRow, isIncreasing, base, merge, rs)
    ensures PassedLines(g, alongRow, isIncreasing, base, merge, rs, 0, g, false, 0)
  {
    PassedUpToEnds(g, alongRow, isIncreasing, base, merge);
  }

  /** Once every line is done, the state is the pass of the whole board. */
  lemma PassedLinesEnd(g: seq<seq<int>>, alongRow: bool, isIncreasing: bool, base: int,
                       merge: (int, int) -> int, rs: seq<LinePass>, h: seq<seq<int>>, changed: bool, gain: int)
    requires LinePasses(g, alongRow, isIncreasing, base, merge, rs)
    requires PassedLines(g, alongRow, isIncreasing, base, merge, rs, |rs|, h, changed, gain)
    ensures h == PassGrid(g, alongRow, isIncreasing, base, merge)
    ensures gain == Gain(Moves(g, alongRow, isIncreasing, base, merge))
    ensures changed <==> Moves(g, alongRow, isIncreasing, base, merge) != []
  {
    PassedUpToEnds(g, alongRow, isIncreasing, base, merge);
    MovesOfPasses(g, alongRow, isIncreasing, base, merge, rs, |rs|);
  }

  /** Passing line i moves the state from i to i + 1 by that line's transitions. */
  lemma PassedLinesNext(g: seq<seq<int>>, alongRow: bool, isIncreasing: bool, base: int,
                        merge: (int, int) -> int, rs: seq<LinePass>, i: int,
                        h: seq<seq<int>>, changed: bool, gain: int)
    requires LinePasses(g, alongRow, isIncreasing, base, merge, rs)
    requires PassedLines(g, alongRow, isIncreasing, base, merge, rs, i, h, changed, gain)
    requires i < |rs|
    ensures PassedLines(g, alongRow, isIncreasing, base, merge, rs, i + 1,
                        WithLine(h, alongRow, isIncreasing, i, Pass(LineOf(g, alongRow, isIncreasing, i), base, merge).line),
                        changed || |Pass(LineOf(g, alongRow, isIncreasing, i), base, merge).shifts| > 0,
                        gain + Gain(Tag(i, Pass(LineOf(g, alongRow, isIncreasing, i), base, merge).shifts)))
  {
    WithLineFinish(g, alongRow, isIncreasing, base, merge, i);
    assert rs[i] == Pass(LineOf(g, alongRow, isIncreasing, i), base, merge);
    GainAppend(MovesOf(rs, i), Tag(i, rs[i].shifts));
  }

  /** Writing line i's pass into the board passed up to i gives the board passed up to i + 1. */
  lemma WithLineFinish(g: seq<seq<int>>, alongRow: bool, isIncreasing: bool, base: int,
                       merge: (int, int) -> int, i: int)
    requires IsGrid(g) && 0 <= i < OuterCount(g, alongRow)
    ensures WithLine(PassedUpTo(g, alongRow, isIncreasing, base, merge, i), alongRow, isIncreasing, i,
                     Pass(LineOf(g, alongRow, isIncreasing, i), base, merge).line)
         == PassedUpTo(g, alongRow, isIncreasing, base, merge, i + 1)
  {
    var h := PassedUpTo(g, alongRow, isIncreasing, base, merge, i);
    var w := WithLine(h, alongRow, isIncreasing, i, Pass(LineOf(g, alongRow, isIncreasing, i), base, merge).line);
    var h' := PassedUpTo(g, alongRow, isIncreasing, base, merge, i + 1);
    forall r | 0 <= r < |g| ensures w[r] == h'[r] {
    }
  }

  /** Writing cell d of line o is writing distance d of that line. */
  lemma PutInLine(g: seq<seq<int>>, alongRow: bool, isIncreasing: bool, o: int, v: seq<int>, d: int, x: int)
    requires IsGrid(g) && 0 <= o < OuterCount(g, alongRow) && |v| == InnerCount(g, alongRow)
    requires 0 <= d < |v|
    ensures var (r, c) := Position(alongRow, o, InnerIndex(isIncreasing, |v|, d));
            0 <= r < |g| && 0 <= c < Width(g) &&
            Put(WithLine(g, alongRow, isIncreasing, o, v), r, c, x)
            == WithLine(g, alongRow, isIncreasing, o, v[d := x])
  {
    var n := |v|;
    var (r, c) := Position(alongRow, o, InnerIndex(isIncreasing, n, d));
    var a := Put(WithLine(g, alongRow, isIncreasing, o, v), r, c, x);
    var b := WithLine(g, alongRow, isIncreasing, o, v[d := x]);
    forall r' | 0 <= r' < |g| ensures a[r'] == b[r'] {
      forall c' | 0 <= c' < Width(g) ensures a[r'][c'] == b[r'][c'] {
        var j := if alongRow then c' else r';
        assert InnerIndex(isIncreasing, n, InnerIndex(isIncreasing, n, j)) == j;
      }
    }
  }

  /** The cell at distance d of the replaced line holds v[d]. */
  lemma AtWithLine(g: seq<seq<int>>, alongRow: bool, isIncreasing: bool, o: int, v: seq<int>, d: int)
    requires IsGrid(g) && 0 <= o < OuterCount(g, alongRow) && |v| == InnerCount(g, alongRow)
    requires 0 <= d < |v|
    ensures 0 <= InnerIndex(isIncreasing, |v|, d) < |v|
    ensures At(WithLine(g, alongRow, isIncreasing, o, v), alongRow, o, InnerIndex(isIncreasing, |v|, d)) == v[d]
  {
    var n := |v|;
    assert InnerIndex(isIncreasing, n, InnerIndex(isIncreasing, n, d)) == d;
  }

  /** The gain of moves one after the other is the sum of their gains. */
  lemma {:induction false} GainAppend(a: seq<Move>, b: seq<Move>)
    ensures Gain(a + b) == Gain(a) + Gain(b)
  {
    if b == [] {
      assert a + b == a;
    } else {
      var n := |b|;
      assert (a + b)[..|a + b| - 1] == a + b[..n - 1];
      GainAppend(a, b[..n - 1]);
    }
  }

  /** The transitions of line i after one more step: the step's transition, if
      any, is appended, and the gain grows by the value it writes if it is a merge. */
  lemma TagAfterStep(i: int, s: seq<Shift>, st: Option<Shift>)
    ensures |Tag(i, s + ToSeq(st))| == |s| + |ToSeq(st)|
    ensures Gain(Tag(i, s + ToSeq(st)))
         == Gain(Tag(i, s)) + (if st.Some? && st.value.merged then st.value.value else 0)
  {
    var ms := Tag(i, s);
    if st.Some? {
      assert Tag(i, s + ToSeq(st)) == ms + [Move(i, st.value)];
      assert (ms + [Move(i, st.value)])[..|ms|] == ms;
    } else {
      assert s + ToSeq(st) == s;
    }
  }

  /** The state of the sweep of line i of board `h` once distances 0 .. c-1
      are done: the board, whether anything moved (counting what moved before
      the line), and the merged values (added to what was gained before). */
  ghost predicate SweptLine(h: seq<seq<int>>, alongRow: bool, isIncreasing: bool, base: int,
                            merge: (int, int) -> int, i: int, v: seq<int>, c: int,
                            cells: seq<seq<int>>, changed0: bool, changed: bool, gain0: int, gain: int)
  {
    IsGrid(h) && 0 <= i < OuterCount(h, alongRow) && |v| == InnerCount(h, alongRow) && 0 <= c <= |v|
    && cells == WithLine(h, alongRow, isIncreasing, i, Sweep(v, base, merge, c).line)
    && changed == (changed0 || |Sweep(v, base, merge, c).shifts| > 0)
    && gain == gain0 + Gain(Tag(i, Sweep(v, base, merge, c).shifts))
  }

  lemma SweptLineStart(h: seq<seq<int>>, alongRow: bool, isIncreasing: bool, base: int,
                       merge: (int, int) -> int, i: int, v: seq<int>, changed0: bool, gain0: int)
    requires IsGrid(h) && 0 <= i < OuterCount(h, alongRow) && |v| == InnerCount(h, alongRow)
    ensures SweptLine(h, alongRow, isIncreasing, base, merge, i, v, 0,
                      WithLine(h, alongRow, isIncreasing, i, v), changed0, changed0, gain0, gain0)
  {
  }

  /** One more tile: the board is that of the step, and the step's transition,
      if any, counts as a move and adds its value when it is a merge. */
  lemma {:induction false} SweptLineNext(h: seq<seq<int>>, alongRow: bool, isIncreasing: bool, base: int,
                      merge: (int, int) -> int, i: int, v: seq<int>, c: int,
                      cells: seq<seq<int>>, changed0: bool, changed: bool, gain0: int, gain: int,
                      cells': seq<seq<int>>, moved: bool, gained: int)
    requires SweptLine(h, alongRow, isIncreasing, base, merge, i, v, c, cells, changed0, changed, gain0, gain)
    requires c < |v|
    requires cells' == WithLine(h, alongRow, isIncreasing, i, Step(Sweep(v, base, merge, c).line, base, merge, c).line)
    requires moved <==> Step(Sweep(v, base, merge, c).line, base, merge, c).shift.Some?
    requires gained == var st := Step(Sweep(v, base, merge, c).line, base, merge, c).shift;
                       if st.Some? && st.value.merged then st.value.value else 0
    ensures SweptLine(h, alongRow, isIncreasing, base, merge, i, v, c + 1, cells', changed0, changed || moved,
                      gain0, gain + gained)
  {
    var prev := Sweep(v, base, merge, c);
    var st := Step(prev.line, base, merge, c);
    assert Sweep(v, base, merge, c + 1) == LinePass(st.line, prev.shifts + ToSeq(st.shift));
    TagAfterStep(i, prev.shifts, st.shift);
  }

  /** Once every distance is done, the sweep is the pass of the line. */
  lemma SweptLineEnd(h: seq<seq<int>>, alongRow: bool, isIncreasing: bool, base: int,
                     merge: (int, int) -> int, i: int, v: seq<int>,
                     cells: seq<seq<int>>, changed0: bool, changed: bool, gain0: int, gain: int)
    requires SweptLine(h, alongRow, isIncreasing, base, merge, i, v, |v|, cells, changed0, changed, gain0, gain)
    ensures cells == WithLine(h, alongRow, isIncreasing, i, Pass(v, base, merge).line)
    ensures changed == (changed0 || |Pass(v, base, merge).shifts| > 0)
    ensures gain == gain0 + Gain(Tag(i, Pass(v, base, merge).shifts))
  {
  }

  // ---------------------------------------------------------------------------
  // Empty cells, in the order a row-by-row scan finds them
  // ---------------------------------------------------------------------------

  /** The empty cells of row r among columns 0 .. c-1, left to right. */
  function EmptyIn(g: seq<seq<int>>, base: int, r: int, c: int): (s: seq<(int, int)>)
    requires IsGrid(g) && 0 <= r < |g| && 0 <= c <= Width(g)
    ensures forall k :: 0 <= k < |s| ==> s[k].0 == r && 0 <= s[k].1 < c
    decreases c
  {
    if c == 0 then []
    else EmptyIn(g, base, r, c - 1) + (if g[r][c - 1] == base then [(r, c - 1)] else [])
  }

  /** The empty cells of rows 0 .. r-1, row by row. */
  function EmptyRows(g: seq<seq<int>>, base: int, r: int): (s: seq<(int, int)>)
    requires IsGrid(g) && 0 <= r <= |g|
    ensures forall k :: 0 <= k < |s| ==> 0 <= s[k].0 < r && 0 <= s[k].1 < Width(g)
    decreases r
  {
    if r == 0 then [] else EmptyRows(g, base, r - 1) + EmptyIn(g, base, r - 1, Width(g))
  }

  /** All empty cells of the board in row-major order. */
  function EmptySlots(g: seq<seq<int>>, base: int): (s: seq<(int, int)>)
    requires IsGrid(g)
    ensures forall k :: 0 <= k < |s| ==> 0 <= s[k].0 < |g| && 0 <= s[k].1 < Width(g)
  {
    EmptyRows(g, base, |g|)
  }

  /** Row-major order of cells. */
  predicate RowMajorBefore(a: (int, int), b: (int, int))
  {
    a.0 < b.0 || (a.0 == b.0 && a.1 < b.1)
  }

  /** Every cell listed for row r is empty. */
  lemma {:induction false} EmptyInSound(g: seq<seq<int>>, base: int, r: int, c: int, k: int)
    requires IsGrid(g) && 0 <= r < |g| && 0 <= c <= Width(g) && 0 <= k < |EmptyIn(g, base, r, c)|
    ensures g[r][EmptyIn(g, base, r, c)[k].1] == base
  {
    var a := EmptyIn(g, base, r, c - 1);
    if k < |a| {
      assert EmptyIn(g, base, r, c)[k] == a[k];
      EmptyInSound(g, base, r, c - 1, k);
    }
  }

  /** An empty cell of row r before column c is listed, at index k. */
  lemma {:induction false} EmptyInComplete(g: seq<seq<int>>, base: int, r: int, c: int, j: int) returns (k: nat)
    requires IsGrid(g) && 0 <= r < |g| && 0 <= j < c <= Width(g) && g[r][j] == base
    ensures k < |EmptyIn(g, base, r, c)| && EmptyIn(g, base, r, c)[k] == (r, j)
  {
    var a := EmptyIn(g, base, r, c - 1);
    if j == c - 1 {
      k := |a|;
    } else {
      k := EmptyInComplete(g, base, r, c - 1, j);
      assert EmptyIn(g, base, r, c)[k] == a[k];
    }
  }

  lemma {:induction false} EmptyInOrdered(g: seq<seq<int>>, base: int, r: int, c: int)
    requires IsGrid(g) && 0 <= r < |g| && 0 <= c <= Width(g)
    ensures forall k, k' :: 0 <= k < k' < |EmptyIn(g, base, r, c)| ==>
              EmptyIn(g, base, r, c)[k].1 < EmptyIn(g, base, r, c)[k'].1
  {
    if c > 0 {
      EmptyInOrdered(g, base, r, c - 1);
    }
  }

  /** Every cell listed for rows 0 .. r-1 is empty. */
  lemma {:induction false} EmptyRowsSound(g: seq<seq<int>>, base: int, r: int, k: int)
    requires IsGrid(g) && 0 <= r <= |g| && 0 <= k < |EmptyRows(g, base, r)|
    ensures g[EmptyRows(g, base, r)[k].0][EmptyRows(g, base, r)[k].1] == base
  {
    var a := EmptyRows(g, base, r - 1);
    var b := EmptyIn(g, base, r - 1, Width(g));
    assert EmptyRows(g, base, r) == a + b;
    if k < |a| {
      assert (a + b)[k] == a[k];
      EmptyRowsSound(g, base, r - 1, k);
    } else {
      assert (a + b)[k] == b[k - |a|];
      EmptyInSound(g, base, r - 1, Width(g), k - |a|);
    }
  }

  /** An empty cell of rows 0 .. r-1 is listed, at index k. */
  lemma {:induction false} EmptyRowsComplete(g: seq<seq<int>>, base: int, r: int, i: int, j: int) returns (k: nat)
    requires IsGrid(g) && 0 <= i < r <= |g| && 0 <= j < Width(g) && g[i][j] == base
    ensures k < |EmptyRows(g, base, r)| && EmptyRows(g, base, r)[k] == (i, j)
  {
    var a := EmptyRows(g, base, r - 1);
    var b := EmptyIn(g, base, r - 1, Width(g));
    assert EmptyRows(g, base, r) == a + b;
    if i == r - 1 {
      var k' := EmptyInComplete(g, base, i, Width(g), j);
      k := |a| + k';
      assert (a + b)[k] == b[k'];
    } else {
      k := EmptyRowsComplete(g, base, r - 1, i, j);
      assert (a + b)[k] == a[k];
    }
  }

  /** Cells listed in row-major order. */
  ghost predicate RowMajorSorted(s: seq<(int, int)>)
  {
    forall k, k' :: 0 <= k < k' < |s| ==> RowMajorBefore(s[k], s[k'])
  }

  lemma EmptyRowsOrdered(g: seq<seq<int>>, base: int, r: int)
    requires IsGrid(g) && 0 <= r <= |g|
    ensures RowMajorSorted(EmptyRows(g, base, r))
  {
    var i := 0;
    while i < r
      invariant 0 <= i <= r && RowMajorSorted(EmptyRows(g, base, i))
    {
      EmptyInOrdered(g, base, i, Width(g));
      RowsAppendOrdered(EmptyRows(g, base, i), EmptyIn(g, base, i, Width(g)), i);
      assert EmptyRows(g, base, i + 1) == EmptyRows(g, base, i) + EmptyIn(g, base, i, Width(g));
      i := i + 1;
    }
  }

  /** Cells of rows before `row`, then cells of row `row` by column, are in row-major order. */
  lemma RowsAppendOrdered(a: seq<(int, int)>, b: seq<(int, int)>, row: int)
    requires RowMajorSorted(a)
    requires forall k :: 0 <= k < |a| ==> a[k].0 < row
    requires forall k :: 0 <= k < |b| ==> b[k].0 == row
    requires forall k, k' :: 0 <= k < k' < |b| ==> b[k].1 < b[k'].1
    ensures RowMajorSorted(a + b)
  {
    forall k, k' | 0 <= k < k' < |a + b| ensures RowMajorBefore((a + b)[k], (a + b)[k'])
    {
      if k' < |a| {
        assert (a + b)[k] == a[k] && (a + b)[k'] == a[k'];
      } else if k < |a| {
        assert (a + b)[k] == a[k] && (a + b)[k'] == b[k' - |a|];
      } else {
        assert (a + b)[k] == b[k - |a|] && (a + b)[k'] == b[k' - |a|];
      }
    }
  }

  /** A scan of the board lists exactly its empty cells, each once, in row-major order. */
  lemma EmptySlotsExact(g: seq<seq<int>>, base: int)
    requires IsGrid(g)
    ensures forall p :: p in EmptySlots(g, base) <==>
              0 <= p.0 < |g| && 0 <= p.1 < Width(g) && g[p.0][p.1] == base
    ensures forall k, k' :: 0 <= k < k' < |EmptySlots(g, base)| ==>
              RowMajorBefore(EmptySlots(g, base)[k], EmptySlots(g, base)[k'])
  {
    var s := EmptySlots(g, base);
    forall p: (int, int) ensures p in s <==> 0 <= p.0 < |g| && 0 <= p.1 < Width(g) && g[p.0][p.1] == base {
      if p in s {
        var k :| 0 <= k < |s| && s[k] == p;
        EmptyRowsSound(g, base, |g|, k);
      }
      if 0 <= p.0 < |g| && 0 <= p.1 < Width(g) && g[p.0][p.1] == base {
        var k := EmptyRowsComplete(g, base, |g|, p.0, p.1);
        assert s[k] == p;
      }
    }
    EmptyRowsOrdered(g, base, |g|);
  }

  /** A pass that records a transition leaves at least one empty cell. */
  lemma PassLeavesEmptySlot(g: seq<seq<int>>, alongRow: bool, isIncreasing: bool, base: int,
                            merge: (int, int) -> int)
    requires IsGrid(g)
    requires NeverEmpties(merge, base)
    requires Moves(g, alongRow, isIncreasing, base, merge) != []
    ensures |EmptySlots(PassGrid(g, alongRow, isIncreasing, base, merge), base)| > 0
  {
    var g' := PassGrid(g, alongRow, isIncreasing, base, merge);
    PassGridHasRoom(g, alongRow, isIncreasing, base, merge);
    var r, c :| 0 <= r < |g| && 0 <= c < Width(g) && g'[r][c] == base;
    var k := EmptyRowsComplete(g', base, |g'|, r, c);
  }
}
