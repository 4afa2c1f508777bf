/**
 * The console game (2048.cs): a 4 x 4 board of numbers where 0 is an empty
 * cell, a score, and the four moves.  A move sweeps every line toward one
 * edge; a tile lands on the first occupied cell toward that edge, merging
 * into it (the destination doubles) when the two values are equal, and
 * otherwise stopping just behind it.
 */
module Game2048 {
  import opened Optional
  import opened Compaction
  import opened Grid
  import opened Utils

  datatype Direction = Up | Down | Right | Left

  /** Left and Right sweep rows; Up and Down sweep columns. */
  function IsAlongRow(direction: Direction): bool
  {
    direction == Left || direction == Right
  }

  /** Left and Up move tiles toward index 0. */
  function IsIncreasing(direction: Direction): bool
  {
    direction == Left || direction == Up
  }

  /** The four directions are the four combinations of the two flags. */
  lemma DirectionsAreFlags(d1: Direction, d2: Direction)
    ensures IsAlongRow(d1) == IsAlongRow(d2) && IsIncreasing(d1) == IsIncreasing(d2) ==> d1 == d2
    ensures exists d :: IsAlongRow(d) == IsAlongRow(d1) && IsIncreasing(d) == !IsIncreasing(d1)
  {
    var d := match d1 case Up => Down case Down => Up case Left => Right case Right => Left;
    assert IsAlongRow(d) == IsAlongRow(d1) && IsIncreasing(d) == !IsIncreasing(d1);
  }

  /** The value a merge writes: the destination tile doubled. */
  function Double(newValue: int, oldValue: int): int
  {
    newValue * 2
  }

  /** Doubling is the numeric policy: merging x with x gives x + x, never 0 when x is a tile. */
  lemma DoubleIsNumeric()
    ensures Additive(Double) && NeverEmpties(Double, 0)
  {
    forall x ensures Double(x, x) == x + x {
    }
  }

  /** The static Game.Update(board, direction, out score): sweeps every line of `board` toward the edge `direction`
      names, in place.  It reports whether anything moved and the sum of the
      tiles created by merges. */
  method UpdateBoard(board: array2<int>, direction: Direction) returns (hasUpdated: bool, score: int)
    requires Sweepable(board.Length0, board.Length1)
    modifies board
    ensures Cells(board) == PassGrid(old(Cells(board)), IsAlongRow(direction), IsIncreasing(direction), 0, Double)
    ensures score == Gain(Moves(old(Cells(board)), IsAlongRow(direction), IsIncreasing(direction), 0, Double))
    ensures hasUpdated <==> Moves(old(Cells(board)), IsAlongRow(direction), IsIncreasing(direction), 0, Double) != []
  {
    var isAlongRow := direction == Direction.Left || direction == Direction.Right;
    var isIncreasing := direction == Direction.Left || direction == Direction.Up;
    ghost var g := Cells(board);
    ghost var rs := LinePassesExist(g, isAlongRow, isIncreasing, 0, Double);
    hasUpdated, score := UpdateLines(board, isAlongRow, isIncreasing, g, rs);
    PassedLinesEnd(g, isAlongRow, isIncreasing, 0, Double, rs, Cells(board), hasUpdated, score);
  }

  /** The two loops of Game.Update once the direction is read as its two flags;
      `rs` holds the pass of every line of the board `g` they start from. */
  method UpdateLines(board: array2<int>, isAlongRow: bool, isIncreasing: bool,
                     ghost g: seq<seq<int>>, ghost rs: seq<LinePass>) returns (hasUpdated: bool, score: int)
    requires Sweepable(board.Length0, board.Length1)
    requires g == Cells(board) && LinePasses(g, isAlongRow, isIncreasing, 0, Double, rs)
    modifies board
    ensures PassedLines(g, isAlongRow, isIncreasing, 0, Double, rs, |rs|, Cells(board), hasUpdated, score)
  {
    var nRows := board.Length0;
    var nCols := board.Length1;
    score := 0;
    hasUpdated := false;
    var outterCount := if isAlongRow then nRows else nCols;
    var innerCount := if isAlongRow then nCols else nRows;
    var innerStart := if isIncreasing then 0 else innerCount - 1;
    var innerEnd := if isIncreasing then innerCount - 1 else 0;
    assert outterCount == |rs| && innerCount == InnerCount(g, isAlongRow);
    PassedLinesStart(g, isAlongRow, isIncreasing, 0, Double, rs);
    var i := 0;
    while i < outterCount
      invariant 0 <= i <= outterCount
      invariant PassedLines(g, isAlongRow, isIncreasing, 0, Double, rs, i, Cells(board), hasUpdated, score)
    {
      hasUpdated, score := UpdateLine(board, isAlongRow, isIncreasing, innerCount, innerStart, innerEnd, i,
                                      hasUpdated, score, g, rs);
      i := i + 1;
    }
  }

  /** One iteration of the outer loop of Game.Update: line i of the board,
      whose lines before i are already passed, is passed in turn. */
  method UpdateLine(board: array2<int>, isAlongRow: bool, isIncreasing: bool,
                    innerCount: int, innerStart: int, innerEnd: int, i: int,
                    hasUpdated0: bool, score0: int, ghost g: seq<seq<int>>, ghost rs: seq<LinePass>)
    returns (hasUpdated: bool, score: int)
    requires LinePasses(g, isAlongRow, isIncreasing, 0, Double, rs)
    requires PassedLines(g, isAlongRow, isIncreasing, 0, Double, rs, i, Cells(board), hasUpdated0, score0)
    requires i < OuterCount(g, isAlongRow) && innerCount == InnerCount(g, isAlongRow) > 0
    requires innerStart == InnerStart(isIncreasing, innerCount) && innerEnd == InnerEnd(isIncreasing, innerCount)
    modifies board
    ensures PassedLines(g, isAlongRow, isIncreasing, 0, Double, rs, i + 1, Cells(board), hasUpdated, score)
  {
    ghost var v := LineOf(g, isAlongRow, isIncreasing, i);
    ghost var h := Cells(board);
    WithLineStart(g, isAlongRow, isIncreasing, 0, Double, i);
    hasUpdated, score := SweepLine(board, isAlongRow, isIncreasing, innerCount, innerStart, innerEnd, i,
                                   hasUpdated0, score0, h, v);
    PassedLinesNext(g, isAlongRow, isIncreasing, 0, Double, rs, i, h, hasUpdated0, score0);
  }

  /** The inner loop of Game.Update: sweeps line i from the target edge
      outward.  `h` is the board apart from line i, and `v` line i in
      edge-distance order. */
  method SweepLine(board: array2<int>, isAlongRow: bool, isIncreasing: bool,
                   innerCount: int, innerStart: int, innerEnd: int, i: int,
                   hasUpdated0: bool, score0: int, ghost h: seq<seq<int>>, ghost v: seq<int>)
    returns (hasUpdated: bool, score: int)
    requires IsGrid(h) && 0 <= i < OuterCount(h, isAlongRow)
    requires innerCount == |v| == InnerCount(h, isAlongRow) > 0
    requires innerStart == InnerStart(isIncreasing, innerCount) && innerEnd == InnerEnd(isIncreasing, innerCount)
    requires Cells(board) == WithLine(h, isAlongRow, isIncreasing, i, v)
    modifies board
    ensures Cells(board) == WithLine(h, isAlongRow, isIncreasing, i, Pass(v, 0, Double).line)
    ensures hasUpdated == (hasUpdated0 || |Pass(v, 0, Double).shifts| > 0)
    ensures score == score0 + Gain(Tag(i, Pass(v, 0, Double).shifts))
  {
    hasUpdated, score := hasUpdated0, score0;
    var j := innerStart;
    ghost var c := 0;
    InnerConditionOnLine(isIncreasing, innerCount, j, c);
    DropByDistance(isIncreasing, innerCount, c, j);
    SweptLineStart(h, isAlongRow, isIncreasing, 0, Double, i, v, hasUpdated0, score0);
    while IsInnerCondition(j, innerStart, innerEnd)
      invariant 0 <= c <= innerCount && j == InnerIndex(isIncreasing, innerCount, c)
      invariant IsInnerCondition(j, innerStart, innerEnd) <==> c < innerCount
      invariant SweptLine(h, isAlongRow, isIncreasing, 0, Double, i, v, c, Cells(board), hasUpdated0, hasUpdated,
                          score0, score)
      decreases innerCount - c
    {
      hasUpdated, score := SweepTile(board, isAlongRow, isIncreasing, innerCount, innerStart, innerEnd, i, j,
                                     h, v, c, hasUpdated0, hasUpdated, score0, score);
      DropByDistance(isIncreasing, innerCount, c, j);
      j := Drop(!isIncreasing, j);
      c := c + 1;
      InnerConditionOnLine(isIncreasing, innerCount, j, c);
    }
    SweptLineEnd(h, isAlongRow, isIncreasing, 0, Double, i, v, Cells(board), hasUpdated0, hasUpdated, score0, score);
  }

  /** One iteration of the inner loop of Game.Update, as a step of the sweep of line i. */
  method SweepTile(board: array2<int>, isAlongRow: bool, isIncreasing: bool,
                   innerCount: int, innerStart: int, innerEnd: int, i: int, j: int,
                   ghost h: seq<seq<int>>, ghost v: seq<int>, ghost c: int,
                   ghost hasUpdated0: bool, hasUpdated: bool, ghost score0: int, score: int)
    returns (hasUpdated': bool, score': int)
    requires SweptLine(h, isAlongRow, isIncreasing, 0, Double, i, v, c, Cells(board), hasUpdated0, hasUpdated,
                       score0, score)
    requires innerCount == |v| && c < innerCount && j == InnerIndex(isIncreasing, innerCount, c)
    requires innerStart == InnerStart(isIncreasing, innerCount) && innerEnd == InnerEnd(isIncreasing, innerCount)
    modifies board
    ensures SweptLine(h, isAlongRow, isIncreasing, 0, Double, i, v, c + 1, Cells(board), hasUpdated0, hasUpdated',
                      score0, score')
  {
    ghost var cells := Cells(board);
    var moved, gained := UpdateTile(board, isAlongRow, isIncreasing, innerCount, innerStart, innerEnd, i, j,
                                    h, Sweep(v, 0, Double, c).line, c);
    SweptLineNext(h, isAlongRow, isIncreasing, 0, Double, i, v, c, cells, hasUpdated0, hasUpdated, score0, score,
                  Cells(board), moved, gained);
    hasUpdated' := hasUpdated || moved;
    score' := score + gained;
  }

  /** The body of the inner loop of Game.Update: the tile at distance c of
      line i (inner index j) is skipped when empty, and otherwise probed toward
      the edge and merged or stacked. */
  method UpdateTile(board: array2<int>, isAlongRow: bool, isIncreasing: bool,
                    innerCount: int, innerStart: int, innerEnd: int, i: int, j: int,
                    ghost h: seq<seq<int>>, ghost line: seq<int>, ghost c: int)
    returns (moved: bool, gained: int)
    requires IsGrid(h) && 0 <= i < OuterCount(h, isAlongRow)
    requires innerCount == |line| == InnerCount(h, isAlongRow)
    requires innerStart == InnerStart(isIncreasing, innerCount) && innerEnd == InnerEnd(isIncreasing, innerCount)
    requires 0 <= c < innerCount && j == InnerIndex(isIncreasing, innerCount, c)
    requires Cells(board) == WithLine(h, isAlongRow, isIncreasing, i, line)
    modifies board
    ensures Cells(board) == WithLine(h, isAlongRow, isIncreasing, i, Step(line, 0, Double, c).line)
    ensures moved <==> Step(line, 0, Double, c).shift.Some?
    ensures gained == if Step(line, 0, Double, c).shift.Some? && Step(line, 0, Double, c).shift.value.merged
                      then Step(line, 0, Double, c).shift.value.value else 0
  {
    moved, gained := false, 0;
    AtWithLine(h, isAlongRow, isIncreasing, i, line, c);
    if GetValue(isAlongRow, board, i, j).Value == 0 {
      return;
    }
    var newJ := CalculateNewItem(board, isAlongRow, isIncreasing, innerStart, innerEnd, 0, i, j, h, line, c);
    var landing := MoveTile(board, isAlongRow, isIncreasing, innerStart, innerEnd, 0, Double, i, j, newJ, h, line, c);
    if landing.Some? {
      moved := true;
      if landing.value.merged {
        gained := landing.value.value;
      }
    }
  }

  /** The tile PutNewValue writes for a roll of random.Next(0, 100): 2 below 95, else 4. */
  function NewTile(roll: int): (value: int)
    ensures value == 2 || value == 4
    ensures value == 2 <==> roll < 95
  {
    if roll < 95 then 2 else 4
  }

  /** Board.Clone(): a fresh array with the same dimensions and cells. */
  method CloneBoard(board: array2<int>) returns (clone: array2<int>)
    ensures fresh(clone)
    ensures clone.Length0 == board.Length0 && clone.Length1 == board.Length1
    ensures Cells(clone) == Cells(board)
  {
    clone := new int[board.Length0, board.Length1]((r, c) reads board =>
      if 0 <= r < board.Length0 && 0 <= c < board.Length1 then board[r, c] else 0);
    forall r | 0 <= r < board.Length0 ensures Cells(clone)[r] == Cells(board)[r] {
    }
  }

  /** `ms` holds the transitions of every direction on the board `g`.  (The
      trigger lets a proof use this fact only for a direction it names.) */
  ghost predicate DirectionMoves(g: seq<seq<int>>, ms: map<Direction, seq<Move>>)
  {
    IsGrid(g) && (forall d: Direction :: d in ms)
    && forall d {:trigger ms[d]} :: ms[d] == Moves(g, IsAlongRow(d), IsIncreasing(d), 0, Double)
  }

  /** Every board has the transitions of its four moves. */
  lemma DirectionMovesExist(g: seq<seq<int>>) returns (ms: map<Direction, seq<Move>>)
    requires IsGrid(g)
    ensures DirectionMoves(g, ms)
  {
    ms := map[Up := Moves(g, IsAlongRow(Up), IsIncreasing(Up), 0, Double),
              Down := Moves(g, IsAlongRow(Down), IsIncreasing(Down), 0, Double),
              Right := Moves(g, IsAlongRow(Right), IsIncreasing(Right), 0, Double),
              Left := Moves(g, IsAlongRow(Left), IsIncreasing(Left), 0, Double)];
    forall d: Direction ensures d in ms && ms[d] == Moves(g, IsAlongRow(d), IsIncreasing(d), 0, Double) {
      match d
      case Up =>
      case Down =>
      case Right =>
      case Left =>
    }
  }

  /** Game.Update on a clone of the board: reports whether the move would
      change anything, and leaves the board itself alone. */
  method UpdateClone(board: array2<int>, direction: Direction, ghost ms: map<Direction, seq<Move>>)
    returns (isUpdated: bool)
    requires Sweepable(board.Length0, board.Length1) && DirectionMoves(Cells(board), ms)
    ensures isUpdated <==> ms[direction] != []
  {
    var clone := CloneBoard(board);
    var score;
    isUpdated, score := UpdateBoard(clone, direction);
  }

  /** The running game: a 4 x 4 board and the score.  Random numbers are the
      parameters `slot` and `roll` of PutNewValue. */
  class Game {
    var Score: int
    const Board: array2<int>
    const nRows: int
    const nCols: int

    ghost predicate Valid()
      reads this
    {
      nRows == Board.Length0 && nCols == Board.Length1 && Sweepable(nRows, nCols)
    }

    /** A new game: a 4 x 4 board of empty cells and a score of 0. */
    constructor()
      ensures Valid() && fresh(Board)
      ensures nRows == 4 && nCols == 4 && Score == 0
      ensures forall r, c :: 0 <= r < 4 && 0 <= c < 4 ==> Cells(Board)[r][c] == 0
    {
      Board := new int[4, 4]((r, c) => 0);
      nRows := 4;
      nCols := 4;
      Score := 0;
    }

    /** Update(dir): one move on the board; the score grows by the merged values. */
    method Update(direction: Direction) returns (isUpdated: bool)
      requires Valid()
      modifies Board, this`Score
      ensures Valid()
      ensures Cells(Board) == PassGrid(old(Cells(Board)), IsAlongRow(direction), IsIncreasing(direction), 0, Double)
      ensures Score == old(Score) + Gain(Moves(old(Cells(Board)), IsAlongRow(direction), IsIncreasing(direction), 0, Double))
      ensures isUpdated <==> Moves(old(Cells(Board)), IsAlongRow(direction), IsIncreasing(direction), 0, Double) != []
    {
      var score;
      isUpdated, score := UpdateBoard(Board, direction);
      Score := Score + score;
    }

    /** IsDead: tries the four moves on copies of the board; dead when none changes anything. */
    method IsDead() returns (dead: bool)
      requires Valid()
      ensures dead <==> forall d: Direction :: Moves(Cells(Board), IsAlongRow(d), IsIncreasing(d), 0, Double) == []
    {
      ghost var ms := DirectionMovesExist(Cells(Board));
      var directions := [Direction.Down, Direction.Up, Direction.Left, Direction.Right];
      for k := 0 to 4
        invariant forall k' :: 0 <= k' < k ==> ms[directions[k']] == []
      {
        var isUpdated := UpdateClone(Board, directions[k], ms);
        if isUpdated {
          return false;
        }
      }
      forall d: Direction ensures Moves(Cells(Board), IsAlongRow(d), IsIncreasing(d), 0, Double) == [] {
        assert d == directions[match d case Down => 0 case Up => 1 case Left => 2 case Right => 3];
        assert ms[d] == [];
      }
      return true;
    }

    /** PutNewValue: lists the empty cells row by row, then writes NewTile(roll)
        into the one at index `slot`.  `slot` is what random.Next(0, count) returns:
        below count, or 0 when count is 0; on a full board the list index is out of
        range, the write never happens, and `thrown` reports the exception. */
    method PutNewValue(slot: int, roll: int) returns (thrown: bool)
      requires Valid()
      requires 0 <= slot < |EmptySlots(Cells(Board), 0)| || slot == 0
      modifies Board
      ensures thrown <==> |EmptySlots(old(Cells(Board)), 0)| == 0
      ensures thrown ==> Cells(Board) == old(Cells(Board))
      ensures !thrown ==>
                var (r, c) := EmptySlots(old(Cells(Board)), 0)[slot];
                Cells(Board) == Put(old(Cells(Board)), r, c, NewTile(roll))
    {
      ghost var g := Cells(Board);
      var emptySlots: seq<(int, int)> := [];
      for iRow := 0 to nRows
        invariant emptySlots == EmptyRows(g, 0, iRow)
      {
        for iCol := 0 to nCols
          invariant emptySlots == EmptyRows(g, 0, iRow) + EmptyIn(g, 0, iRow, iCol)
        {
          if Board[iRow, iCol] == 0 {
            emptySlots := emptySlots + [(iRow, iCol)];
          }
        }
      }
      if slot >= |emptySlots| {
        return true;
      }
      EmptySlotsExact(g, 0);
      assert emptySlots[slot] in EmptySlots(g, 0);
      thrown := false;
      var value := if roll < 95 then 2 else 4;
      SetValue(true, Board, emptySlots[slot].0, emptySlots[slot].1, value);
    }
  }

  /** IsDead's verdict in terms of the board: no direction records a transition
      exactly when every direction leaves the board as it is. */
  lemma DeadIffStuck(g: seq<seq<int>>)
    requires IsGrid(g)
    ensures (forall d: Direction :: Moves(g, IsAlongRow(d), IsIncreasing(d), 0, Double) == []) <==>
            (forall d: Direction :: PassGrid(g, IsAlongRow(d), IsIncreasing(d), 0, Double) == g)
  {
    DoubleIsNumeric();
    forall d: Direction
      ensures Moves(g, IsAlongRow(d), IsIncreasing(d), 0, Double) == [] <==>
              PassGrid(g, IsAlongRow(d), IsIncreasing(d), 0, Double) == g
    {
      PassGridUnchangedIff(g, IsAlongRow(d), IsIncreasing(d), 0, Double);
    }
  }

  /** On a full board IsDead's verdict is a plain board property: no two
      neighbouring tiles are equal, neither in a row nor in a column. */
  lemma DeadIffNoEqualNeighbours(g: seq<seq<int>>)
    requires FullGrid(g, 0)
    ensures (forall d: Direction :: Moves(g, IsAlongRow(d), IsIncreasing(d), 0, Double) == []) <==>
            RowsDistinct(g) && ColumnsDistinct(g)
  {
    forall d: Direction
      ensures Moves(g, IsAlongRow(d), IsIncreasing(d), 0, Double) == [] <==>
              if IsAlongRow(d) then RowsDistinct(g) else ColumnsDistinct(g)
    {
      FullGridStuckIff(g, IsAlongRow(d), IsIncreasing(d), 0, Double);
    }
    assert IsAlongRow(Left) && !IsAlongRow(Up);
  }

  /** Run calls PutNewValue only after a move that reported an update; such a
      move always leaves an empty cell, so that call never throws. */
  lemma UpdateLeavesRoom(g: seq<seq<int>>, direction: Direction)
    requires IsGrid(g)
    requires Moves(g, IsAlongRow(direction), IsIncreasing(direction), 0, Double) != []
    ensures |EmptySlots(PassGrid(g, IsAlongRow(direction), IsIncreasing(direction), 0, Double), 0)| > 0
  {
    DoubleIsNumeric();
    PassLeavesEmptySlot(g, IsAlongRow(direction), IsIncreasing(direction), 0, Double);
  }

  /** A move keeps the sum of all tiles, and each merge it records empties
      exactly one cell. */
  lemma {:induction false} MoveKeepsSum(g: seq<seq<int>>, direction: Direction)
    requires IsGrid(g)
    ensures GridTotal(PassGrid(g, IsAlongRow(direction), IsIncreasing(direction), 0, Double), Mass, 0)
         == GridTotal(g, Mass, 0)
    ensures GridTotal(PassGrid(g, IsAlongRow(direction), IsIncreasing(direction), 0, Double), Occupancy, 0)
         == GridTotal(g, Occupancy, 0) - MergeCount(Moves(g, IsAlongRow(direction), IsIncreasing(direction), 0, Double))
  {
    DoubleIsNumeric();
    PassGridMass(g, IsAlongRow(direction), IsIncreasing(direction), Double);
    PassGridOccupancy(g, IsAlongRow(direction), IsIncreasing(direction), 0, Double);
  }
}
