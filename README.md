# 2048 rules engine, modelled in Dafny

This project models the rules core of kflu/2048. It has three engines and the
helpers they share:

- the console game `Game` (2048.cs): a 4 x 4 board of numbers where 0 is empty;
- the reusable engine `Core` (Core.cs): a board with a configurable empty value and merge function, a score and a map of transitions;
- the stand-alone sweep `UpdateLoop` (UpdateLoop.cs);
- the direction helpers (Utils.cs) and the `Element` record (Element.cs).

A move sweeps every line of the board toward one edge. Each line is walked
from that edge outward. Each tile probes toward the edge past empty cells.
If the first tile it meets holds the same value, it merges into that tile, and
nothing stops a merged tile from merging again later in the same move. If the
values differ, the tile stops just behind the tile it met.

The model keeps the source's own form:

- Update, the probe loop, UpdatingElement and the constructors are imperative
  methods on `array2<int>` and on classes whose fields they update.
- Each method is proved against pure specification functions on board
  snapshots (`seq<seq<int>>`):
  - `Compaction.Sweep`/`Pass` for one line, read in edge-distance order;
  - `Grid.PassGrid` and `Grid.Moves` for the board;
  - `Transitions.TransitionMap` for the returned dictionary.
- The properties are proved about those functions:
  - the result equals an independent "stack the tiles, merging equal
    neighbours" definition;
  - tile sum and tile count are accounted for;
  - the map has exactly one entry per moved tile;
  - a move that reports an update leaves an empty cell;
  - on a full board "no move" is equivalent to "no two equal neighbours".
- "A move changes the board exactly when it records a transition" holds for
  every merge function. The tile-count, "leaves an empty cell" and
  reference-compaction lemmas assume the merge function never returns the
  empty value (`NeverEmpties`). The game's `Double` meets this
  (`Game2048.DoubleIsNumeric`); Core's configurable `MergeElements` may not.

Modules:

- `Optional`: `Option`.
- `Elements`: Element.cs.
- `Compaction`: one line.
- `Grid`: the board view of a sweep.
- `Utils`: Utils.cs, plus the probe and move steps shared by all three engines.
- `Transitions`: the dictionary of transitions.
- `Game2048`: 2048.cs.
- `Cores`: Core.cs.
- `UpdateLoops`: UpdateLoop.cs.

Randomness enters as parameters. An access the source makes with an index out
of range throws an exception there. The model gives `None`, or a `thrown`
flag, instead.

## Model

| member | source | states |
|---|---|---|
| Elements.EqualsObject | Element.cs:16-28 | Equals(object) is true exactly for an Element with the same row, column and value; null and other types give false |
| Elements.EqualsElement | Element.cs:30-33 | Equals(Element) is true exactly when the three fields agree |
| Elements.EqualsIsEquivalence | Element.cs:16-33 | both overloads agree on elements, and Equals is reflexive, symmetric and transitive |
| Elements.HashAgreesWithEquals | Element.cs:35-44 | equal elements have equal hash codes under the wrapping 32-bit `hash * 397 ^ field` scheme, as Dictionary needs |
| Utils.DropByDistance | Utils.cs:8-13 | drop moves one cell closer to the target edge and the reverse drop one cell away; each undoes the other; the sweep's start and end are distances 0 and n-1 (Core's private DropFactory is the same function) |
| Utils.InnerConditionOnLine | Utils.cs:33-39 | IsInnerCondition is symmetric in start and end; on a non-empty line it holds exactly for indices on the line; on an empty line it still admits the start index (Core's private copy is the same test) |
| Utils.GetValue | Utils.cs:15-22 | the element is labelled (outerItem, innerItem) in both modes and carries the value of that line's cell |
| Utils.SetValue | Utils.cs:24-31 | writes exactly the cell at inner index innerItem of line outerItem; no other cell changes (Core's SetValueFactory writes the same cell) |
| Utils.ReadAfterWrite | Utils.cs:15-31 | reading back a written cell gives the value written; every other cell reads as before |
| Utils.CalculateNewItem | Core.cs:217-227 | the probe stops at the nearest non-empty cell toward the edge, or one step past the edge when there is none |
| Utils.MergeTile | Core.cs:79-91 | an equal tile merges: the destination gets merge(destination, source) and the source becomes empty, as one step of the line specification |
| Utils.StackTile | Core.cs:92-100 | an unequal or edge stop puts the tile just behind the probe; there is a transition only when it left its cell |
| Utils.MoveTile | Core.cs:76-104 | the board after one tile is the line specification's step; the landing is reported exactly when the step records a transition |
| Compaction.Probe | 2048.cs:168-174 | the probe result is -1 or a non-empty cell, and every cell strictly between it and the tile is empty |
| Compaction.ProbeUnique | 2048.cs:168-174 | any index with those properties is the probe result |
| Compaction.StepVacates | 2048.cs:176-204 | a moving tile empties its own cell and writes its value at a smaller distance |
| Compaction.StepDistance | 2048.cs:176-204 | a step without a transition leaves the line as it is; one with a transition strictly lowers the total distance of the tiles from the edge |
| Compaction.SweepCompacts | 2048.cs:161-205 | after the first c tiles the line is their compaction followed by the untouched rest (the inner loop's invariant) |
| Compaction.PassCompacts | 2048.cs:159-206 | a swept line equals the reference: its tiles in order, each merged into the last stacked tile when equal (merges chain), then empty cells |
| Compaction.PassPacks | 2048.cs:159-206 | after the sweep no empty cell lies before a tile |
| Compaction.SweepChangesIffShifts | 2048.cs:184-199 | the line changes exactly when a transition is recorded |
| Compaction.SweepOccupancy | 2048.cs:180-182 | the number of tiles drops by exactly the number of merges |
| Compaction.SweepMass | 2048.cs:180-182 | with empty value 0 and an additive merge the sum of the line is kept |
| Compaction.SweepShiftsOrdered | 2048.cs:161-205 | transitions are recorded in increasing source order and each moves toward the edge |
| Compaction.FullLineStuckIff | 2048.cs:174-199 | a line with no empty cell records no transition exactly when no two neighbours are equal |
| Compaction.FullSweepMerges | 2048.cs:176-186 | in a full line whose first equal neighbours are k - 1 and k, the sweep up to tile k records exactly one transition: tile k merges into tile k - 1 with value merge(v[k - 1], v[k]) |
| Compaction.SweepShiftsGrow | 2048.cs:161-205 | transitions are only ever appended while the line is swept: those recorded after c tiles are a prefix of those recorded after any later tile |
| Grid.LineOfPassGrid | 2048.cs:159-206 | each line of the board after a move is the sweep of that line on its own |
| Grid.PassGridCompacts | 2048.cs:159-206 | each line after a move is the reference compaction of the line before, and is packed |
| Grid.PassMovesEmpty | 2048.cs:159-208 | a move records no transition exactly when no line does |
| Grid.PassGridUnchangedIff | 2048.cs:184-208 | a move records a transition exactly when it changes the board |
| Grid.FullGridStuckIff | 2048.cs:219-233 | on a full board a direction along rows (columns) changes nothing exactly when no row (column) has two equal neighbours |
| Grid.PassGridMass | 2048.cs:180-203 | with empty value 0 and an additive merge a move keeps the board's sum |
| Grid.PassGridOccupancy | 2048.cs:180-203 | a move lowers the number of tiles by its number of merges |
| Grid.PassMovesOrdered | 2048.cs:159-205 | transitions come line by line, in increasing source order within a line |
| Grid.PassGridHasRoom | 2048.cs:184-199 | a move that records a transition leaves an empty cell |
| Grid.PassLeavesEmptySlot | 2048.cs:260-273 | after such a move the list of empty slots is not empty |
| Grid.EmptySlotsExact | 2048.cs:260-270 | the scan lists exactly the empty cells, each once, in row-major order |
| Grid.PassedLinesEnd | 2048.cs:159-208 | the outer loop's invariant at its end gives the swept board, the gain of all merges, and the update flag |
| Transitions.Source | Core.cs:89 | the key added for a moved tile is the vacated cell, read after the writes, so it holds the empty value |
| Transitions.Target | Core.cs:103 | the value added is the landing cell, read after the writes, so it holds the written value |
| Transitions.TransitionMapExact | Core.cs:63-103 | for transitions in sweep order the dictionary has one entry per transition, source to target, and no other key |
| Transitions.MappedLineNext | Core.cs:89-103 | the key a step adds is not yet in the dictionary, so Dictionary.Add never throws |
| Transitions.MappedLinesEnd | Core.cs:70-108 | the dictionary after all lines is the map of all transitions of the move |
| Transitions.PassMapExact | Core.cs:55-109 | the dictionary of a whole move has exactly one entry per transition and no other key |
| Transitions.MapAfterAppend | Core.cs:63-103 | adding the entries of two runs of transitions in turn is adding those of both |
| Game2048.DirectionsAreFlags | 2048.cs:131-134 | the four directions are exactly the four combinations of the two flags |
| Game2048.DoubleIsNumeric | 2048.cs:180 | doubling is additive and never produces the empty value 0 from a tile |
| Game2048.UpdateBoard | 2048.cs:120-209 | the board becomes the swept board; score is the sum of merged values; the result is true exactly when a transition was recorded |
| Game2048.UpdateLines | 2048.cs:159-206 | the outer loop keeps: lines before i are swept, the rest untouched, and flag and score cover lines before i |
| Game2048.SweepLine | 2048.cs:161-205 | line i becomes its sweep; the flag and the score are updated with its transitions |
| Game2048.UpdateTile | 2048.cs:163-204 | one tile: the line becomes the specification's step, moved exactly when the step has a transition, and the gain is the merged value |
| Game2048.NewTile | 2048.cs:274 | the new tile is 2 exactly when the roll is below 95, else 4 |
| Game2048.CloneBoard | 2048.cs:224 | a fresh array with the same cells |
| Game2048.UpdateClone | 2048.cs:224-225 | trying a move on a clone reports whether that direction records a transition |
| Game2048.Game.constructor | 2048.cs:27-33 | a 4 x 4 board of zeros and score 0 |
| Game2048.Game.Update | 2048.cs:211-217 | the board becomes the swept board; Score grows by the merged values; the result says whether anything moved |
| Game2048.Game.IsDead | 2048.cs:219-233 | dead exactly when none of the four directions records a transition |
| Game2048.DeadIffStuck | 2048.cs:219-233 | that is exactly: every direction leaves the board unchanged |
| Game2048.DeadIffNoEqualNeighbours | 2048.cs:219-233 | on a full board dead means no two horizontally or vertically neighbouring tiles are equal |
| Game2048.Game.PutNewValue | 2048.cs:257-276 | writes NewTile(roll) into the chosen empty slot and changes nothing else; on a full board the list index throws and the board is unchanged |
| Game2048.UpdateLeavesRoom | 2048.cs:272-275 | after a move that reported an update there is an empty slot, so the next PutNewValue does not throw |
| Game2048.MoveKeepsSum | 2048.cs:176-204 | a move keeps the sum of the tiles and removes one tile per merge |
| Cores.Core.constructor | Core.cs:33-42 | dimensions, score (default 0), empty value (default 0), the merge function, and every cell set to the empty value |
| Cores.Core.GetValue | Core.cs:44-47 | the cell's value for indices in range, None otherwise |
| Cores.Core.SetValue | Core.cs:49-53 | writes exactly the element's cell and returns the element; afterwards Include holds |
| Cores.Core.CheckIfEmpty | Core.cs:111-114 | true exactly when the cell holds the empty value |
| Cores.Core.Include | Core.cs:179-182 | true exactly when the element's cell holds the element's value |
| Cores.Core.ForEach | Core.cs:168-177 | the elements handed to the action, row by row, with element (row, column) carrying cell (column, row) |
| Cores.ForEachExact | Core.cs:168-177 | on a square board ForEach visits every cell exactly once in row-major order, each with its transposed value |
| Cores.Mapped | Core.cs:158-166 | the board after MapperElements has the same dimensions |
| Cores.Core.MapperElements | Core.cs:158-166 | the board becomes Mapped(old board, mapper); above the diagonal the mapper sees the value already written below it |
| Cores.MappedIdentityMirrors | Core.cs:158-177 | with the identity mapper every cell gets the value of its lower-triangle mirror |
| Cores.MapperIdentityErases | Core.cs:174 | the identity mapper turns [[0, 2], [0, 0]] into [[0, 0], [0, 0]] |
| Cores.MappedAsIntendedIdentity | Core.cs:158-166 | with each cell read at its own index the identity mapper keeps every board |
| Cores.MappedIgnoringValues | Core.cs:41 | for a mapper that ignores the value, as the constructor's, both readings give the same board |
| Cores.Core.IsGameOver | Core.cs:116-134 | throws exactly on boards at least 2 x 2, and otherwise returns true |
| Cores.Core.IsGameOverAsIntended | Core.cs:116-134 | false exactly when two horizontally or vertically neighbouring cells are equal |
| Cores.CheckedAll | Core.cs:119-131 | checking every cell's right and lower neighbour checks every row and every column |
| Cores.Core.EmptyCells | Core.cs:138-148 | the list of cells CheckIfEmpty accepts, row by row: exactly the empty cells |
| Cores.Core.NewElement | Core.cs:136-156 | the chosen empty cell with the standard value when the roll is below ChanceBetterValue, else the better value; None exactly on a full board |
| Cores.Core.GetValueAt | Core.cs:191-198 | the element is labelled with its own row and column and carries that cell's value |
| Cores.Core.UpdateElements | Core.cs:55-109 | the board becomes the swept board; Score grows by the merged values; HasUpdated says whether anything moved; UpdatingMap is the map of all transitions |
| Cores.Core.UpdateLines | Core.cs:70-106 | the outer loop keeps: lines before outerItem are swept, and flag, score and map cover exactly them |
| Cores.Core.SweepLine | Core.cs:72-105 | one line becomes its sweep, and flag, score and map grow by its transitions |
| Cores.Core.UpdateTile | Core.cs:74-104 | one tile: the line becomes the specification's step; flag, score and map change exactly when the step records a transition |
| Cores.Core.RecordTransition | Core.cs:88-103 | sets HasUpdated, adds the merged value to Score, and adds the vacated cell's element mapped to the landing cell's element |
| UpdateLoops.UpdateLoop.constructor | UpdateLoop.cs:23-36 | line counts from the given height and width, and sweep start and end from the direction |
| UpdateLoops.UpdateLoop.Loop | UpdateLoop.cs:38-59 | the board becomes the swept board and the result is the map of all transitions, labelled (line, inner index) |
| UpdateLoops.UpdateLoop.LoopLine | UpdateLoop.cs:43-55 | one line becomes its sweep and the map grows by its transitions |
| UpdateLoops.UpdateLoop.LoopTile | UpdateLoop.cs:47-54 | one tile: an empty cell is skipped; otherwise its transition, if any, is added |
| UpdateLoops.UpdateLoop.CalculateNewItem | UpdateLoop.cs:61-71 | the probe stops at the nearest non-empty cell toward the edge, or one step past it |
| UpdateLoops.UpdateLoop.UpdatingElement | UpdateLoop.cs:73-108 | the line becomes the specification's step; the pair of elements read at the old and new cells is returned exactly when the tile moved |
| UpdateLoops.UpdateLoop.ReadTransition | UpdateLoop.cs:88-104 | the returned pair is the vacated cell (empty value) and the landing cell (written value) |

## Left out

- Console I/O is not modelled: Run, Display, GetNumberColor, ColorOutput and Main in 2048.cs. Run's order of calls is used only to state Game2048.UpdateLeavesRoom.
- The `Random` draws are parameters. Game2048.Game.PutNewValue and Cores.Core.NewElement take the slot index and the roll, in the ranges `Random.Next` returns.
- Game2048.UpdateBoard: does not model ulong wrap-around. Board values and the score are unbounded integers, so doubling and summing past 2^64 is not captured.
- Cores.Core.UpdateElements: does not model 32-bit overflow of int values, of the merge function's result, or of Score.
- Elements.HashAgreesWithEquals: the hash code is modelled as its 32-bit pattern (`bv32`), not as a signed int. Only equality of hash codes is stated.
- Cores.Core.constructor: requires a square board, or one with a zero dimension, and no negative size (where `new int[height, width]` throws). For any other shape the source constructor throws: its MapperElements reads the transposed cell through ForEach. The model does not construct that exception.
- Cores.Core.UpdateElements, Game2048.UpdateBoard: require that both dimensions are zero or neither is (`Sweepable`). With exactly one zero dimension the source throws when it sweeps along the non-zero one. The harmless other direction is excluded too. The game's 4 x 4 board and its clones always meet this.
- Compaction.PassCompacts, Compaction.PassPacks, Compaction.SweepOccupancy, Grid.PassGridCompacts, Grid.PassGridOccupancy, Grid.PassGridHasRoom, Grid.PassLeavesEmptySlot: require that the merge function never returns the empty value (`NeverEmpties`). A Core whose `MergeElements` can return `BaseValue` is not covered by them: such a merge leaves an empty cell where the source records a merged tile.
- UpdateLoops.UpdateLoop.Loop: requires that the counts fit the array (`Fits`). With other counts the source throws or sweeps only part of the board.
- Utils.GetValue: requires an index on the board, where the source throws. Every call in the model is proved to satisfy this.
- Cores.Core.ForEach: modelled for a read-only action, as the sequence of elements it hands out. Its one writing use is modelled as Cores.Core.MapperElements. Other actions with side effects are not modelled.
- The delegates Drop, GetValue and SetValue (Utils.cs and Core.cs) are plain functions and methods on the two flags, not closures. UpdateLoop keeps the caller's array, as the source does. Aliasing between that array and other objects is not modelled.
- Dictionary: modelled as a `map`. Enumeration order and the hash buckets are not modelled.
- Elements.EqualsObject: runtime types other than Element, and subclasses, are one `OtherObject` case.

## Findings

| source | as written | input that shows it | evidently intended | confidence | as-written member | corrected member |
|---|---|---|---|---|---|---|
| Core.cs:121-128 | the right neighbour is read when the row is not the last, and the lower one when the column is not the last | any board of at least 2 x 2: at row 0, column Width-1 it reads cell (0, Width), which is out of range and throws | compare right while the column is not the last and down while the row is not the last; false exactly when two neighbours are equal | high, not executed | Cores.Core.IsGameOver | Cores.Core.IsGameOverAsIntended |
| Core.cs:174 | ForEach hands element (row, column) the value of cell (column, row) | MapperElements with the identity mapper on [[0, 2], [0, 0]] yields [[0, 0], [0, 0]], and the tile 2 is lost | element (row, column) carries cell (row, column), so the identity mapper keeps the board | high, not executed | Cores.MapperIdentityErases | Cores.MappedAsIntended |
