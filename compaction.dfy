/**
 * The line-compaction rule shared by every version of the directional sweep
 * (Game.Update in 2048.cs, Core.UpdateElements in Core.cs, UpdateLoop.Loop in
 * UpdateLoop.cs).
 *
 * A line is given in EDGE-DISTANCE order: v[0] is the cell at the edge the
 * tiles slide toward and v[|v| - 1] the cell farthest from it.  Whatever the
 * direction, the sweep visits the distances 0, 1, ..., |v| - 1 in turn, and
 * the probe of a tile at distance d looks at d - 1, d - 2, ... .  The mapping
 * between distances and real row/column indices lives in module Grid.
 *
 * `base` is the empty-cell value and `merge(dest, src)` the value written when
 * the tile at distance `src` lands on the equal tile at `dest`.
 */
module Compaction {
  import opened Optional

  /** One recorded transition of a line: the tile at distance `src` went to
      distance `dst`, which now holds `value`; `merged` tells a merge from a slide. */
  datatype Shift = Shift(src: int, dst: int, value: int, merged: bool)

  /** The line after processing one tile, and the transition that produced, if any. */
  datatype LineStep = LineStep(line: seq<int>, shift: Option<Shift>)

  /** The line after processing a prefix of the distances, and the transitions in order. */
  datatype LinePass = LinePass(line: seq<int>, shifts: seq<Shift>)

  /** A merge never produces the empty value from two non-empty tiles. */
  ghost predicate NeverEmpties(merge: (int, int) -> int, base: int)
  {
    forall x :: x != base ==> merge(x, x) != base
  }

  /** Merging two equal tiles yields their sum (the numeric policy: doubling). */
  ghost predicate Additive(merge: (int, int) -> int)
  {
    forall x :: merge(x, x) == x + x
  }

  /** Every empty cell of the first `c` cells comes after every occupied one. */
  ghost predicate Packed(v: seq<int>, base: int, c: int)
    requires c <= |v|
  {
    forall p, q :: 0 <= p < q < c && v[p] == base ==> v[q] == base
  }

  // ---------------------------------------------------------------------------
  // The probe, one step, and the sweep of a whole line
  // ---------------------------------------------------------------------------

  /** The probe: starting at distance k and moving toward the edge, the first
      distance that is off the line (-1) or holds a non-empty cell. */
  function Probe(v: seq<int>, base: int, k: int): (p: int)
    requires -1 <= k < |v|
    ensures -1 <= p <= k
    ensures p == -1 || v[p] != base
    ensures forall q :: p < q <= k ==> v[q] == base
    decreases k + 1
  {
    if k == -1 || v[k] != base then k else Probe(v, base, k - 1)
  }

  /** The probe result is the only distance with the probe's two properties. */
  lemma {:induction false} ProbeUnique(v: seq<int>, base: int, k: int, p: int)
    requires -1 <= p <= k < |v|
    requires p == -1 || v[p] != base
    requires forall q :: p < q <= k ==> v[q] == base
    ensures Probe(v, base, k) == p
  {
  }

  /** Processing the tile at distance d: an empty cell is skipped; otherwise the
      tile merges into the probed tile when their values are equal, and else
      slides to the cell just behind the probe (possibly its own cell). */
  function Step(v: seq<int>, base: int, merge: (int, int) -> int, d: int): (r: LineStep)
    requires 0 <= d < |v|
    ensures |r.line| == |v|
    ensures forall q :: d < q < |v| ==> r.line[q] == v[q]
  {
    if v[d] == base then LineStep(v, None)
    else
      var p := Probe(v, base, d - 1);
      if p != -1 && v[p] == v[d] then
        var m := merge(v[p], v[d]);
        LineStep(v[p := m][d := base], Some(Shift(d, p, m, true)))
      else
        LineStep(v[d := base][p + 1 := v[d]],
                 if p + 1 == d then None else Some(Shift(d, p + 1, v[d], false)))
  }

  /** The line after the sweep has processed distances 0 .. c-1. */
  function Sweep(v: seq<int>, base: int, merge: (int, int) -> int, c: nat): (r: LinePass)
    requires c <= |v|
    ensures |r.line| == |v|
    ensures forall q :: c <= q < |v| ==> r.line[q] == v[q]
  {
    if c == 0 then LinePass(v, [])
    else
      var prev := Sweep(v, base, merge, c - 1);
      var st := Step(prev.line, base, merge, c - 1);
      LinePass(st.line, prev.shifts + ToSeq(st.shift))
  }

  /** One more distance: the step's line, and its transition appended. */
  lemma SweepSnoc(v: seq<int>, base: int, merge: (int, int) -> int, c: nat)
    requires c < |v|
    ensures Sweep(v, base, merge, c + 1)
         == LinePass(Step(Sweep(v, base, merge, c).line, base, merge, c).line,
                     Sweep(v, base, merge, c).shifts + ToSeq(Step(Sweep(v, base, merge, c).line, base, merge, c).shift))
  {
  }

  /** One full pass over a line. */
  function Pass(v: seq<int>, base: int, merge: (int, int) -> int): LinePass
  {
    Sweep(v, base, merge, |v|)
  }

  // ---------------------------------------------------------------------------
  // An independent reference: the pass as a fold over the line's tiles
  // ---------------------------------------------------------------------------

  /** The non-empty values of a line, nearest the edge first. */
  function Tiles(v: seq<int>, base: int): (t: seq<int>)
    ensures |t| <= |v|
    ensures forall k :: 0 <= k < |t| ==> t[k] != base
  {
    if v == [] then []
    else Tiles(v[..|v| - 1], base) + (if v[|v| - 1] == base then [] else [v[|v| - 1]])
  }

  /** Stacking tiles against the edge one after the other: a tile equal to the
      top of the stack merges into it, any other tile goes on top.  There is no
      once-per-pass guard, so a merged tile can absorb the next equal tile. */
  function Chain(t: seq<int>, merge: (int, int) -> int): (s: seq<int>)
    ensures |s| <= |t|
    ensures t != [] ==> s != []
  {
    if t == [] then [] else Push(Chain(t[..|t| - 1], merge), t[|t| - 1], merge)
  }

  /** One tile onto the stack: merged into an equal top, else placed on top. */
  function Push(s: seq<int>, x: int, merge: (int, int) -> int): (s': seq<int>)
    ensures |s'| <= |s| + 1 && s' != []
  {
    if s != [] && s[|s| - 1] == x then s[|s| - 1 := merge(s[|s| - 1], x)] else s + [x]
  }

  /** `n` empty cells. */
  function Blank(base: int, n: nat): (b: seq<int>)
    ensures |b| == n && forall k :: 0 <= k < n ==> b[k] == base
  {
    seq(n, _ => base)
  }

  /** The reference result of a pass: the stacked tiles against the edge, then empty cells. */
  function Compacted(v: seq<int>, base: int, merge: (int, int) -> int): seq<int>
  {
    var s := Chain(Tiles(v, base), merge);
    s + Blank(base, |v| - |s|)
  }

  lemma {:induction false} ChainOccupied(t: seq<int>, base: int, merge: (int, int) -> int)
    requires NeverEmpties(merge, base)
    requires forall k :: 0 <= k < |t| ==> t[k] != base
    ensures forall k :: 0 <= k < |Chain(t, merge)| ==> Chain(t, merge)[k] != base
  {
    if t != [] {
      ChainOccupied(t[..|t| - 1], base, merge);
    }
  }

  lemma {:induction false} TilesSnoc(v: seq<int>, x: int, base: int)
    ensures Tiles(v + [x], base) == Tiles(v, base) + (if x == base then [] else [x])
  {
    assert (v + [x])[..|v|] == v;
  }

  /** Where the probe from the first unprocessed cell lands on a line in
      reference form: on the top of the stack, or off the line when it is empty. */
  lemma ProbeOnStack(s: seq<int>, base: int, rest: seq<int>, c: nat)
    requires forall k :: 0 <= k < |s| ==> s[k] != base
    requires |s| <= c && rest != []
    ensures Probe(s + Blank(base, c - |s|) + rest, base, c - 1) == |s| - 1
  {
    var w := s + Blank(base, c - |s|) + rest;
    var p := |s| - 1;
    forall q | p < q <= c - 1 ensures w[q] == base {
      assert w[q] == Blank(base, c - |s|)[q - |s|];
    }
    assert p == -1 || w[p] == s[p];
    ProbeUnique(w, base, c - 1, p);
  }

  /** An empty cell after the stack just lengthens the empty run. */
  lemma SkipKeepsForm(s: seq<int>, base: int, rest: seq<int>, c: nat)
    requires |s| <= c && rest != [] && rest[0] == base
    ensures s + Blank(base, c - |s|) + rest == s + Blank(base, c + 1 - |s|) + rest[1..]
  {
    var w := s + Blank(base, c - |s|) + rest;
    var w' := s + Blank(base, c + 1 - |s|) + rest[1..];
    assert |w| == |w'|;
    forall k | 0 <= k < |w| ensures w[k] == w'[k] {
      if k < |s| {
      } else if k < c {
        assert w[k] == Blank(base, c - |s|)[k - |s|];
        assert w'[k] == Blank(base, c + 1 - |s|)[k - |s|];
      } else if k == c {
        assert w'[k] == Blank(base, c + 1 - |s|)[k - |s|];
      } else {
        assert w[k] == rest[k - c];
        assert w'[k] == rest[1..][k - c - 1];
      }
    }
  }

  /** A merge into the top of the stack keeps the form. */
  lemma MergeKeepsForm(s: seq<int>, base: int, m: int, rest: seq<int>, c: nat)
    requires s != [] && |s| <= c && rest != []
    ensures (s + Blank(base, c - |s|) + rest)[|s| - 1 := m][c := base]
         == s[|s| - 1 := m] + Blank(base, c + 1 - |s|) + rest[1..]
  {
    var w := (s + Blank(base, c - |s|) + rest)[|s| - 1 := m][c := base];
    var w' := s[|s| - 1 := m] + Blank(base, c + 1 - |s|) + rest[1..];
    assert |w| == |w'|;
    forall k | 0 <= k < |w| ensures w[k] == w'[k] {
      if k < |s| {
      } else if k < c {
        assert w[k] == Blank(base, c - |s|)[k - |s|];
        assert w'[k] == Blank(base, c + 1 - |s|)[k - |s|];
      } else if k == c {
        assert w'[k] == Blank(base, c + 1 - |s|)[k - |s|];
      } else {
        assert w[k] == rest[k - c];
        assert w'[k] == rest[1..][k - c - 1];
      }
    }
  }

  /** A tile sliding onto the top of the stack keeps the form. */
  lemma SlideKeepsForm(s: seq<int>, base: int, rest: seq<int>, c: nat)
    requires |s| <= c && rest != []
    ensures (s + Blank(base, c - |s|) + rest)[c := base][|s| := rest[0]]
         == (s + [rest[0]]) + Blank(base, c - |s|) + rest[1..]
  {
    var w := (s + Blank(base, c - |s|) + rest)[c := base][|s| := rest[0]];
    var w' := (s + [rest[0]]) + Blank(base, c - |s|) + rest[1..];
    assert |w| == |w'|;
    forall k | 0 <= k < |w| ensures w[k] == w'[k] {
      if k < |s| {
      } else if k == |s| {
      } else if k <= c {
        assert w[k] == (if k < c then Blank(base, c - |s|)[k - |s|] else base);
        assert w'[k] == Blank(base, c - |s|)[k - |s| - 1];
      } else {
        assert w[k] == rest[k - c];
        assert w'[k] == rest[1..][k - c - 1];
      }
    }
  }

  /** One step of the sweep keeps the reference form: processed cells hold the
      stacked tiles, then empty cells, and the rest of the line is untouched. */
  lemma StepCompacts(v: seq<int>, base: int, merge: (int, int) -> int, c: nat)
    requires NeverEmpties(merge, base)
    requires c < |v|
    ensures Step(Compacted(v[..c], base, merge) + v[c..], base, merge, c).line
         == Compacted(v[..c + 1], base, merge) + v[c + 1..]
  {
    var s := Chain(Tiles(v[..c], base), merge);
    ChainOccupied(Tiles(v[..c], base), base, merge);
    var rest := v[c..];
    assert rest[0] == v[c] && rest[1..] == v[c + 1..];
    assert Compacted(v[..c], base, merge) + v[c..] == s + Blank(base, c - |s|) + rest;
    StepOnForm(s, base, merge, rest, c);
    CompactedSnoc(v, base, merge, c);
  }

  /** The reference form of one more cell: an empty cell lengthens the empty
      run, and a tile is pushed onto the stack. */
  lemma CompactedSnoc(v: seq<int>, base: int, merge: (int, int) -> int, c: nat)
    requires c < |v|
    ensures var s := Chain(Tiles(v[..c], base), merge);
            var s' := if v[c] == base then s else Push(s, v[c], merge);
            Compacted(v[..c + 1], base, merge) == s' + Blank(base, c + 1 - |s'|)
  {
    var t := Tiles(v[..c], base);
    assert v[..c + 1] == v[..c] + [v[c]];
    TilesSnoc(v[..c], v[c], base);
    var s := Chain(t, merge);
    if v[c] != base {
      var t' := t + [v[c]];
      assert t'[..|t|] == t && t'[|t|] == v[c];
      assert Chain(t', merge) == Push(s, v[c], merge);
    } else {
      assert Tiles(v[..c + 1], base) == t;
    }
  }

  /** One step on a line in reference form: an empty cell lengthens the empty
      run, and a tile is pushed onto the stack. */
  lemma StepOnForm(s: seq<int>, base: int, merge: (int, int) -> int, rest: seq<int>, c: nat)
    requires NeverEmpties(merge, base)
    requires forall k :: 0 <= k < |s| ==> s[k] != base
    requires |s| <= c && rest != []
    ensures var s' := if rest[0] == base then s else Push(s, rest[0], merge);
            Step(s + Blank(base, c - |s|) + rest, base, merge, c).line == s' + Blank(base, c + 1 - |s'|) + rest[1..]
  {
    var w := s + Blank(base, c - |s|) + rest;
    assert w[c] == rest[0];
    if rest[0] == base {
      SkipKeepsForm(s, base, rest, c);
    } else {
      ProbeOnStack(s, base, rest, c);
      var p := |s| - 1;
      if s != [] && s[p] == rest[0] {
        assert w[p] == s[p];
        MergeKeepsForm(s, base, merge(s[p], rest[0]), rest, c);
      } else {
        assert p != -1 ==> w[p] == s[p];
        SlideKeepsForm(s, base, rest, c);
      }
    }
  }

  /** The sweep's result on a processed prefix is the reference form. */
  lemma {:induction false} SweepCompacts(v: seq<int>, base: int, merge: (int, int) -> int, c: nat)
    requires NeverEmpties(merge, base)
    requires c <= |v|
    ensures Sweep(v, base, merge, c).line == Compacted(v[..c], base, merge) + v[c..]
  {
    assert v[..0] == [] && v[0..] == v;
    assert Compacted([], base, merge) == [];
    var k := 0;
    while k < c
      invariant 0 <= k <= c
      invariant Sweep(v, base, merge, k).line == Compacted(v[..k], base, merge) + v[k..]
    {
      assert Sweep(v, base, merge, k + 1).line == Step(Sweep(v, base, merge, k).line, base, merge, k).line;
      StepCompacts(v, base, merge, k);
      k := k + 1;
    }
  }


  /** A full pass over a line equals the reference: tiles stacked with chained
      merging against the edge, the remaining cells empty. */
  lemma PassCompacts(v: seq<int>, base: int, merge: (int, int) -> int)
    requires NeverEmpties(merge, base)
    ensures Pass(v, base, merge).line == Compacted(v, base, merge)
  {
    SweepCompacts(v, base, merge, |v|);
    assert v[..|v|] == v;
    assert v[|v|..] == [];
  }

  /** After a full pass the line is packed toward the edge. */
  lemma PassPacks(v: seq<int>, base: int, merge: (int, int) -> int)
    requires NeverEmpties(merge, base)
    ensures Packed(Pass(v, base, merge).line, base, |v|)
  {
    PassCompacts(v, base, merge);
    var s := Chain(Tiles(v, base), merge);
    ChainOccupied(Tiles(v, base), base, merge);
    var w := Pass(v, base, merge).line;
    forall p, q | 0 <= p < q < |v| && w[p] == base ensures w[q] == base {
      assert p >= |s|;
      assert w[q] == Blank(base, |v| - |s|)[q - |s|];
    }
  }

  // ---------------------------------------------------------------------------
  // What a pass conserves, and when it changes anything
  // ---------------------------------------------------------------------------

  /** Quantities summed over a line: the sum of the values, the number of
      occupied cells, and the sum of (distance + 1) over occupied cells. */
  datatype Measure = Mass | Occupancy | Distance

  function Term(m: Measure, base: int, i: int, x: int): int
  {
    match m
    case Mass => x
    case Occupancy => if x == base then 0 else 1
    case Distance => if x == base then 0 else i + 1
  }

  function Total(v: seq<int>, m: Measure, base: int): int
  {
    if v == [] then 0 else Total(v[..|v| - 1], m, base) + Term(m, base, |v| - 1, v[|v| - 1])
  }

  /** Writing one cell changes a total by that cell's term only. */
  lemma {:induction false} TotalUpdate(v: seq<int>, m: Measure, base: int, i: int, x: int)
    requires 0 <= i < |v|
    ensures Total(v[i := x], m, base) == Total(v, m, base) - Term(m, base, i, v[i]) + Term(m, base, i, x)
  {
    var n := |v|;
    if i == n - 1 {
      assert v[i := x][..n - 1] == v[..n - 1];
    } else {
      assert v[i := x][..n - 1] == v[..n - 1][i := x];
      TotalUpdate(v[..n - 1], m, base, i, x);
    }
  }

  /** The number of merges among some transitions. */
  function Merges(s: seq<Shift>): nat
  {
    if s == [] then 0 else Merges(s[..|s| - 1]) + (if s[|s| - 1].merged then 1 else 0)
  }

  lemma {:induction false} MergesSnoc(s: seq<Shift>, o: Option<Shift>)
    ensures Merges(s + ToSeq(o)) == Merges(s) + Merges(ToSeq(o))
  {
    if o.Some? {
      assert (s + ToSeq(o))[..|s|] == s;
    } else {
      assert s + ToSeq(o) == s;
    }
  }

  /** A recorded transition starts at the processed distance and goes strictly
      toward the edge; afterwards its source is empty and its destination holds
      the recorded value. */
  lemma StepVacates(v: seq<int>, base: int, merge: (int, int) -> int, d: int)
    requires 0 <= d < |v|
    ensures Step(v, base, merge, d).shift.Some? ==>
              Step(v, base, merge, d).shift.value.src == d &&
              0 <= Step(v, base, merge, d).shift.value.dst < d &&
              Step(v, base, merge, d).line[d] == base &&
              Step(v, base, merge, d).line[Step(v, base, merge, d).shift.value.dst]
                == Step(v, base, merge, d).shift.value.value
  {
  }

  /** A step that records no transition leaves the line as it was; one that
      records a transition brings the tiles strictly nearer the edge overall. */
  lemma {:induction false} StepDistance(v: seq<int>, base: int, merge: (int, int) -> int, d: int)
    requires 0 <= d < |v|
    ensures Step(v, base, merge, d).shift.None? ==> Step(v, base, merge, d).line == v
    ensures Step(v, base, merge, d).shift.Some? ==>
              Total(Step(v, base, merge, d).line, Distance, base) < Total(v, Distance, base)
  {
    var st := Step(v, base, merge, d);
    if v[d] != base {
      var p := Probe(v, base, d - 1);
      if p != -1 && v[p] == v[d] {
        var m := merge(v[p], v[d]);
        assert st.line == v[p := m][d := base];
        TotalUpdate(v, Distance, base, p, m);
        TotalUpdate(v[p := m], Distance, base, d, base);
      } else if p + 1 == d {
        assert st.line == v[d := base][p + 1 := v[d]] == v;
      } else {
        assert st.line == v[d := base][p + 1 := v[d]] && p + 1 < d;
        TotalUpdate(v, Distance, base, d, base);
        TotalUpdate(v[d := base], Distance, base, p + 1, v[d]);
      }
    }
  }

  /** A step empties one cell per merge and otherwise keeps the number of tiles. */
  lemma {:induction false} StepOccupancy(v: seq<int>, base: int, merge: (int, int) -> int, d: int)
    requires 0 <= d < |v|
    requires NeverEmpties(merge, base)
    ensures Total(Step(v, base, merge, d).line, Occupancy, base)
         == Total(v, Occupancy, base) - Merges(ToSeq(Step(v, base, merge, d).shift))
  {
    var st := Step(v, base, merge, d);
    if v[d] != base {
      var p := Probe(v, base, d - 1);
      if p != -1 && v[p] == v[d] {
        var m := merge(v[p], v[d]);
        assert st.line == v[p := m][d := base] && st.shift == Some(Shift(d, p, m, true));
        assert Merges([Shift(d, p, m, true)]) == 1;
        TotalUpdate(v, Occupancy, base, p, m);
        TotalUpdate(v[p := m], Occupancy, base, d, base);
      } else if p + 1 == d {
        assert st.line == v[d := base][p + 1 := v[d]] == v && st.shift == None;
      } else {
        assert st.line == v[d := base][p + 1 := v[d]] && st.shift == Some(Shift(d, p + 1, v[d], false));
        assert Merges([Shift(d, p + 1, v[d], false)]) == 0;
        TotalUpdate(v, Occupancy, base, d, base);
        TotalUpdate(v[d := base], Occupancy, base, p + 1, v[d]);
      }
    }
  }

  /** Replacing two cells by their sum and 0, or moving a value onto a 0, keeps the sum. */
  lemma MassOfTwoWrites(v: seq<int>, i: int, x: int, j: int, y: int)
    requires 0 <= i < |v| && 0 <= j < |v| && i != j
    requires x + y == v[i] + v[j]
    ensures Total(v[i := x][j := y], Mass, 0) == Total(v, Mass, 0)
  {
    TotalUpdate(v, Mass, 0, i, x);
    TotalUpdate(v[i := x], Mass, 0, j, y);
  }

  /** Under the numeric policy (empty is 0, merging doubles) a step keeps the sum. */
  lemma {:induction false} StepMass(v: seq<int>, merge: (int, int) -> int, d: int)
    requires 0 <= d < |v|
    requires Additive(merge)
    ensures Total(Step(v, 0, merge, d).line, Mass, 0) == Total(v, Mass, 0)
  {
    if v[d] != 0 {
      var p := Probe(v, 0, d - 1);
      if p != -1 && v[p] == v[d] {
        var m := merge(v[p], v[d]);
        assert m == v[d] + v[d];
        MassOfTwoWrites(v, p, m, d, 0);
      } else if p + 1 == d {
        assert v[d := 0][p + 1 := v[d]] == v;
      } else {
        MassOfTwoWrites(v, d, 0, p + 1, v[d]);
      }
    }
  }

  /** The sweep records a transition exactly when it changes the line. */
  lemma {:induction false} SweepChangesIffShifts(v: seq<int>, base: int, merge: (int, int) -> int, c: nat)
    requires c <= |v|
    ensures Total(Sweep(v, base, merge, c).line, Distance, base) + |Sweep(v, base, merge, c).shifts|
         <= Total(v, Distance, base)
    ensures Sweep(v, base, merge, c).shifts == [] <==> Sweep(v, base, merge, c).line == v
  {
    var k := 0;
    while k < c
      invariant 0 <= k <= c
      invariant Total(Sweep(v, base, merge, k).line, Distance, base) + |Sweep(v, base, merge, k).shifts|
             <= Total(v, Distance, base)
      invariant Sweep(v, base, merge, k).shifts == [] <==> Sweep(v, base, merge, k).line == v
    {
      var prev := Sweep(v, base, merge, k);
      var st := Step(prev.line, base, merge, k);
      assert Sweep(v, base, merge, k + 1).line == st.line;
      assert Sweep(v, base, merge, k + 1).shifts == prev.shifts + ToSeq(st.shift);
      StepDistance(prev.line, base, merge, k);
      k := k + 1;
    }
  }


  /** The sweep empties exactly one cell per merge. */
  lemma {:induction false} SweepOccupancy(v: seq<int>, base: int, merge: (int, int) -> int, c: nat)
    requires c <= |v|
    requires NeverEmpties(merge, base)
    ensures Total(Sweep(v, base, merge, c).line, Occupancy, base)
         == Total(v, Occupancy, base) - Merges(Sweep(v, base, merge, c).shifts)
  {
    var k := 0;
    while k < c
      invariant 0 <= k <= c
      invariant Total(Sweep(v, base, merge, k).line, Occupancy, base)
             == Total(v, Occupancy, base) - Merges(Sweep(v, base, merge, k).shifts)
    {
      SweepOccupancyStep(v, base, merge, k);
      k := k + 1;
    }
  }

  /** One more step of the sweep changes the number of tiles by minus the number of its merges. */
  lemma SweepOccupancyStep(v: seq<int>, base: int, merge: (int, int) -> int, c: nat)
    requires c < |v|
    requires NeverEmpties(merge, base)
    ensures Total(Sweep(v, base, merge, c + 1).line, Occupancy, base) + Merges(Sweep(v, base, merge, c + 1).shifts)
         == Total(Sweep(v, base, merge, c).line, Occupancy, base) + Merges(Sweep(v, base, merge, c).shifts)
  {
    var prev := Sweep(v, base, merge, c);
    var st := Step(prev.line, base, merge, c);
    assert Sweep(v, base, merge, c + 1) == LinePass(st.line, prev.shifts + ToSeq(st.shift));
    StepOccupancy(prev.line, base, merge, c);
    MergesSnoc(prev.shifts, st.shift);
  }

  /** Under the numeric policy the sweep keeps the sum of the line. */
  lemma {:induction false} SweepMass(v: seq<int>, merge: (int, int) -> int, c: nat)
    requires c <= |v|
    requires Additive(merge)
    ensures Total(Sweep(v, 0, merge, c).line, Mass, 0) == Total(v, Mass, 0)
  {
    var k := 0;
    while k < c
      invariant 0 <= k <= c
      invariant Total(Sweep(v, 0, merge, k).line, Mass, 0) == Total(v, Mass, 0)
    {
      var prev := Sweep(v, 0, merge, k).line;
      assert Sweep(v, 0, merge, k + 1).line == Step(prev, 0, merge, k).line;
      StepMass(prev, merge, k);
      k := k + 1;
    }
  }


  /** Transitions among the first `c` distances, in sweep order, each strictly toward the edge. */
  ghost predicate OrderedShifts(s: seq<Shift>, c: int)
  {
    (forall k :: 0 <= k < |s| ==> 0 <= s[k].dst < s[k].src < c)
    && (forall k1, k2 :: 0 <= k1 < k2 < |s| ==> s[k1].src < s[k2].src)
  }

  /** Appending the transition of the step at distance c keeps the order. */
  lemma OrderedShiftsSnoc(s: seq<Shift>, o: Option<Shift>, c: int)
    requires OrderedShifts(s, c)
    requires o.Some? ==> o.value.src == c && 0 <= o.value.dst < c
    ensures OrderedShifts(s + ToSeq(o), c + 1)
  {
    var t := s + ToSeq(o);
    if o.Some? {
      assert t == s + [o.value];
      forall k | 0 <= k < |t| ensures 0 <= t[k].dst < t[k].src < c + 1 {
        if k < |s| { assert t[k] == s[k]; }
      }
      forall k1, k2 | 0 <= k1 < k2 < |t| ensures t[k1].src < t[k2].src {
        assert t[k1] == s[k1];
        if k2 < |s| { assert t[k2] == s[k2]; }
      }
    } else {
      assert t == s;
    }
  }

  /** Transitions are recorded in sweep order, one per processed tile at most,
      and each goes strictly toward the edge. */
  lemma {:induction false} SweepShiftsOrdered(v: seq<int>, base: int, merge: (int, int) -> int, c: nat)
    requires c <= |v|
    ensures forall k :: 0 <= k < |Sweep(v, base, merge, c).shifts| ==>
              0 <= Sweep(v, base, merge, c).shifts[k].dst < Sweep(v, base, merge, c).shifts[k].src < c
    ensures forall k1, k2 :: 0 <= k1 < k2 < |Sweep(v, base, merge, c).shifts| ==>
              Sweep(v, base, merge, c).shifts[k1].src < Sweep(v, base, merge, c).shifts[k2].src
  {
    var i := 0;
    while i < c
      invariant 0 <= i <= c
      invariant OrderedShifts(Sweep(v, base, merge, i).shifts, i)
    {
      var prev := Sweep(v, base, merge, i);
      var st := Step(prev.line, base, merge, i);
      assert Sweep(v, base, merge, i + 1).shifts == prev.shifts + ToSeq(st.shift);
      StepVacates(prev.line, base, merge, i);
      OrderedShiftsSnoc(prev.shifts, st.shift, i);
      i := i + 1;
    }
  }

  // ---------------------------------------------------------------------------
  // A line with no empty cell
  // ---------------------------------------------------------------------------

  /** No cell of the line is empty. */
  ghost predicate Full(v: seq<int>, base: int)
  {
    forall k :: 0 <= k < |v| ==> v[k] != base
  }

  /** No two neighbouring cells among the first c hold the same value. */
  ghost predicate NoEqualNeighbours(v: seq<int>, c: int)
    requires c <= |v|
  {
    forall k :: 0 < k < c ==> v[k - 1] != v[k]
  }

  /** On a full line whose first c cells have no equal neighbours, every tile
      of the sweep so far stays where it is. */
  lemma {:induction false} FullSweepQuiet(v: seq<int>, base: int, merge: (int, int) -> int, c: nat)
    requires c <= |v| && Full(v, base) && NoEqualNeighbours(v, c)
    ensures Sweep(v, base, merge, c) == LinePass(v, [])
  {
    if c > 0 {
      var d := c - 1;
      FullSweepQuiet(v, base, merge, d);
      assert Probe(v, base, d - 1) == d - 1;
      assert v[d := base][d := v[d]] == v;
      assert Step(v, base, merge, d) == LineStep(v, None);
    }
  }

  /** The first pair of equal neighbours of a full line merges: tile k is the
      first to move, and it merges into tile k - 1. */
  lemma FullSweepMerges(v: seq<int>, base: int, merge: (int, int) -> int, k: nat)
    requires 0 < k < |v| && Full(v, base) && NoEqualNeighbours(v, k) && v[k - 1] == v[k]
    ensures Sweep(v, base, merge, k + 1).shifts == [Shift(k, k - 1, merge(v[k - 1], v[k]), true)]
  {
    FullSweepQuiet(v, base, merge, k);
    assert Probe(v, base, k - 1) == k - 1;
    assert Step(v, base, merge, k).shift == Some(Shift(k, k - 1, merge(v[k - 1], v[k]), true));
  }

  /** The sweep never forgets or rewrites a transition: the transitions
      recorded after c tiles are a prefix of those recorded after c' tiles. */
  lemma {:induction false} SweepShiftsGrow(v: seq<int>, base: int, merge: (int, int) -> int, c: nat, c': nat)
    requires c <= c' <= |v|
    ensures Sweep(v, base, merge, c).shifts <= Sweep(v, base, merge, c').shifts
  {
    if c < c' {
      SweepShiftsGrow(v, base, merge, c, c' - 1);
      SweepSnoc(v, base, merge, c' - 1);
    }
  }

  /** A full line is left alone by a pass exactly when no two neighbours are
      equal: with no empty cell to slide into, only a merge can move a tile. */
  lemma FullLineStuckIff(v: seq<int>, base: int, merge: (int, int) -> int)
    requires Full(v, base)
    ensures Pass(v, base, merge).shifts == [] <==> NoEqualNeighbours(v, |v|)
  {
    if NoEqualNeighbours(v, |v|) {
      FullSweepQuiet(v, base, merge, |v|);
    } else {
      var k := 1;
      while k < |v| && v[k - 1] != v[k]
        invariant 1 <= k <= |v| && NoEqualNeighbours(v, k)
      {
        k := k + 1;
      }
      FullSweepMerges(v, base, merge, k);
      SweepShiftsGrow(v, base, merge, k + 1, |v|);
    }
  }
}
