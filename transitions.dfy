/**
 * The map of transitions that Core.UpdateElements and UpdateLoop.Loop build
 * while sweeping.  For every tile that leaves its cell, the element read at the
 * vacated cell (which by then holds the empty value) is added as a key, mapped
 * to the element read where the tile landed (holding the value written there).
 * Dictionary.Add throws on a key that is already present; the sweep order
 * guarantees that never happens.
 */
module Transitions {
  import opened Optional
  import opened Compaction
  import opened Elements
  import opened Grid

  /** How a sweep's reader labels the elements it reads: Core's GetValueFactory
      by the cell's row and column, Utils.GetValueFactory by (line, inner index). */
  datatype Labels = RowColumn | OuterInner

  /** What stays fixed during one sweep of the board. */
  datatype Layout = Layout(labels: Labels, alongRow: bool, isIncreasing: bool, innerCount: int, base: int)

  /** The label of inner index j of line o. */
  function Label(labels: Labels, alongRow: bool, o: int, j: int): (int, int)
  {
    if labels == OuterInner then (o, j) else Position(alongRow, o, j)
  }

  /** The line and the edge distance an element's label stands for. */
  function Place(layout: Layout, e: Element): (int, int)
  {
    var (o, j) := if layout.labels == OuterInner then (e.Row, e.Column)
                  else Position(layout.alongRow, e.Row, e.Column);
    (o, InnerIndex(layout.isIncreasing, layout.innerCount, j))
  }

  /** The key added for move m: its source cell, read once it is empty. */
  function Source(layout: Layout, m: Move): (e: Element)
    ensures Place(layout, e) == (m.outer, m.shift.src) && e.Value == layout.base
  {
    var (r, c) := Label(layout.labels, layout.alongRow, m.outer,
                        InnerIndex(layout.isIncreasing, layout.innerCount, m.shift.src));
    Element(r, c, layout.base)
  }

  /** The value added for move m: its destination cell, read once written. */
  function Target(layout: Layout, m: Move): (e: Element)
    ensures Place(layout, e) == (m.outer, m.shift.dst) && e.Value == m.shift.value
  {
    var (r, c) := Label(layout.labels, layout.alongRow, m.outer,
                        InnerIndex(layout.isIncreasing, layout.innerCount, m.shift.dst));
    Element(r, c, m.shift.value)
  }

  /** `m0` with one entry added per move, in order. */
  function MapAfter(layout: Layout, m0: map<Element, Element>, ms: seq<Move>): map<Element, Element>
  {
    if |ms| == 0 then m0
    else MapAfter(layout, m0, ms[..|ms| - 1])[Source(layout, ms[|ms| - 1]) := Target(layout, ms[|ms| - 1])]
  }

  /** The map a sweep returns for its moves. */
  function TransitionMap(layout: Layout, ms: seq<Move>): map<Element, Element>
  {
    MapAfter(layout, map[], ms)
  }

  /** For moves in sweep order the map has exactly one entry per move: its
      source maps to its target, and there is no other key. */
  lemma TransitionMapExact(layout: Layout, ms: seq<Move>)
    requires forall k1, k2 :: 0 <= k1 < k2 < |ms| ==> Before(ms[k1], ms[k2])
    ensures |TransitionMap(layout, ms)| == |ms|
    ensures forall k :: 0 <= k < |ms| ==>
              Source(layout, ms[k]) in TransitionMap(layout, ms) &&
              TransitionMap(layout, ms)[Source(layout, ms[k])] == Target(layout, ms[k])
    ensures forall e :: e in TransitionMap(layout, ms) ==> exists k :: 0 <= k < |ms| && e == Source(layout, ms[k])
  {
    MapAfterSize(layout, ms);
    MapAfterEntries(layout, ms);
    MapAfterKeys(layout, ms);
  }

  /** Every key of the map is the source of one of the moves. */
  lemma {:induction false} MapAfterKeys(layout: Layout, ms: seq<Move>)
    ensures forall e :: e in TransitionMap(layout, ms) ==> exists k :: 0 <= k < |ms| && e == Source(layout, ms[k])
  {
    if |ms| > 0 {
      var n := |ms| - 1;
      var prev := ms[..n];
      MapAfterKeys(layout, prev);
      assert TransitionMap(layout, ms) == TransitionMap(layout, prev)[Source(layout, ms[n]) := Target(layout, ms[n])];
      forall e | e in TransitionMap(layout, ms) ensures exists k :: 0 <= k < |ms| && e == Source(layout, ms[k]) {
        if e != Source(layout, ms[n]) {
          var k :| 0 <= k < |prev| && e == Source(layout, prev[k]);
          assert ms[k] == prev[k];
        }
      }
    }
  }

  /** For moves in sweep order, each move's source maps to its target. */
  lemma {:induction false} MapAfterEntries(layout: Layout, ms: seq<Move>)
    requires forall k1, k2 :: 0 <= k1 < k2 < |ms| ==> Before(ms[k1], ms[k2])
    ensures forall k :: 0 <= k < |ms| ==>
              Source(layout, ms[k]) in TransitionMap(layout, ms) &&
              TransitionMap(layout, ms)[Source(layout, ms[k])] == Target(layout, ms[k])
  {
    if |ms| > 0 {
      var n := |ms| - 1;
      var prev := ms[..n];
      MapAfterEntries(layout, prev);
      var after := TransitionMap(layout, prev)[Source(layout, ms[n]) := Target(layout, ms[n])];
      assert TransitionMap(layout, ms) == after;
      forall k | 0 <= k < |ms|
        ensures Source(layout, ms[k]) in after && after[Source(layout, ms[k])] == Target(layout, ms[k])
      {
        if k < n {
          assert ms[k] == prev[k];
          SourcesDiffer(layout, ms[k], ms[n]);
        }
      }
    }
  }

  /** For moves in sweep order, no key is added twice. */
  lemma {:induction false} MapAfterSize(layout: Layout, ms: seq<Move>)
    requires forall k1, k2 :: 0 <= k1 < k2 < |ms| ==> Before(ms[k1], ms[k2])
    ensures |TransitionMap(layout, ms)| == |ms|
  {
    if |ms| > 0 {
      var n := |ms| - 1;
      var prev := ms[..n];
      MapAfterSize(layout, prev);
      MapAfterKeys(layout, prev);
      var before := TransitionMap(layout, prev);
      var key := Source(layout, ms[n]);
      forall k | 0 <= k < |prev| ensures Source(layout, prev[k]) != key {
        assert ms[k] == prev[k];
        SourcesDiffer(layout, ms[k], ms[n]);
      }
      assert key !in before;
      assert TransitionMap(layout, ms) == before[key := Target(layout, ms[n])];
    }
  }

  /** Two moves in sweep order leave different cells, so their keys differ. */
  lemma SourcesDiffer(layout: Layout, a: Move, b: Move)
    requires Before(a, b)
    ensures Source(layout, a) != Source(layout, b)
  {
    assert Place(layout, Source(layout, a)) != Place(layout, Source(layout, b));
  }

  /** Adding moves one list after the other is adding their concatenation. */
  lemma {:induction false} MapAfterAppend(layout: Layout, m0: map<Element, Element>, a: seq<Move>, b: seq<Move>)
    ensures MapAfter(layout, m0, a + b) == MapAfter(layout, MapAfter(layout, m0, a), b)
  {
    if |b| == 0 {
      assert a + b == a;
    } else {
      var n := |b|;
      assert (a + b)[..|a + b| - 1] == a + b[..n - 1];
      MapAfterAppend(layout, m0, a, b[..n - 1]);
    }
  }

  /** The key of an element comes before distance c of line i in sweep order. */
  predicate Earlier(layout: Layout, e: Element, i: int, c: int)
  {
    var (o, d) := Place(layout, e);
    o < i || (o == i && d < c)
  }

  /** The map after moves `ms` of line i, starting from `m0`, when every key
      comes from a cell before distance c of line i. */
  predicate MapOfMoves(layout: Layout, i: int, c: int, ms: seq<Move>,
                       m0: map<Element, Element>, m: map<Element, Element>)
  {
    m == MapAfter(layout, m0, ms) && forall e :: e in m ==> Earlier(layout, e, i, c)
  }

  /** The map of a sweep of line i once distances 0 .. c-1 are done, starting
      from `m0`; every key comes from a cell the sweep has already processed. */
  ghost predicate MappedLine(layout: Layout, merge: (int, int) -> int, i: int, v: seq<int>, c: int,
                             m0: map<Element, Element>, m: map<Element, Element>)
  {
    |v| == layout.innerCount && 0 <= c <= |v|
    // stated through a trigger on SweptMoves, so that only the lemmas below look inside
    && forall d {:trigger SweptMoves(layout, merge, i, v, d)} ::
         d == c ==> MapOfMoves(layout, i, c, SweptMoves(layout, merge, i, v, d), m0, m)
  }

  /** The moves of line i once the sweep has processed distances 0 .. c-1. */
  ghost function SweptMoves(layout: Layout, merge: (int, int) -> int, i: int, v: seq<int>, c: int): seq<Move>
    requires 0 <= c <= |v|
  {
    Tag(i, Sweep(v, layout.base, merge, c).shifts)
  }

  lemma MappedLineStart(layout: Layout, merge: (int, int) -> int, i: int, v: seq<int>, m0: map<Element, Element>)
    requires |v| == layout.innerCount
    requires forall e :: e in m0 ==> Earlier(layout, e, i, 0)
    ensures MappedLine(layout, merge, i, v, 0, m0, m0)
  {
  }

  /** The entry one more step adds, if the step records a transition. */
  function StepEntry(layout: Layout, merge: (int, int) -> int, i: int, v: seq<int>, c: int): Option<(Element, Element)>
    requires 0 <= c < |v|
  {
    var st := Step(Sweep(v, layout.base, merge, c).line, layout.base, merge, c).shift;
    if st.Some? then Some((Source(layout, Move(i, st.value)), Target(layout, Move(i, st.value)))) else None
  }

  /** One more step: the key it adds is new (so Dictionary.Add does not throw)
      and the map is the map of the longer sweep. */
  lemma MappedLineNext(layout: Layout, merge: (int, int) -> int, i: int, v: seq<int>, c: int,
                       m0: map<Element, Element>, m: map<Element, Element>)
    requires MappedLine(layout, merge, i, v, c, m0, m)
    requires c < |v|
    ensures StepEntry(layout, merge, i, v, c).Some? ==> StepEntry(layout, merge, i, v, c).value.0 !in m
    ensures MappedLine(layout, merge, i, v, c + 1, m0,
                       match StepEntry(layout, merge, i, v, c)
                       case None => m
                       case Some(entry) => m[entry.0 := entry.1])
  {
    var ms := SweptMoves(layout, merge, i, v, c);
    assert MapOfMoves(layout, i, c, ms, m0, m);
    var ox := StepMove(layout, merge, i, v, c);
    MovesGrow(layout, i, c, ms, m0, m, ox);
    assert MapOfMoves(layout, i, c + 1, SweptMoves(layout, merge, i, v, c + 1), m0,
                      match StepEntry(layout, merge, i, v, c)
                      case None => m
                      case Some(entry) => m[entry.0 := entry.1]);
  }

  /** The move step c of line i records, if any: the sweep's moves grow by it,
      it leaves distance c, and it is the step's entry. */
  lemma StepMove(layout: Layout, merge: (int, int) -> int, i: int, v: seq<int>, c: int) returns (ox: Option<Move>)
    requires 0 <= c < |v|
    ensures SweptMoves(layout, merge, i, v, c + 1) == SweptMoves(layout, merge, i, v, c) + ToSeq(ox)
    ensures ox.Some? ==> ox.value.outer == i && ox.value.shift.src == c
    ensures StepEntry(layout, merge, i, v, c)
         == if ox.Some? then Some((Source(layout, ox.value), Target(layout, ox.value))) else None
  {
    var line := Sweep(v, layout.base, merge, c).line;
    var st := Step(line, layout.base, merge, c).shift;
    SweptMovesNext(layout, merge, i, v, c);
    StepVacates(line, layout.base, merge, c);
    ox := if st.Some? then Some(Move(i, st.value)) else None;
  }

  /** The map after the moves grows by the step's move, whose key is new. */
  lemma MovesGrow(layout: Layout, i: int, c: int, ms: seq<Move>,
                  m0: map<Element, Element>, m: map<Element, Element>, ox: Option<Move>)
    requires MapOfMoves(layout, i, c, ms, m0, m)
    requires ox.Some? ==> ox.value.outer == i && ox.value.shift.src == c
    ensures ox.Some? ==> Source(layout, ox.value) !in m
    ensures MapOfMoves(layout, i, c + 1, ms + ToSeq(ox), m0,
                       if ox.Some? then m[Source(layout, ox.value) := Target(layout, ox.value)] else m)
  {
    if ox.Some? {
      MovesAdd(layout, i, c, ms, m0, m, ox.value);
      assert ToSeq(ox) == [ox.value];
    } else {
      MovesKeep(layout, i, c, ms, m0, m);
      assert ms + ToSeq(ox) == ms;
    }
  }

  /** The moves of the sweep one distance further: the step's move, if any, appended. */
  lemma SweptMovesNext(layout: Layout, merge: (int, int) -> int, i: int, v: seq<int>, c: int)
    requires 0 <= c < |v|
    ensures var st := Step(Sweep(v, layout.base, merge, c).line, layout.base, merge, c).shift;
            SweptMoves(layout, merge, i, v, c + 1)
            == if st.Some? then SweptMoves(layout, merge, i, v, c) + [Move(i, st.value)]
               else SweptMoves(layout, merge, i, v, c)
  {
    var prev := Sweep(v, layout.base, merge, c);
    var st := Step(prev.line, layout.base, merge, c).shift;
    SweepSnoc(v, layout.base, merge, c);
    if st.Some? {
      assert prev.shifts + ToSeq(st) == prev.shifts + [st.value];
      TagSnoc(i, prev.shifts, st.value);
    } else {
      assert prev.shifts + ToSeq(st) == prev.shifts;
    }
  }

  /** A move x leaving distance c of line i adds a key the map does not hold yet. */
  lemma MovesAdd(layout: Layout, i: int, c: int, ms: seq<Move>,
                 m0: map<Element, Element>, m: map<Element, Element>, x: Move)
    requires MapOfMoves(layout, i, c, ms, m0, m)
    requires x.outer == i && x.shift.src == c
    ensures Source(layout, x) !in m
    ensures MapOfMoves(layout, i, c + 1, ms + [x], m0, m[Source(layout, x) := Target(layout, x)])
  {
    MapAfterSnoc(layout, m0, ms, x);
  }

  /** A step that records no move leaves the map as it is. */
  lemma MovesKeep(layout: Layout, i: int, c: int, ms: seq<Move>,
                  m0: map<Element, Element>, m: map<Element, Element>)
    requires MapOfMoves(layout, i, c, ms, m0, m)
    ensures MapOfMoves(layout, i, c + 1, ms, m0, m)
  {
  }

  lemma TagSnoc(i: int, s: seq<Shift>, x: Shift)
    ensures Tag(i, s + [x]) == Tag(i, s) + [Move(i, x)]
  {
  }

  lemma MapAfterSnoc(layout: Layout, m0: map<Element, Element>, ms: seq<Move>, x: Move)
    ensures MapAfter(layout, m0, ms + [x]) == MapAfter(layout, m0, ms)[Source(layout, x) := Target(layout, x)]
  {
    assert (ms + [x])[..|ms|] == ms;
  }

  lemma {:induction false} MappedLineEnd(layout: Layout, merge: (int, int) -> int, i: int, v: seq<int>,
                      m0: map<Element, Element>, m: map<Element, Element>)
    requires MappedLine(layout, merge, i, v, |v|, m0, m)
    ensures m == MapAfter(layout, m0, Tag(i, Pass(v, layout.base, merge).shifts))
    ensures forall e :: e in m ==> Earlier(layout, e, i + 1, 0)
  {
    assert MapOfMoves(layout, i, |v|, SweptMoves(layout, merge, i, v, |v|), m0, m);
  }

  /** The map of a pass once lines 0 .. i-1 are done, when line o passes as
      `rs[o]`; every key comes from an earlier line. */
  ghost predicate MappedLines(layout: Layout, rs: seq<LinePass>, i: int, m: map<Element, Element>)
  {
    0 <= i <= |rs| && m == MapAfter(layout, map[], MovesOf(rs, i))
    && forall e :: e in m ==> Earlier(layout, e, i, 0)
  }

  lemma MappedLinesStart(layout: Layout, rs: seq<LinePass>)
    ensures MappedLines(layout, rs, 0, map[])
  {
  }

  lemma MappedLinesNext(layout: Layout, g: seq<seq<int>>, merge: (int, int) -> int, rs: seq<LinePass>, i: int,
                        m0: map<Element, Element>, m: map<Element, Element>)
    requires LinePasses(g, layout.alongRow, layout.isIncreasing, layout.base, merge, rs)
    requires MappedLines(layout, rs, i, m0) && i < |rs|
    requires MappedLine(layout, merge, i, LineOf(g, layout.alongRow, layout.isIncreasing, i),
                        layout.innerCount, m0, m)
    ensures MappedLines(layout, rs, i + 1, m)
  {
    var v := LineOf(g, layout.alongRow, layout.isIncreasing, i);
    MappedLineEnd(layout, merge, i, v, m0, m);
    assert rs[i] == Pass(v, layout.base, merge);
    MapAfterAppend(layout, map[], MovesOf(rs, i), Tag(i, rs[i].shifts));
  }

  lemma MappedLinesEnd(layout: Layout, g: seq<seq<int>>, merge: (int, int) -> int, rs: seq<LinePass>,
                       m: map<Element, Element>)
    requires LinePasses(g, layout.alongRow, layout.isIncreasing, layout.base, merge, rs)
    requires MappedLines(layout, rs, |rs|, m)
    ensures m == TransitionMap(layout, Moves(g, layout.alongRow, layout.isIncreasing, layout.base, merge))
  {
    MovesOfPasses(g, layout.alongRow, layout.isIncreasing, layout.base, merge, rs, |rs|);
  }

  /** The map of a whole pass has one entry per recorded move: the vacated
      cell maps to the cell the tile landed on with the value written there. */
  lemma PassMapExact(layout: Layout, g: seq<seq<int>>, merge: (int, int) -> int)
    requires IsGrid(g)
    ensures |TransitionMap(layout, Moves(g, layout.alongRow, layout.isIncreasing, layout.base, merge))|
         == |Moves(g, layout.alongRow, layout.isIncreasing, layout.base, merge)|
    ensures forall k :: 0 <= k < |Moves(g, layout.alongRow, layout.isIncreasing, layout.base, merge)| ==>
              var m := Moves(g, layout.alongRow, layout.isIncreasing, layout.base, merge)[k];
              Source(layout, m) in TransitionMap(layout, Moves(g, layout.alongRow, layout.isIncreasing, layout.base, merge))
              && TransitionMap(layout, Moves(g, layout.alongRow, layout.isIncreasing, layout.base, merge))[Source(layout, m)]
                 == Target(layout, m)
    ensures forall e :: e in TransitionMap(layout, Moves(g, layout.alongRow, layout.isIncreasing, layout.base, merge)) ==>
              exists k :: 0 <= k < |Moves(g, layout.alongRow, layout.isIncreasing, layout.base, merge)| &&
                e == Source(layout, Moves(g, layout.alongRow, layout.isIncreasing, layout.base, merge)[k])
  {
    PassMovesOrdered(g, layout.alongRow, layout.isIncreasing, layout.base, merge, OuterCount(g, layout.alongRow));
    TransitionMapExact(layout, Moves(g, layout.alongRow, layout.isIncreasing, layout.base, merge));
  }
}
