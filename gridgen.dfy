/** The benchmark's graph generator (benchmark/graphgenerator.js): an `x` by
    `y` grid of cells named `i + 'x' + j`, each linked at cost 1 to the cells
    around it, in the shape `setGraph` reads. */
module GridGen {
  import opened Wrappers
  import opened Text
  import opened JsInput
  import opened GraphInput

  /** The eight directions, in the order the generator lists them. */
  datatype Dir = N | NE | E | SE | S | SW | W | NW

  const Compass: seq<Dir> := [N, NE, E, SE, S, SW, W, NW]

  /** Which connections a cell gets: as the generator is written, or the
      cells of the grid around it, as its comments mean. */
  datatype Layout = AsWritten | Corrected

  /** The change in `i` (east) and in `j` (north) one step in `d` makes. */
  function DI(d: Dir): int {
    match d
    case NE | E | SE => 1
    case SW | W | NW => -1
    case N | S => 0
  }

  function DJ(d: Dir): int {
    match d
    case N | NE | NW => 1
    case SE | S | SW => -1
    case E | W => 0
  }

  /** An integer as JavaScript renders it when concatenated with a string. */
  function Render(a: int): string {
    if a >= 0 then NatToString(a) else "-" + NatToString(-a)
  }

  /** `i + 'x' + j`. */
  function CellName(i: int, j: int): string {
    Render(i) + "x" + Render(j)
  }

  /** With no `x` in `A`, the first `x` of `A + "x" + B` is at `|A|`. */
  lemma FirstX(A: string, B: string)
    requires 'x' !in A
    ensures (A + "x" + B)[|A|] == 'x'
    ensures forall k :: 0 <= k < |A| ==> (A + "x" + B)[k] != 'x'
  {
    forall k | 0 <= k < |A| ensures (A + "x" + B)[k] != 'x' {
      assert (A + "x" + B)[k] == A[k];
    }
  }

  /** A string split at its only-possible `x` splits one way. */
  lemma SplitAtX(A: string, B: string, C: string, D: string)
    requires 'x' !in A && 'x' !in C && A + "x" + B == C + "x" + D
    ensures A == C && B == D
  {
    var s := A + "x" + B;
    FirstX(A, B);
    FirstX(C, D);
    assert |A| == |C|;
    assert A == s[..|A|] && C == (C + "x" + D)[..|C|];
    assert B == s[|A| + 1..] && D == (C + "x" + D)[|C| + 1..];
  }

  /** The digits before the `x` and after it can be read back, so two cells
      share a name only when they are the same cell. */
  lemma CellNameInjective(a: nat, b: nat, c: nat, d: nat)
    ensures CellName(a, b) == CellName(c, d) <==> a == c && b == d
  {
    if CellName(a, b) == CellName(c, d) {
      SplitAtX(NatToString(a), NatToString(b), NatToString(c), NatToString(d));
      NatToStringInjective(a, c);
      NatToStringInjective(b, d);
    }
  }

  /** The cell of the grid `x` by `y` that `(a, b)` names, if it is one. */
  predicate InGrid(x: int, y: int, a: int, b: int) {
    1 <= a <= x && 1 <= b <= y
  }

  /** The connections of cell `(i, j)` as the branches at
      graphgenerator.js:22-70 list them: the first branch whose test holds
      wins. */
  function Written(x: int, y: int, i: int, j: int): seq<Dir> {
    if i == x && j == y then [S, SW, W]
    else if i == x then [SE, S, SW, W, NW]
    else if j == y then [E, SE, S, SW, W]
    else if i == 1 && j == 1 then [N, NE, E]
    else if i == 1 then [N, NE, E, SE, S]
    else if j == 1 then [N, NE, E, W, NW]
    else Compass
  }

  /** `[d]` when the step from `(i, j)` in `d` lands in the grid. */
  function Pick(x: int, y: int, i: int, j: int, d: Dir): (r: seq<Dir>)
    ensures d in r <==> InGrid(x, y, i + DI(d), j + DJ(d))
    ensures forall e :: e in r ==> e == d
    ensures |r| <= 1
  {
    if InGrid(x, y, i + DI(d), j + DJ(d)) then [d] else []
  }

  /** The directions from `(i, j)` that land in the grid, in compass order. */
  function Intended(x: int, y: int, i: int, j: int): seq<Dir> {
    Pick(x, y, i, j, N) + Pick(x, y, i, j, NE) + Pick(x, y, i, j, E) + Pick(x, y, i, j, SE)
    + Pick(x, y, i, j, S) + Pick(x, y, i, j, SW) + Pick(x, y, i, j, W) + Pick(x, y, i, j, NW)
  }

  function Connections(layout: Layout, x: int, y: int, i: int, j: int): seq<Dir> {
    match layout
    case AsWritten => Written(x, y, i, j)
    case Corrected => Intended(x, y, i, j)
  }

  /** `[name, 1]` for the cell one step from `(i, j)` in `d`. */
  function Link(i: int, j: int, d: Dir): Value {
    Array([Str(CellName(i + DI(d), j + DJ(d))), Number(1)])
  }

  /** `[[name, 1], …]` for the cells one step from `(i, j)` in `ds`. */
  function Links(i: int, j: int, ds: seq<Dir>): (r: seq<Value>)
    ensures |r| == |ds|
    ensures forall k :: 0 <= k < |ds| ==> r[k] == Link(i, j, ds[k])
  {
    seq(|ds|, k requires 0 <= k < |ds| => Link(i, j, ds[k]))
  }

  /** `[name, connections]` for cell `(i, j)`. */
  function Entry(layout: Layout, x: int, y: int, i: int, j: int): Value {
    Array([Str(CellName(i, j)), Array(Links(i, j, Connections(layout, x, y, i, j)))])
  }

  /** The cells of column `i` from row `j` up. */
  function CellRow(y: int, i: int, j: int): seq<(int, int)>
    decreases y + 1 - j
  {
    if j > y then [] else [(i, j)] + CellRow(y, i, j + 1)
  }

  /** The cells of the columns from `i` on, column by column. */
  function CellRows(x: int, y: int, i: int): seq<(int, int)>
    decreases x + 1 - i
  {
    if i > x then [] else CellRow(y, i, 1) + CellRows(x, y, i + 1)
  }

  /** The cells in the order the generator visits them. */
  function Cells(x: int, y: int): seq<(int, int)> {
    CellRows(x, y, 1)
  }

  /** The entries for `cs`, in order. */
  function Entries(layout: Layout, x: int, y: int, cs: seq<(int, int)>): (r: seq<Value>)
    ensures |r| == |cs|
    ensures forall k :: 0 <= k < |cs| ==> r[k] == Entry(layout, x, y, cs[k].0, cs[k].1)
  {
    seq(|cs|, k requires 0 <= k < |cs| => Entry(layout, x, y, cs[k].0, cs[k].1))
  }

  /** The whole array `generateGraph(x, y)` returns. */
  function Grid(layout: Layout, x: int, y: int): seq<Value> {
    Entries(layout, x, y, Cells(x, y))
  }

  lemma EntriesSnoc(layout: Layout, x: int, y: int, cs: seq<(int, int)>, i: int, j: int)
    ensures Entries(layout, x, y, cs + [(i, j)]) == Entries(layout, x, y, cs) + [Entry(layout, x, y, i, j)]
  {
    var l, r := Entries(layout, x, y, cs + [(i, j)]), Entries(layout, x, y, cs) + [Entry(layout, x, y, i, j)];
    forall k | 0 <= k < |l| ensures l[k] == r[k] {
      if k < |cs| {
        assert (cs + [(i, j)])[k] == cs[k];
      }
    }
  }

  /** `generateGraph(x, y)` (graphgenerator.js:1-87): column by column, row
      by row within a column, one `[name, connections]` entry per cell. */
  method GenerateGraph(x: int, y: int, layout: Layout) returns (graph: seq<Value>)
    ensures graph == Grid(layout, x, y)
  {
    graph := [];
    ghost var done: seq<(int, int)> := [];
    var i := 1;
    while i <= x
      invariant 1 <= i && (x >= 1 ==> i <= x + 1)
      invariant done + CellRows(x, y, i) == Cells(x, y) && graph == Entries(layout, x, y, done)
      decreases x + 1 - i
    {
      assert CellRows(x, y, i) == CellRow(y, i, 1) + CellRows(x, y, i + 1);
      var j := 1;
      while j <= y
        invariant 1 <= j && (y >= 1 ==> j <= y + 1)
        invariant done + CellRow(y, i, j) + CellRows(x, y, i + 1) == Cells(x, y)
        invariant graph == Entries(layout, x, y, done)
        decreases y + 1 - j
      {
        assert CellRow(y, i, j) == [(i, j)] + CellRow(y, i, j + 1);
        assert done + CellRow(y, i, j) == (done + [(i, j)]) + CellRow(y, i, j + 1);
        var name := CellName(i, j);
        var connections := Links(i, j, Connections(layout, x, y, i, j));
        var entry := Array([Str(name), Array(connections)]);
        assert entry == Entry(layout, x, y, i, j);
        EntriesSnoc(layout, x, y, done, i, j);
        graph := graph + [entry];
        done := done + [(i, j)];
        j := j + 1;
      }
      i := i + 1;
    }
  }

  // ------------------------------------------------------------ shape

  lemma {:induction false} CellRowAt(y: int, i: int, j: int)
    requires 1 <= j <= y + 1
    ensures |CellRow(y, i, j)| == y + 1 - j
    ensures forall b | j <= b <= y :: CellRow(y, i, j)[b - j] == (i, b)
    decreases y + 1 - j
  {
    if j <= y {
      CellRowAt(y, i, j + 1);
    }
  }

  lemma {:induction false} CellRowsSize(x: int, y: int, i: int)
    requires 1 <= i <= x + 1 && y >= 1
    ensures |CellRows(x, y, i)| == (x + 1 - i) * y
    decreases x + 1 - i
  {
    if i <= x {
      CellRowAt(y, i, 1);
      CellRowsSize(x, y, i + 1);
      assert (x + 1 - i) * y == y + (x + 1 - (i + 1)) * y;
    }
  }

  lemma StepIndex(y: int, i: int, a: int, b: int)
    ensures (a - i) * y + b - 1 == y + ((a - (i + 1)) * y + b - 1)
  {
  }

  lemma {:induction false} CellRowsAt(x: int, y: int, i: int, a: int, b: int)
    requires 1 <= i <= a <= x && 1 <= b <= y
    ensures 0 <= (a - i) * y + b - 1 < |CellRows(x, y, i)|
    ensures CellRows(x, y, i)[(a - i) * y + b - 1] == (a, b)
    decreases x + 1 - i
  {
    CellRowsSize(x, y, i);
    CellRowAt(y, i, 1);
    var r1, r2 := CellRow(y, i, 1), CellRows(x, y, i + 1);
    var n := (a - i) * y + b - 1;
    if a == i {
      assert n == b - 1;
      assert (r1 + r2)[n] == r1[b - 1];
    } else {
      CellRowsAt(x, y, i + 1, a, b);
      StepIndex(y, i, a, b);
      var m := (a - (i + 1)) * y + b - 1;
      assert n == |r1| + m;
      assert (r1 + r2)[n] == r2[m];
    }
  }

  lemma {:induction false} CellRowsEmpty(x: int, y: int, i: int)
    requires y < 1
    ensures CellRows(x, y, i) == []
    decreases x + 1 - i
  {
    if i <= x {
      CellRowsEmpty(x, y, i + 1);
    }
  }

  /** The generator visits `x * y` cells when both sides are at least 1,
      none otherwise, and cell `(a, b)` is the `(a - 1) * y + b - 1`-th:
      columns in order, rows in order within a column. */
  lemma CellsShape(x: int, y: int)
    ensures |Cells(x, y)| == if x >= 1 && y >= 1 then x * y else 0
    ensures forall a, b | InGrid(x, y, a, b) ::
      (a - 1) * y + b - 1 < |Cells(x, y)| && Cells(x, y)[(a - 1) * y + b - 1] == (a, b)
  {
    if y < 1 {
      CellRowsEmpty(x, y, 1);
    } else if x >= 1 {
      CellRowsSize(x, y, 1);
      forall a, b | InGrid(x, y, a, b)
        ensures (a - 1) * y + b - 1 < |Cells(x, y)| && Cells(x, y)[(a - 1) * y + b - 1] == (a, b)
      {
        CellRowsAt(x, y, 1, a, b);
      }
    }
  }

  /** Every entry is a pair of a name and a list of `[name, cost]` pairs, so
      `setGraph` takes the whole grid without a throw when it has a cell, and
      throws "graph is empty" when it has none. */
  lemma GridLoads(layout: Layout, x: int, y: int, g: Graph)
    ensures Loaded(g, Array(Grid(layout, x, y))).1 == if x >= 1 && y >= 1 then None else Some(GraphEmpty)
  {
    CellsShape(x, y);
    var cells := Grid(layout, x, y);
    forall k | 0 <= k < |cells| ensures GoodNode(cells[k]) {
      var c := Cells(x, y)[k];
      EntryGood(layout, x, y, c.0, c.1);
    }
    if x >= 1 && y >= 1 {
      assert |cells| >= 1 by {
        assert x * y >= 1;
      }
      LoadedOk(g, Array(cells));
    }
  }

  /** Cell `(a, b)` of the grid sits at position `(a - 1) * y + b - 1` of
      the result as `[name, connections]`: its own name, then one
      `[name, 1]` per connection, naming the cell one step away, in the
      order the layout lists the directions. */
  lemma GridCell(layout: Layout, x: int, y: int, a: int, b: int)
    requires InGrid(x, y, a, b)
    ensures 0 <= (a - 1) * y + b - 1 < |Grid(layout, x, y)|
    ensures var e := Grid(layout, x, y)[(a - 1) * y + b - 1]; var ds := Connections(layout, x, y, a, b);
      && e.Array? && |e.items| == 2 && e.items[0] == Str(CellName(a, b))
      && e.items[1].Array? && |e.items[1].items| == |ds|
      && forall k :: 0 <= k < |ds| ==>
           e.items[1].items[k] == Array([Str(CellName(a + DI(ds[k]), b + DJ(ds[k]))), Number(1)])
  {
    CellsShape(x, y);
    var idx := (a - 1) * y + b - 1;
    assert Cells(x, y)[idx] == (a, b);
    assert Grid(layout, x, y)[idx] == Entry(layout, x, y, a, b);
  }

  lemma EntryGood(layout: Layout, x: int, y: int, i: int, j: int)
    ensures GoodNode(Entry(layout, x, y, i, j))
  {
    LinksGood(i, j, Connections(layout, x, y, i, j));
  }

  lemma LinksGood(i: int, j: int, ds: seq<Dir>)
    ensures forall w :: w in Listed(Array(Links(i, j, ds))) ==> IsPair(w)
  {
    var ls := Links(i, j, ds);
    forall w | w in Listed(Array(ls)) ensures IsPair(w) {
      var k :| 0 <= k < |ls| && ls[k] == w;
      assert w == Link(i, j, ds[k]);
    }
  }

  // ------------------------------------------------------------ connections

  /** As written, every cell of column `x` below row `y` links south-east
      to a cell outside the grid, and not north to the cell above it. */
  lemma WrittenColumnX(x: int, y: int, j: int)
    requires x >= 1 && 1 <= j < y
    ensures SE in Written(x, y, x, j) && !InGrid(x, y, x + DI(SE), j + DJ(SE))
    ensures N !in Written(x, y, x, j) && InGrid(x, y, x + DI(N), j + DJ(N))
  {
  }

  /** As written, the top of column 1 links west into column 0, and the
      bottom of column `x` links south into row 0, whenever the grid is more
      than one cell wide or high respectively. */
  lemma WrittenEdges(x: int, y: int)
    requires x >= 1 && y >= 1
    ensures x > 1 ==> W in Written(x, y, 1, y) && !InGrid(x, y, 1 + DI(W), y + DJ(W))
    ensures y > 1 ==> S in Written(x, y, x, 1) && !InGrid(x, y, x + DI(S), 1 + DJ(S))
  {
  }

  /** As written, every cell gets 3, 5 or 8 connections, whatever the size
      of the grid. */
  lemma WrittenCounts(x: int, y: int, i: int, j: int)
    ensures |Written(x, y, i, j)| in {3, 5, 8}
  {
  }

  /** As written, the single cell of a 1 by 1 grid links to three cells,
      none of them in the grid. */
  lemma WrittenSingle()
    ensures |Written(1, 1, 1, 1)| == 3
    ensures forall d :: d in Written(1, 1, 1, 1) ==> !InGrid(1, 1, 1 + DI(d), 1 + DJ(d))
  {
  }

  /** The 2 by 2 grid as written: cell `2x1` links to `3x0`, which is not a
      cell, and not to `2x2`, which is. */
  lemma WrittenTwoByTwo()
    ensures Links(2, 1, Written(2, 2, 2, 1))[0] == Array([Str(CellName(3, 0)), Number(1)])
    ensures forall k :: 0 <= k < |Written(2, 2, 2, 1)| ==>
      Links(2, 1, Written(2, 2, 2, 1))[k] != Array([Str(CellName(2, 2)), Number(1)])
  {
    forall k | 0 <= k < |Written(2, 2, 2, 1)|
      ensures Links(2, 1, Written(2, 2, 2, 1))[k] != Array([Str(CellName(2, 2)), Number(1)])
    {
      var d := Written(2, 2, 2, 1)[k];
      CellNameInjective(2 + DI(d), 1 + DJ(d), 2, 2);
    }
  }

  /** Corrected, a cell links in direction `d` exactly when the step lands
      in the grid, and in each direction at most once. */
  lemma IntendedExact(x: int, y: int, i: int, j: int)
    ensures forall d :: d in Intended(x, y, i, j) <==> InGrid(x, y, i + DI(d), j + DJ(d))
    ensures |Intended(x, y, i, j)| <= 8
  {
    forall d ensures d in Intended(x, y, i, j) <==> InGrid(x, y, i + DI(d), j + DJ(d)) {
      var p := Pick(x, y, i, j, d);
      assert d in p <==> InGrid(x, y, i + DI(d), j + DJ(d));
      assert d in Intended(x, y, i, j) <==>
        d in Pick(x, y, i, j, N) || d in Pick(x, y, i, j, NE) || d in Pick(x, y, i, j, E)
        || d in Pick(x, y, i, j, SE) || d in Pick(x, y, i, j, S) || d in Pick(x, y, i, j, SW)
        || d in Pick(x, y, i, j, W) || d in Pick(x, y, i, j, NW);
    }
  }

  /** Corrected, in a grid at least 2 by 2, the four corners have 3
      connections, the other border cells 5, and the inner cells 8. */
  lemma IntendedCounts(x: int, y: int, i: int, j: int)
    requires x >= 2 && y >= 2 && InGrid(x, y, i, j)
    ensures |Intended(x, y, i, j)| ==
      if (i == 1 || i == x) && (j == 1 || j == y) then 3
      else if i == 1 || i == x || j == 1 || j == y then 5
      else 8
  {
  }

  /** The direction back. */
  function Opposite(d: Dir): (r: Dir)
    ensures DI(r) == -DI(d) && DJ(r) == -DJ(d)
  {
    match d
    case N => S case NE => SW case E => W case SE => NW
    case S => N case SW => NE case W => E case NW => SE
  }

  /** Corrected, every link goes to a cell of the grid, and the cell it
      goes to links back. */
  lemma IntendedSymmetric(x: int, y: int, i: int, j: int, d: Dir)
    requires InGrid(x, y, i, j) && d in Intended(x, y, i, j)
    ensures InGrid(x, y, i + DI(d), j + DJ(d))
    ensures Opposite(d) in Intended(x, y, i + DI(d), j + DJ(d))
  {
    IntendedExact(x, y, i, j);
    IntendedExact(x, y, i + DI(d), j + DJ(d));
  }

  /** Away from column `x`, from the top of column 1, and with more than one
      row, the written branches list exactly the cells of the grid around
      the cell: the error is confined to the cells the other lemmas name. */
  lemma WrittenAgrees(x: int, y: int, i: int, j: int)
    requires 1 <= i < x && 1 <= j <= y && y >= 2 && !(i == 1 && j == y)
    ensures Written(x, y, i, j) == Intended(x, y, i, j)
  {
  }
}
