/** The dashboard layout: panels packed left to right on a grid of 24 columns, and why no arrangement in
    list order uses fewer rows. */
module Dashboard {

  const WIDTH: nat := 24
  const ROW_HEIGHT: nat := 8

  class Panel {
    const w: int
    var x: int
    var y: int

    constructor (w: int)
      ensures this.w == w && x == 0 && y == 0
    {
      this.w, x, y := w, 0, 0;
    }
  }

  datatype Pos = Pos(x: int, y: int)

  /** Where the cursor stands after packing some panels: next free column, and the current row's y. */
  function Cursor(ws: seq<int>): Pos
    decreases |ws|, 0
  {
    if ws == [] then Pos(0, 0)
    else
      var p := Place(ws[..|ws| - 1], ws[|ws| - 1]);
      Pos(p.x + ws[|ws| - 1], p.y)
  }

  /** Where a panel of width w goes after the panels before it. */
  function Place(before: seq<int>, w: int): Pos
    decreases |before|, 1
  {
    var c := Cursor(before);
    if c.x + w > WIDTH then Pos(0, c.y + ROW_HEIGHT) else c
  }

  function PosOf(ws: seq<int>, i: nat): Pos
    requires i < |ws|
  {
    Place(ws[..i], ws[i])
  }

  function Widths(panels: seq<Panel>): (ws: seq<int>)
    ensures |ws| == |panels| && forall i :: 0 <= i < |panels| ==> ws[i] == panels[i].w
  {
    seq(|panels|, i requires 0 <= i < |panels| => panels[i].w)
  }

  /** Packs the panels in place. Every panel is an object of its own. */
  method Layout(panels: seq<Panel>)
    requires forall i, j :: 0 <= i < j < |panels| ==> panels[i] != panels[j]
    modifies panels
    ensures forall i :: 0 <= i < |panels| ==> Pos(panels[i].x, panels[i].y) == PosOf(Widths(panels), i)
  {
    ghost var ws := Widths(panels);
    var x, y := 0, 0;
    for i := 0 to |panels|
      invariant Pos(x, y) == Cursor(ws[..i])
      invariant forall j :: 0 <= j < i ==> Pos(panels[j].x, panels[j].y) == PosOf(ws, j)
    {
      assert ws[..i + 1][..i] == ws[..i];
      var width := panels[i].w;
      if x + width > WIDTH {
        x, y := 0, y + ROW_HEIGHT;
      }
      panels[i].x, panels[i].y := x, y;
      x := x + width;
    }
  }

  /******* Each panel after the one before *******/

  /** The first panel is at the origin, unless it is too wide and goes one row down; every other panel is right
      beside the one before it when both fit in the 24 columns, and otherwise at the left, exactly one row of
      height 8 further down. */
  lemma NextPanel(ws: seq<int>, i: nat)
    requires i < |ws|
    ensures PosOf(ws, i) ==
      if i == 0 then Pos(0, if ws[0] > 24 then 8 else 0)
      else
        var p := PosOf(ws, i - 1);
        if p.x + ws[i - 1] + ws[i] <= 24 then Pos(p.x + ws[i - 1], p.y) else Pos(0, p.y + 8)
  {
    if i == 0 {
      assert ws[..i] == [] && Cursor([]) == Pos(0, 0);
      assert PosOf(ws, i) == Place([], ws[0]);
    } else {
      assert ws[..i][..i - 1] == ws[..i - 1] && ws[..i][i - 1] == ws[i - 1];
      assert Cursor(ws[..i]) == Pos(PosOf(ws, i - 1).x + ws[i - 1], PosOf(ws, i - 1).y);
    }
  }

  /** No row is left empty: the panels use all rows from the first to that of the last panel. */
  lemma {:induction false} NoEmptyRows(ws: seq<int>)
    requires Fits(ws) && ws != []
    ensures PosOf(ws, 0) == Pos(0, 0)
    ensures RowsUsed(LayoutRows(ws)) * 8 == PosOf(ws, |ws| - 1).y + 8
  {
    NextPanel(ws, 0);
    LayoutRowsStep(ws);
    var n := |ws| - 1;
    if n > 0 {
      var front := ws[..n];
      NoEmptyRows(front);
      NextPanel(ws, n);
      assert front[..n - 1] == ws[..n - 1];
      assert PosOf(front, n - 1) == PosOf(ws, n - 1);
    }
  }

  /******* Inside the grid, no overlap, reading order *******/

  ghost predicate Positive(ws: seq<int>) {
    forall i :: 0 <= i < |ws| ==> 1 <= ws[i]
  }

  ghost predicate Fits(ws: seq<int>) {
    forall i :: 0 <= i < |ws| ==> 1 <= ws[i] <= WIDTH
  }

  lemma {:induction false} CursorBounds(ws: seq<int>)
    requires Positive(ws)
    ensures Cursor(ws).x >= 0 && Cursor(ws).y >= 0 && Cursor(ws).y % ROW_HEIGHT == 0
    ensures ws != [] ==> Cursor(ws).x > 0
    ensures Fits(ws) ==> Cursor(ws).x <= WIDTH
  {
    if ws != [] {
      CursorBounds(ws[..|ws| - 1]);
    }
  }

  /** Every panel lies inside the 24 columns exactly when no panel is wider than the grid. */
  lemma InsideIffFits(ws: seq<int>)
    requires Positive(ws)
    ensures Fits(ws) <==> forall i :: 0 <= i < |ws| ==> 0 <= PosOf(ws, i).x && PosOf(ws, i).x + ws[i] <= WIDTH
  {
    forall i | 0 <= i < |ws| ensures PosOf(ws, i).x >= 0 && (ws[i] <= WIDTH ==> PosOf(ws, i).x + ws[i] <= WIDTH) {
      CursorBounds(ws[..i]);
    }
  }

  /** p comes before q in reading order, with a panel of width w at p ending where q may start. */
  predicate ReadsBefore(p: Pos, w: int, q: Pos) {
    p.y + ROW_HEIGHT <= q.y || (p.y == q.y && p.x + w <= q.x)
  }

  /** Reading order is list order, and so no two panels overlap: the earlier one is a full row above, or
      to the left in the same row. Holds for any positive widths. */
  lemma {:induction false} ReadingOrderIsListOrder(ws: seq<int>, i: nat, j: nat)
    requires Positive(ws) && i < j < |ws|
    ensures ReadsBefore(PosOf(ws, i), ws[i], PosOf(ws, j))
  {
    CursorBounds(ws[..j]);
    assert ws[..j][..j - 1] == ws[..j - 1];
    assert Cursor(ws[..j]) == Pos(PosOf(ws, j - 1).x + ws[j - 1], PosOf(ws, j - 1).y);
    if i < j - 1 {
      ReadingOrderIsListOrder(ws, i, j - 1);
    }
  }

  /** Two panels of the grid share a cell. */
  predicate Overlap(p: Pos, w: int, q: Pos, v: int) {
    p.x < q.x + v && q.x < p.x + w && p.y < q.y + ROW_HEIGHT && q.y < p.y + ROW_HEIGHT
  }

  lemma NoOverlap(ws: seq<int>, i: nat, j: nat)
    requires Positive(ws) && i < |ws| && j < |ws| && i != j
    ensures !Overlap(PosOf(ws, i), ws[i], PosOf(ws, j), ws[j])
  {
    ReadingOrderIsListOrder(ws, if i < j then i else j, if i < j then j else i);
  }

  /******* The fewest rows *******/

  /** Assigns each panel a row: rows never go back along the list, and no row is wider than the grid. */
  ghost predicate RowAssignment(ws: seq<int>, rows: seq<int>) {
    && |rows| == |ws|
    && (forall i, j :: 0 <= i < j < |rows| ==> rows[i] <= rows[j])
    && (forall r :: Load(ws, rows, r) <= WIDTH)
  }

  function Load(ws: seq<int>, rows: seq<int>, r: int): int
    requires |rows| == |ws|
  {
    if ws == [] then 0
    else Load(ws[..|ws| - 1], rows[..|ws| - 1], r) + if rows[|ws| - 1] == r then ws[|ws| - 1] else 0
  }

  function RowsUsed(rows: seq<int>): nat {
    |set i | 0 <= i < |rows| :: rows[i]|
  }

  /** The rows that the layout uses, read off the y coordinates. */
  function LayoutRows(ws: seq<int>): seq<int> {
    seq(|ws|, i requires 0 <= i < |ws| => PosOf(ws, i).y / ROW_HEIGHT)
  }

  lemma RowsUsedStep(rows: seq<int>)
    requires rows != [] && forall i, j :: 0 <= i < j < |rows| ==> rows[i] <= rows[j]
    ensures var front := rows[..|rows| - 1];
      RowsUsed(rows) == RowsUsed(front) + if front == [] || front[|front| - 1] != rows[|rows| - 1] then 1 else 0
  {
    var front, last := rows[..|rows| - 1], rows[|rows| - 1];
    var used := set i | 0 <= i < |front| :: front[i];
    var all := set i | 0 <= i < |rows| :: rows[i];
    assert forall i :: 0 <= i < |front| ==> front[i] == rows[i];
    assert all == used + {last};
    if front != [] && front[|front| - 1] == last {
      assert last in used;
      assert all == used;
    } else if front != [] {
      assert last !in used;
    }
  }

  lemma {:induction false} LoadOfLaterRow(ws: seq<int>, rows: seq<int>, r: int)
    requires |rows| == |ws| && forall i :: 0 <= i < |rows| ==> rows[i] < r
    ensures Load(ws, rows, r) == 0
  {
    if ws != [] {
      LoadOfLaterRow(ws[..|ws| - 1], rows[..|ws| - 1], r);
    }
  }

  lemma {:induction false} LoadNonNegative(ws: seq<int>, rows: seq<int>, r: int)
    requires |rows| == |ws| && Positive(ws)
    ensures Load(ws, rows, r) >= 0
  {
    if ws != [] {
      LoadNonNegative(ws[..|ws| - 1], rows[..|ws| - 1], r);
    }
  }

  /** The layout's own rows are such an assignment, and the last one carries exactly the cursor's width. */
  lemma {:induction false} LayoutIsAssignment(ws: seq<int>)
    requires Fits(ws)
    ensures RowAssignment(ws, LayoutRows(ws))
    ensures ws != [] ==> LayoutRows(ws)[|ws| - 1] * ROW_HEIGHT == Cursor(ws).y
    ensures ws != [] ==> Load(ws, LayoutRows(ws), LayoutRows(ws)[|ws| - 1]) == Cursor(ws).x
  {
    if ws != [] {
      var n := |ws| - 1;
      var front, rows := ws[..n], LayoutRows(ws);
      LayoutIsAssignment(front);
      CursorBounds(front);
      LayoutRowsPrefix(ws);
      forall i | 0 <= i < n ensures rows[i] <= rows[n] {
        ReadingOrderIsListOrder(ws, i, n);
      }
      if n > 0 && PosOf(ws, n).x == 0 {
        assert rows[n] == rows[n - 1] + 1;
        LoadOfLaterRow(front, rows[..n], rows[n]);
      } else if n > 0 {
        assert rows[n] == rows[n - 1];
      }
      forall r ensures Load(ws, rows, r) <= WIDTH {
        assert Load(front, rows[..n], r) <= WIDTH;
      }
    }
  }

  /** One more panel of width w: greedy rows and cursor against the rows and load of another assignment. */
  lemma StaysAheadStep(w: int, greedy: nat, x: int, rows: nat, load: int, newRow: bool)
    requires 1 <= w && x + w > 0 && load >= 0 && greedy <= rows && (greedy == rows ==> x <= load)
    requires (if newRow then w else load + w) <= WIDTH
    ensures var greedy' := if x + w > WIDTH then greedy + 1 else greedy;
      var x' := if x + w > WIDTH then w else x + w;
      var rows' := if newRow then rows + 1 else rows;
      greedy' <= rows' && (greedy' == rows' ==> x' <= if newRow then w else load + w)
  {
  }

  /** At every point of the list, the layout has used fewer rows than any other assignment, or as many
      with no more width taken in the last one. */
  lemma {:induction false} LayoutStaysAhead(ws: seq<int>, rows: seq<int>)
    requires Fits(ws) && RowAssignment(ws, rows)
    ensures RowsUsed(LayoutRows(ws)) <= RowsUsed(rows)
    ensures ws != [] && RowsUsed(LayoutRows(ws)) == RowsUsed(rows) ==> Cursor(ws).x <= Load(ws, rows, rows[|ws| - 1])
  {
    if ws != [] {
      var n := |ws| - 1;
      var front, before := ws[..n], rows[..n];
      PrefixAssignment(ws, rows);
      LayoutStaysAhead(front, before);
      LayoutRowsStep(ws);
      RowsUsedStep(rows);
      assert Load(ws, rows, rows[n]) <= WIDTH;
      if n > 0 {
        CursorBounds(front);
        LoadNonNegative(front, before, before[n - 1]);
        if rows[n] != rows[n - 1] {
          LoadOfLaterRow(front, before, rows[n]);
        }
        StaysAheadStep(ws[n], RowsUsed(LayoutRows(front)), Cursor(front).x, RowsUsed(before),
                       Load(front, before, before[n - 1]), rows[n] != rows[n - 1]);
      }
    }
  }

  /** The layout uses one more row exactly when the next panel starts a new one. */
  lemma LayoutRowsStep(ws: seq<int>)
    requires Fits(ws) && ws != []
    ensures var front, w := ws[..|ws| - 1], ws[|ws| - 1];
      var newRow := front == [] || Cursor(front).x + w > WIDTH;
      RowsUsed(LayoutRows(ws)) == RowsUsed(LayoutRows(front)) + if newRow then 1 else 0
  {
    var n := |ws| - 1;
    var front := ws[..n];
    LayoutIsAssignment(ws);
    LayoutRowsPrefix(ws);
    RowsUsedStep(LayoutRows(ws));
    if n > 0 {
      LayoutIsAssignment(front);
      assert LayoutRows(ws)[n - 1] == LayoutRows(front)[n - 1];
    }
  }

  lemma LayoutRowsPrefix(ws: seq<int>)
    requires ws != []
    ensures LayoutRows(ws)[..|ws| - 1] == LayoutRows(ws[..|ws| - 1])
  {
    forall i | 0 <= i < |ws| - 1 ensures LayoutRows(ws)[i] == LayoutRows(ws[..|ws| - 1])[i] {
      assert ws[..|ws| - 1][..i] == ws[..i];
    }
  }

  lemma PrefixAssignment(ws: seq<int>, rows: seq<int>)
    requires ws != [] && Fits(ws) && RowAssignment(ws, rows)
    ensures RowAssignment(ws[..|ws| - 1], rows[..|ws| - 1])
  {
    var front, rowsFront := ws[..|ws| - 1], rows[..|ws| - 1];
    forall r ensures Load(front, rowsFront, r) <= WIDTH {
      assert Load(ws, rows, r) <= WIDTH;
    }
  }

  /** No order-preserving assignment of panels to rows uses fewer rows than the layout does. */
  lemma LayoutUsesFewestRows(ws: seq<int>, rows: seq<int>)
    requires Fits(ws) && RowAssignment(ws, rows)
    ensures RowAssignment(ws, LayoutRows(ws)) && RowsUsed(LayoutRows(ws)) <= RowsUsed(rows)
  {
    LayoutIsAssignment(ws);
    LayoutStaysAhead(ws, rows);
  }
}
