/** The PDF table: how the available width is shared among the columns, and where the rows land on the
    pages. Lengths are exact reals, in millimetres. */
module PdfTable {

  /******* Column widths *******/

  datatype Column = Column(width: real, contentLen: real) {
    predicate Fixed() {
      width > 0.0
    }

    /** The relative weight of a column without a width of its own. */
    function Weight(): (w: real)
      ensures w > 0.0
    {
      if contentLen <= 0.0 then 1.0 else contentLen
    }
  }

  function FixedTotal(cols: seq<Column>): (t: real)
    ensures t >= 0.0
  {
    if cols == [] then 0.0
    else
      var c := cols[|cols| - 1];
      FixedTotal(cols[..|cols| - 1]) + if c.Fixed() then c.width else 0.0
  }

  function WeightTotal(cols: seq<Column>): (t: real)
    ensures t >= 0.0
  {
    if cols == [] then 0.0
    else
      var c := cols[|cols| - 1];
      WeightTotal(cols[..|cols| - 1]) + if c.Fixed() then 0.0 else c.Weight()
  }

  predicate SomeAuto(cols: seq<Column>) {
    exists i :: 0 <= i < |cols| && !cols[i].Fixed()
  }

  lemma {:induction false} AutoMeansWeight(cols: seq<Column>)
    ensures SomeAuto(cols) <==> WeightTotal(cols) > 0.0
  {
    if cols != [] {
      var front := cols[..|cols| - 1];
      AutoMeansWeight(front);
      assert forall i :: 0 <= i < |front| ==> front[i] == cols[i];
    }
  }

  /** What the automatic columns share: the rest of the width, or all of it when nothing is left. */
  function Shared(cols: seq<Column>, available: real): real {
    var remaining := available - FixedTotal(cols);
    if remaining < 0.0 then available else remaining
  }

  function Share(shared: real, weight: real, weights: real): real
    requires weights > 0.0
  {
    shared * (weight / weights)
  }

  /** The shares out of `shared` for weights out of `weights`. */
  function SharesTotal(cols: seq<Column>, shared: real, weights: real): real
    requires weights > 0.0
  {
    if cols == [] then 0.0
    else
      var c := cols[|cols| - 1];
      SharesTotal(cols[..|cols| - 1], shared, weights) + if c.Fixed() then 0.0 else Share(shared, c.Weight(), weights)
  }

  function Sum(s: seq<real>): real {
    if s == [] then 0.0 else Sum(s[..|s| - 1]) + s[|s| - 1]
  }

  /** What the widths promise: fixed columns keep theirs, the others share in proportion to weight. */
  ghost predicate Resolved(cols: seq<Column>, available: real, widths: seq<real>) {
    && |widths| == |cols|
    && (forall i :: 0 <= i < |cols| && cols[i].Fixed() ==> widths[i] == cols[i].width)
    && (forall i :: 0 <= i < |cols| && !cols[i].Fixed() ==>
          WeightTotal(cols) > 0.0 && widths[i] == Share(Shared(cols, available), cols[i].Weight(), WeightTotal(cols)))
  }

  method ResolveWidths(cols: seq<Column>, available: real) returns (widths: array<real>)
    ensures fresh(widths) && Resolved(cols, available, widths[..])
  {
    AutoMeansWeight(cols);
    widths := new real[|cols|];
    var total, weightTotal := 0.0, 0.0;
    for i := 0 to |cols|
      invariant total == FixedTotal(cols[..i]) && weightTotal == WeightTotal(cols[..i])
      invariant forall j :: 0 <= j < i && cols[j].Fixed() ==> widths[j] == cols[j].width
    {
      assert cols[..i + 1][..i] == cols[..i];
      if cols[i].width > 0.0 {
        widths[i] := cols[i].width;
        total := total + cols[i].width;
        continue;
      }
      var w := cols[i].contentLen;
      if w <= 0.0 {
        w := 1.0;
      }
      weightTotal := weightTotal + w;
    }
    assert cols[..|cols|] == cols;
    var remaining := available - total;
    if remaining < 0.0 {
      remaining := available;
    }
    for i := 0 to |cols|
      invariant forall j :: 0 <= j < |cols| && cols[j].Fixed() ==> widths[j] == cols[j].width
      invariant forall j :: 0 <= j < i && !cols[j].Fixed() ==>
        weightTotal > 0.0 && widths[j] == Share(remaining, cols[j].Weight(), weightTotal)
    {
      if cols[i].width > 0.0 {
        continue;
      }
      var w := cols[i].contentLen;
      if w <= 0.0 {
        w := 1.0;
      }
      assert SomeAuto(cols);
      widths[i] := Share(remaining, w, weightTotal);
    }
  }

  method TableWidth(widths: seq<real>) returns (total: real)
    ensures total == Sum(widths)
  {
    total := 0.0;
    for i := 0 to |widths|
      invariant total == Sum(widths[..i])
    {
      assert widths[..i + 1][..i] == widths[..i];
      total := total + widths[i];
    }
    assert widths[..|widths|] == widths;
  }

  lemma ShareOfAll(shared: real, weights: real)
    requires weights > 0.0
    ensures Share(shared, weights, weights) == shared
  {
    assert weights / weights == 1.0;
  }

  lemma ShareAdds(shared: real, a: real, b: real, weights: real)
    requires weights > 0.0
    ensures Share(shared, a, weights) + Share(shared, b, weights) == Share(shared, a + b, weights)
  {
    assert (a + b) / weights == a / weights + b / weights;
  }

  lemma {:induction false} SharesAddUp(cols: seq<Column>, shared: real, weights: real)
    requires weights > 0.0
    ensures SharesTotal(cols, shared, weights) == Share(shared, WeightTotal(cols), weights)
  {
    if cols == [] {
      assert 0.0 / weights == 0.0;
    } else {
      var front, c := cols[..|cols| - 1], cols[|cols| - 1];
      SharesAddUp(front, shared, weights);
      ShareAdds(shared, WeightTotal(front), c.Weight(), weights);
    }
  }

  lemma {:induction false} SumSplits(cols: seq<Column>, widths: seq<real>, shared: real, weights: real)
    requires |widths| == |cols| && weights > 0.0
    requires forall i :: 0 <= i < |cols| ==>
      widths[i] == if cols[i].Fixed() then cols[i].width else Share(shared, cols[i].Weight(), weights)
    ensures Sum(widths) == FixedTotal(cols) + SharesTotal(cols, shared, weights)
  {
    if cols != [] {
      SumSplits(cols[..|cols| - 1], widths[..|cols| - 1], shared, weights);
    }
  }

  lemma {:induction false} SumOfFixed(cols: seq<Column>, widths: seq<real>)
    requires |widths| == |cols| && !SomeAuto(cols)
    requires forall i :: 0 <= i < |cols| && cols[i].Fixed() ==> widths[i] == cols[i].width
    ensures Sum(widths) == FixedTotal(cols)
  {
    if cols != [] {
      var front := cols[..|cols| - 1];
      assert cols[|cols| - 1].Fixed();
      assert !SomeAuto(front) by { assert forall i :: 0 <= i < |front| ==> front[i] == cols[i]; }
      SumOfFixed(front, widths[..|cols| - 1]);
    }
  }

  /** The table is as wide as the fixed columns plus what the automatic ones share: the available width
      when the fixed columns fit, the fixed total plus the whole available width when they do not. */
  lemma TotalWidth(cols: seq<Column>, available: real, widths: seq<real>)
    requires Resolved(cols, available, widths)
    ensures Sum(widths) ==
      if !SomeAuto(cols) then FixedTotal(cols)
      else if FixedTotal(cols) <= available then available
      else FixedTotal(cols) + available
  {
    AutoMeansWeight(cols);
    if SomeAuto(cols) {
      var weights := WeightTotal(cols);
      SumSplits(cols, widths, Shared(cols, available), weights);
      SharesAddUp(cols, Shared(cols, available), weights);
      ShareOfAll(Shared(cols, available), weights);
    } else {
      SumOfFixed(cols, widths);
    }
  }

  /** So the table fills the page exactly in these cases. */
  lemma FillsPageIff(cols: seq<Column>, available: real, widths: seq<real>)
    requires Resolved(cols, available, widths)
    ensures Sum(widths) == available <==>
      if SomeAuto(cols) then FixedTotal(cols) <= available || FixedTotal(cols) == 0.0 else FixedTotal(cols) == available
  {
    TotalWidth(cols, available, widths);
  }

  /** Columns with a width keep it. Two columns without are to each other as their content lengths, and one
      without a content length counts as one of length 1. */
  lemma WidthsByContent(cols: seq<Column>, available: real, widths: seq<real>, i: nat, j: nat)
    requires Resolved(cols, available, widths) && i < |cols| && j < |cols|
    ensures cols[i].width > 0.0 ==> widths[i] == cols[i].width
    ensures cols[i].width <= 0.0 && cols[j].width <= 0.0 ==>
      widths[i] * (if cols[j].contentLen > 0.0 then cols[j].contentLen else 1.0) ==
      widths[j] * (if cols[i].contentLen > 0.0 then cols[i].contentLen else 1.0)
  {
    if cols[i].width <= 0.0 && cols[j].width <= 0.0 {
      SharesProportional(Shared(cols, available), cols[i].Weight(), cols[j].Weight(), WeightTotal(cols));
    }
  }

  lemma SharesProportional(shared: real, a: real, b: real, weights: real)
    requires weights > 0.0
    ensures Share(shared, a, weights) * b == Share(shared, b, weights) * a
  {
    var x, y := a / weights, b / weights;
    assert a == x * weights && b == y * weights;
    assert x * b == y * a by {
      assert x * (y * weights) == y * (x * weights);
    }
    assert (shared * x) * b == shared * (x * b) && (shared * y) * a == shared * (y * a);
  }

  /******* Rows and pages *******/

  const MARGIN_TOP := 12.0
  const MARGIN_BOTTOM := 12.0
  const HEADER_HEIGHT := 9.0
  const LOGO_HEIGHT := 14.0
  const LINE_HEIGHT := 5.0

  /** The brand block above the table: whether there is one, whether it repeats, whether its logo can be
      read, the lines on its left and on its right, and its divider. */
  datatype Brand = Brand(present: bool, repeats: bool, logoFails: bool, left: nat, right: nat, divider: bool)

  datatype Geometry = Geometry(pageHeight: real, columns: nat, rowHeight: real, repeatHeader: bool, brand: Brand) {
    /** The code starts a new page for a row that would end below this line. */
    function Limit(): real {
      pageHeight - MARGIN_BOTTOM - 8.0
    }

    /** gofpdf starts a new page by itself for a cell that would end below this line. */
    function Trigger(): real {
      pageHeight - (MARGIN_BOTTOM + 6.0)
    }
  }

  datatype Cursor = Cursor(page: nat, y: real)

  /** Automatic page breaks while `cells` cells of this height are drawn side by side from y. */
  function AutoBreaks(g: Geometry, y: real, height: real, cells: nat): nat {
    if cells == 0 || y + height <= g.Trigger() then 0
    else if MARGIN_TOP + height <= g.Trigger() then 1
    else cells
  }

  function AfterCells(g: Geometry, c: Cursor, height: real, cells: nat): Cursor {
    var breaks := AutoBreaks(g, c.y, height, cells);
    if breaks == 0 then c else Cursor(c.page + breaks, MARGIN_TOP)
  }

  function AfterHeader(g: Geometry, c: Cursor): Cursor {
    var d := AfterCells(g, c, HEADER_HEIGHT, g.columns);
    Cursor(d.page, d.y + HEADER_HEIGHT)
  }

  /** Automatic page breaks while `lines` text lines are drawn one below the other from `top`. Each line is
      a cell at its own fixed height, so each breaks the page or not by itself. */
  function LineBreaks(g: Geometry, top: real, lines: nat): nat {
    if lines == 0 then 0
    else LineBreaks(g, top, lines - 1) + AutoBreaks(g, top + ((lines - 1) as real) * LINE_HEIGHT, LINE_HEIGHT, 1)
  }

  function BrandHeight(b: Brand): real {
    var text := (if b.left > b.right then b.left else b.right) as real * LINE_HEIGHT;
    (if text > LOGO_HEIGHT then text else LOGO_HEIGHT) + 2.0 + if b.divider then 2.0 else 0.0
  }

  /** Below the brand block the cursor is set absolutely, wherever the lines left it. */
  function AfterBrand(g: Geometry, c: Cursor): Cursor {
    if g.brand.logoFails then c
    else
      var breaks := LineBreaks(g, c.y, g.brand.left) + LineBreaks(g, c.y, g.brand.right);
      Cursor(c.page + breaks, c.y + BrandHeight(g.brand))
  }

  /** Where the first row goes on the page that follows `page`, below the repeated blocks. */
  function FreshStart(g: Geometry, page: nat): Cursor {
    var c := Cursor(page + 1, MARGIN_TOP);
    var d := if g.brand.present && g.brand.repeats then AfterBrand(g, c) else c;
    if g.repeatHeader then AfterHeader(g, d) else d
  }

  function FreshY(g: Geometry): real {
    FreshStart(g, 0).y
  }

  lemma FreshStartShape(g: Geometry, page: nat)
    ensures FreshStart(g, page).y == FreshY(g) && FreshStart(g, page).page > page
  {
  }

  /** What is put on the pages: a page opened for a row, the brand block, the header, a row. */
  datatype Mark = PageMark(page: nat) | BrandMark(page: nat) | HeaderMark(page: nat) | RowMark(start: Cursor)

  /** gofpdf's cursor and the calls that move it. */
  class Fpdf {
    const g: Geometry
    var page: nat
    var y: real
    var lastHeight: real
    ghost var marks: seq<Mark>

    constructor (g: Geometry)
      ensures this.g == g && page == 1 && y == MARGIN_TOP && marks == []
    {
      this.g, page, y, lastHeight, marks := g, 1, MARGIN_TOP, 0.0, [];
    }

    function At(): Cursor
      reads this
    {
      Cursor(page, y)
    }

    method AddPage()
      modifies this`page, this`y
      ensures page == old(page) + 1 && y == MARGIN_TOP
    {
      page, y := page + 1, MARGIN_TOP;
    }

    method CellFormat(height: real)
      modifies this`page, this`y, this`lastHeight
      ensures lastHeight == height && At() == AfterCells(g, old(At()), height, 1)
    {
      if y + height > g.Trigger() {
        AddPage();
      }
      lastHeight := height;
    }

    method Ln(height: real)
      modifies this`y
      ensures y == old(y) + if height < 0.0 then lastHeight else height
    {
      y := y + if height < 0.0 then lastHeight else height;
    }

    method DrawCells(height: real, cells: nat)
      modifies this`page, this`y, this`lastHeight
      ensures At() == AfterCells(g, old(At()), height, cells)
      ensures cells > 0 ==> lastHeight == height
    {
      for i := 0 to cells
        invariant At() == AfterCells(g, old(At()), height, i)
        invariant i > 0 ==> lastHeight == height
      {
        CellFormat(height);
      }
    }

    method DrawHeader()
      requires g.columns > 0
      modifies this
      ensures At() == AfterHeader(g, old(At())) && marks == old(marks) + [HeaderMark(page)]
    {
      DrawCells(HEADER_HEIGHT, g.columns);
      marks := marks + [HeaderMark(page)];
      Ln(-1.0);
    }

    method RenderLines(lines: nat, top: real)
      modifies this`page, this`y, this`lastHeight
      ensures page == old(page) + LineBreaks(g, top, lines)
    {
      for i := 0 to lines
        invariant page == old(page) + LineBreaks(g, top, i)
      {
        y := top + (i as real) * LINE_HEIGHT;
        CellFormat(LINE_HEIGHT);
      }
    }

    /** The lines on both sides, then the cursor below the block. A missing logo leaves everything as it is. */
    method DrawBrandHeader() returns (ok: bool)
      modifies this
      ensures ok == !g.brand.logoFails && At() == AfterBrand(g, old(At()))
      ensures marks == old(marks) + if ok then [BrandMark(old(page))] else []
    {
      if g.brand.logoFails {
        return false;
      }
      marks := marks + [BrandMark(page)];
      var top := y;
      RenderLines(g.brand.left, top);
      RenderLines(g.brand.right, top);
      var maxLines := if g.brand.left > g.brand.right then g.brand.left else g.brand.right;
      var block := LOGO_HEIGHT;
      if (maxLines as real) * LINE_HEIGHT > block {
        block := (maxLines as real) * LINE_HEIGHT;
      }
      y := top + block + 2.0;
      if g.brand.divider {
        Ln(2.0);
      }
      return true;
    }

    /** A new page with the blocks that repeat. */
    method OpenPage()
      requires g.columns > 0
      modifies this
      ensures At() == FreshStart(g, old(page)) && marks == old(marks) + Opened(g, old(page) + 1, page)
    {
      AddPage();
      marks := marks + [PageMark(page)];
      if g.brand.present && g.brand.repeats {
        var _ := DrawBrandHeader();
      }
      if g.repeatHeader {
        DrawHeader();
      }
    }

    /** One iteration of the loop over the rows: the page break, if the row needs one, and the cells. */
    method DrawRow() returns (start: Cursor, ghost drawn: seq<Mark>)
      requires g.columns > 0
      modifies this
      ensures start == NextStart(g, old(At())) && At() == AfterRow(g, start)
      ensures marks == old(marks) + drawn && PagesCarryBlocks(g, drawn) && RowsIn(drawn) == [start]
    {
      ghost var before, blocks := At(), [];
      if y + g.rowHeight > g.Limit() {
        OpenPage();
        blocks := Opened(g, before.page + 1, page);
      }
      start := At();
      RowAfterBlocks(g, blocks, before.page + 1, page, start);
      drawn := blocks + [RowMark(start)];
      marks := marks + [RowMark(start)];
      DrawCells(g.rowHeight, g.columns);
      Ln(-1.0);
    }

    /** Draws n rows; the result tells for each row where its first cell was meant to go. Every page opened for
        a row carries the brand block and the header exactly when they are to be repeated, and nothing else
        does. */
    method DrawRows(n: nat) returns (starts: seq<Cursor>)
      requires g.columns > 0
      modifies this
      ensures |starts| == n && RowStarts(g, old(At()), starts)
      ensures old(marks) <= marks && PagesCarryBlocks(g, marks[|old(marks)|..])
      ensures RowsIn(marks[|old(marks)|..]) == starts
    {
      starts := [];
      ghost var drawn: seq<Mark> := [];
      for r := 0 to n
        invariant |starts| == r && RowStarts(g, old(At()), starts)
        invariant At() == if r == 0 then old(At()) else AfterRow(g, starts[r - 1])
        invariant marks == old(marks) + drawn && PagesCarryBlocks(g, drawn) && RowsIn(drawn) == starts
      {
        var start;
        ghost var group;
        start, group := DrawRow();
        MarksJoin(g, drawn, group);
        RowsInAppend(drawn, group);
        starts, drawn := starts + [start], drawn + group;
      }
      assert marks[|old(marks)|..] == drawn;
    }
  }

  /******* What the pages carry *******/

  /** The brand block is drawn on a new page: it is there, repeats, and its logo can be read. */
  predicate RepeatsBrand(g: Geometry) {
    g.brand.present && g.brand.repeats && !g.brand.logoFails
  }

  /** The marks of a page opened for a row, up to that row: the page, the brand block on it if that repeats, and
      the header if that repeats. */
  ghost function Opened(g: Geometry, page: nat, headerPage: nat): seq<Mark> {
    [PageMark(page)] + (if RepeatsBrand(g) then [BrandMark(page)] else [])
                     + (if g.repeatHeader then [HeaderMark(headerPage)] else [])
  }

  /** A page mark is followed by the blocks that repeat, in order, and then a row. Blocks occur only there. */
  ghost predicate MarkInPlace(g: Geometry, marks: seq<Mark>, k: nat)
    requires k < |marks|
  {
    var h := if RepeatsBrand(g) then 1 else 0;
    var r := if g.repeatHeader then h + 1 else h;
    match marks[k]
    case PageMark(page) =>
      && k + r + 1 < |marks|
      && (RepeatsBrand(g) ==> marks[k + 1] == BrandMark(page))
      && (g.repeatHeader ==> marks[k + r].HeaderMark?)
      && marks[k + r + 1].RowMark?
    case BrandMark(page) => RepeatsBrand(g) && k > 0 && marks[k - 1] == PageMark(page)
    case HeaderMark(_) => g.repeatHeader && k > h && marks[k - h - 1].PageMark?
    case RowMark(_) => true
  }

  ghost predicate PagesCarryBlocks(g: Geometry, marks: seq<Mark>) {
    forall k :: 0 <= k < |marks| ==> MarkInPlace(g, marks, k)
  }

  /** Where the rows start, in order. */
  ghost function RowsIn(marks: seq<Mark>): seq<Cursor> {
    if marks == [] then []
    else
      var last := marks[|marks| - 1];
      RowsIn(marks[..|marks| - 1]) + if last.RowMark? then [last.start] else []
  }

  lemma {:induction false} RowsInAppend(a: seq<Mark>, b: seq<Mark>)
    ensures RowsIn(a + b) == RowsIn(a) + RowsIn(b)
  {
    if b == [] {
      assert a + b == a;
    } else {
      assert (a + b)[..|a + b| - 1] == a + b[..|b| - 1];
      RowsInAppend(a, b[..|b| - 1]);
    }
  }

  lemma OpenedInPlace(g: Geometry, page: nat, headerPage: nat, start: Cursor)
    ensures var group := Opened(g, page, headerPage) + [RowMark(start)];
      PagesCarryBlocks(g, group) && RowsIn(group) == [start]
  {
    var blocks := Opened(g, page, headerPage);
    assert (blocks + [RowMark(start)])[..|blocks|] == blocks;
    var b := if RepeatsBrand(g) then [BrandMark(page)] else [];
    var h := if g.repeatHeader then [HeaderMark(headerPage)] else [];
    RowsInAppend([PageMark(page)] + b, h);
    RowsInAppend([PageMark(page)], b);
    assert RowsIn(blocks) == [] by {
      assert forall m :: m in {PageMark(page), BrandMark(page), HeaderMark(headerPage)} ==> RowsIn([m]) == [];
    }
  }

  lemma RowInPlace(g: Geometry, start: Cursor)
    ensures PagesCarryBlocks(g, [RowMark(start)]) && RowsIn([RowMark(start)]) == [start]
  {
    assert [RowMark(start)][..0] == [];
  }

  lemma MarksJoin(g: Geometry, a: seq<Mark>, b: seq<Mark>)
    requires PagesCarryBlocks(g, a) && PagesCarryBlocks(g, b)
    ensures PagesCarryBlocks(g, a + b)
  {
    forall k | 0 <= k < |a + b| ensures MarkInPlace(g, a + b, k) {
      if k < |a| {
        assert MarkInPlace(g, a, k);
      } else {
        assert MarkInPlace(g, b, k - |a|);
      }
    }
  }

  lemma RowAfterBlocks(g: Geometry, blocks: seq<Mark>, page: nat, headerPage: nat, start: Cursor)
    requires blocks == [] || blocks == Opened(g, page, headerPage)
    ensures PagesCarryBlocks(g, blocks + [RowMark(start)]) && RowsIn(blocks + [RowMark(start)]) == [start]
  {
    if blocks == [] {
      assert blocks + [RowMark(start)] == [RowMark(start)];
      RowInPlace(g, start);
    } else {
      OpenedInPlace(g, page, headerPage, start);
    }
  }

  /******* Where rows start *******/

  /** The cursor after a row that was started at `start`. */
  function AfterRow(g: Geometry, start: Cursor): Cursor {
    var c := AfterCells(g, start, g.rowHeight, g.columns);
    Cursor(c.page, c.y + g.rowHeight)
  }

  /** A row starts where the cursor is, or below the repeated blocks of a new page when it would end below
      the limit. */
  function NextStart(g: Geometry, c: Cursor): Cursor {
    if c.y + g.rowHeight > g.Limit() then FreshStart(g, c.page) else c
  }

  ghost predicate RowStarts(g: Geometry, first: Cursor, starts: seq<Cursor>) {
    && (starts != [] ==> starts[0] == NextStart(g, first))
    && forall r :: 0 < r < |starts| ==> starts[r] == NextStart(g, AfterRow(g, starts[r - 1]))
  }

  /** The row ends above the limit and no automatic break moves any of its cells. */
  predicate WellPlaced(g: Geometry, start: Cursor) {
    start.y + g.rowHeight <= g.Limit() && AutoBreaks(g, start.y, g.rowHeight, g.columns) == 0
  }

  ghost predicate AllWellPlaced(g: Geometry, starts: seq<Cursor>) {
    forall r :: 0 <= r < |starts| ==> WellPlaced(g, starts[r])
  }

  /** The height of n rows. */
  function RowsHeight(g: Geometry, n: nat): real {
    if n == 0 then 0.0 else RowsHeight(g, n - 1) + g.rowHeight
  }

  lemma {:induction false} RowsHeightIsProduct(g: Geometry, n: nat)
    ensures RowsHeight(g, n) == (n as real) * g.rowHeight
  {
    if n > 0 {
      RowsHeightIsProduct(g, n - 1);
      OneMoreRow(n as real, (n - 1) as real, g.rowHeight);
    }
  }

  lemma OneMoreRow(a: real, b: real, h: real)
    requires a == b + 1.0
    ensures a * h == b * h + h
  {
    calc {
      a * h;
      (b + 1.0) * h;
      b * h + 1.0 * h;
      b * h + h;
    }
  }

  lemma {:induction false} RowsHeightGrows(g: Geometry, m: nat, n: nat)
    requires m <= n && g.rowHeight >= 0.0
    ensures RowsHeight(g, m) <= RowsHeight(g, n)
  {
    if m < n {
      RowsHeightGrows(g, m, n - 1);
    }
  }

  /** Without any page break the rows pile up below the first cursor. */
  lemma {:induction false} RowsPileUp(g: Geometry, first: Cursor, starts: seq<Cursor>, r: nat)
    requires RowStarts(g, first, starts) && r < |starts| && g.rowHeight >= 0.0
    requires first.y + RowsHeight(g, r + 1) <= g.Limit()
    ensures starts[r] == Cursor(first.page, first.y + RowsHeight(g, r))
  {
    if r > 0 {
      RowsPileUp(g, first, starts, r - 1);
      assert starts[r] == NextStart(g, AfterRow(g, starts[r - 1]));
    }
  }

  lemma FreshRowsWellPlaced(g: Geometry, first: Cursor, starts: seq<Cursor>, r: nat)
    requires RowStarts(g, first, starts) && r < |starts| && FreshY(g) + g.rowHeight <= g.Limit()
    ensures WellPlaced(g, starts[r])
  {
    var before := if r == 0 then first else AfterRow(g, starts[r - 1]);
    assert starts[r] == NextStart(g, before);
    FreshStartShape(g, before.page);
  }

  /** Every row is well placed exactly when no row needs a new page, or the repeated blocks leave room
      for a row on a fresh page. */
  lemma RowsWellPlacedIff(g: Geometry, first: Cursor, starts: seq<Cursor>)
    requires RowStarts(g, first, starts) && g.columns > 0 && g.rowHeight >= 0.0
    ensures AllWellPlaced(g, starts) <==>
      || starts == [] || first.y + (|starts| as real) * g.rowHeight <= g.pageHeight - 20.0
      || FreshY(g) + g.rowHeight <= g.pageHeight - 20.0
  {
    RowsHeightIsProduct(g, |starts|);
    WellPlacedIffHeight(g, first, starts);
  }

  lemma WellPlacedIffHeight(g: Geometry, first: Cursor, starts: seq<Cursor>)
    requires RowStarts(g, first, starts) && g.columns > 0 && g.rowHeight >= 0.0
    ensures AllWellPlaced(g, starts) <==>
      starts == [] || first.y + RowsHeight(g, |starts|) <= g.Limit() || FreshY(g) + g.rowHeight <= g.Limit()
  {
    if FreshY(g) + g.rowHeight <= g.Limit() {
      forall r | 0 <= r < |starts| ensures WellPlaced(g, starts[r]) {
        FreshRowsWellPlaced(g, first, starts, r);
      }
    } else if first.y + RowsHeight(g, |starts|) <= g.Limit() {
      forall r | 0 <= r < |starts| ensures WellPlaced(g, starts[r]) {
        RowsHeightGrows(g, r + 1, |starts|);
        RowsPileUp(g, first, starts, r);
      }
    } else if starts != [] {
      FirstBreakIsMisplaced(g, first, starts, |starts| - 1);
    }
  }

  /** If the rows up to r do not fit below the first cursor, one of them broke the page. */
  lemma {:induction false} FirstBreakIsMisplaced(g: Geometry, first: Cursor, starts: seq<Cursor>, r: nat)
    requires RowStarts(g, first, starts) && r < |starts| && g.rowHeight >= 0.0
    requires first.y + RowsHeight(g, r + 1) > g.Limit() && FreshY(g) + g.rowHeight > g.Limit()
    ensures !AllWellPlaced(g, starts)
  {
    if r > 0 && first.y + RowsHeight(g, r) > g.Limit() {
      FirstBreakIsMisplaced(g, first, starts, r - 1);
    } else {
      var before := if r == 0 then first else AfterRow(g, starts[r - 1]);
      if r > 0 {
        RowsPileUp(g, first, starts, r - 1);
      } else {
        assert RowsHeight(g, 1) == RowsHeight(g, 0) + g.rowHeight;
      }
      assert starts[r] == NextStart(g, before);
      FreshStartShape(g, before.page);
      assert !WellPlaced(g, starts[r]);
    }
  }

  /** Where each row starts: at the cursor, or right below the row before it, when it ends above the line 20 mm
      from the bottom, and otherwise on a new page below the blocks that repeat. */
  lemma RowFollows(g: Geometry, first: Cursor, starts: seq<Cursor>, r: nat)
    requires RowStarts(g, first, starts) && AllWellPlaced(g, starts) && r < |starts|
    ensures
      var c := if r == 0 then first else Cursor(starts[r - 1].page, starts[r - 1].y + g.rowHeight);
      starts[r] == if c.y + g.rowHeight <= g.pageHeight - 20.0 then c else FreshStart(g, c.page)
  {
    if r > 0 {
      assert WellPlaced(g, starts[r - 1]);
      assert starts[r] == NextStart(g, AfterRow(g, starts[r - 1]));
    }
  }

  /** The blocks that repeat on a new page: the brand block, 14 mm or 5 mm for each line and 2 mm, with 2 mm more
      for a divider, and then the header of 9 mm, which starts again at the top margin of 12 mm when there is no
      room for it within 18 mm of the bottom. */
  lemma FreshStartBelowBlocks(g: Geometry, page: nat)
    requires g.columns > 0
    ensures
      var lines := if g.brand.left > g.brand.right then g.brand.left else g.brand.right;
      var text := if (lines as real) * 5.0 > 14.0 then (lines as real) * 5.0 else 14.0;
      var block := if RepeatsBrand(g) then text + 2.0 + (if g.brand.divider then 2.0 else 0.0) else 0.0;
      FreshStart(g, page).y ==
        if !g.repeatHeader then 12.0 + block
        else if 12.0 + block + 9.0 <= g.pageHeight - 18.0 then 12.0 + block + 9.0
        else 21.0
  {
  }

  /** It is the very next page when all lines of the brand block and the header fit on it. */
  lemma FreshStartOnNextPage(g: Geometry, page: nat)
    requires RepeatsBrand(g) ==> 12.0 + (g.brand.left as real) * 5.0 <= g.pageHeight - 18.0
    requires RepeatsBrand(g) ==> 12.0 + (g.brand.right as real) * 5.0 <= g.pageHeight - 18.0
    requires g.repeatHeader ==>
      12.0 + (if RepeatsBrand(g) then BrandHeight(g.brand) else 0.0) + 9.0 <= g.pageHeight - 18.0
    ensures FreshStart(g, page).page == page + 1
  {
    if RepeatsBrand(g) {
      LinesFit(g, MARGIN_TOP, g.brand.left);
      LinesFit(g, MARGIN_TOP, g.brand.right);
    }
  }

  lemma {:induction false} LinesFit(g: Geometry, top: real, lines: nat)
    requires top + (lines as real) * 5.0 <= g.pageHeight - 18.0
    ensures LineBreaks(g, top, lines) == 0
  {
    if lines > 0 {
      LinesFit(g, top, lines - 1);
    }
  }

  /** A cell is drawn where it is meant to be exactly when it ends above the line 18 mm from the bottom; and
      after a break it starts at the top margin. */
  lemma CellsBreakIff(g: Geometry, c: Cursor, height: real, cells: nat)
    requires cells > 0
    ensures c.y + height <= g.pageHeight - 18.0 <==> AfterCells(g, c, height, cells) == c
    ensures c.y + height > g.pageHeight - 18.0 ==>
      AfterCells(g, c, height, cells).page > c.page && AfterCells(g, c, height, cells).y == 12.0
  {
  }

  /** Every row on a later page starts below the blocks that repeat, so below the header if that repeats. */
  lemma {:induction false} LaterRowsBelowBlocks(g: Geometry, first: Cursor, starts: seq<Cursor>, r: nat)
    requires RowStarts(g, first, starts) && AllWellPlaced(g, starts) && r < |starts|
    requires g.rowHeight >= 0.0 && g.columns > 0 && starts[r].page > first.page
    ensures starts[r].y >= FreshY(g) && (g.repeatHeader ==> starts[r].y >= 12.0 + 9.0)
  {
    FreshStartBelowBlocks(g, 0);
    RowFollows(g, first, starts, r);
    var c := if r == 0 then first else Cursor(starts[r - 1].page, starts[r - 1].y + g.rowHeight);
    if starts[r] == c {
      LaterRowsBelowBlocks(g, first, starts, r - 1);
    } else {
      FreshStartShape(g, c.page);
    }
  }

  /** Any two rows appear in order and do not overlap: the later one is on a later page, or below the earlier
      one on the same page. */
  lemma {:induction false} RowsInOrder(g: Geometry, first: Cursor, starts: seq<Cursor>, i: nat, j: nat)
    requires RowStarts(g, first, starts) && AllWellPlaced(g, starts) && i < j < |starts| && g.rowHeight >= 0.0
    ensures starts[i].page < starts[j].page
         || (starts[i].page == starts[j].page && starts[i].y + g.rowHeight <= starts[j].y)
  {
    RowFollows(g, first, starts, j);
    FreshStartShape(g, starts[j - 1].page);
    if i < j - 1 {
      RowsInOrder(g, first, starts, i, j - 1);
    }
  }
}
