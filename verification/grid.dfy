/**
 * The character grid of `src/HorizonUtils/GridData.ts`: a rows × columns
 * table of one-character cells with a selected cell that moves in reading
 * order with wrap-around, and its rendering as Horizon (or HTML) markup.
 * The moves are shared, line for line, with the older `src/GridData.ts`.
 */
module Grid {
  import opened Strings

  datatype Pos = Pos(row: int, column: int)

  datatype Direction = Up | Down | Left | Right

  /** The grid: its size, its cells row by row, and the selected position (which may lie outside the grid). */
  datatype Grid = Grid(rowCount: nat, colCount: nat, cells: seq<seq<string>>, selected: Pos)

  /** The cells form a `rowCount` × `colCount` table. */
  predicate Valid(g: Grid) {
    |g.cells| == g.rowCount && forall r :: 0 <= r < |g.cells| ==> |g.cells[r]| == g.colCount
  }

  predicate InRange(g: Grid, p: Pos) {
    0 <= p.row < g.rowCount && 0 <= p.column < g.colCount
  }

  /** `CellPositionEqual`. */
  predicate SamePos(a: Pos, b: Pos) {
    a.row == b.row && a.column == b.column
  }

  /** The constructor: every cell holds `-` and the first cell is selected. */
  function NewGrid(rowCount: nat, colCount: nat): (g: Grid)
    ensures Valid(g) && g.rowCount == rowCount && g.colCount == colCount
    ensures forall r, c :: 0 <= r < rowCount && 0 <= c < colCount ==> g.cells[r][c] == "-"
    ensures g.selected == Pos(0, 0)
  {
    Grid(rowCount, colCount, seq(rowCount, _ => seq(colCount, _ => "-")), Pos(0, 0))
  }

  /** JavaScript's `a % n` for a positive `n`: the remainder takes the sign of `a`. */
  function JsRem(a: int, n: int): (r: int)
    requires n > 0
    ensures a >= 0 ==> 0 <= r < n && r == a % n
    ensures a < 0 ==> -n < r <= 0
    ensures 0 <= a < 2 * n ==> r == if a < n then a else a - n
  {
    if a >= 0 then ModSmall(a, n); a % n else -((-a) % n)
  }

  lemma ModSmall(a: int, n: int)
    requires 0 <= a && n > 0
    ensures a % n < n
    ensures a < 2 * n ==> a % n == if a < n then a else a - n
  {
  }

  /**
   * `_cellPosForDirection`: up and down step the row with wrap-around; left
   * and right step the column with wrap-around and carry into the row at the
   * first and last column, so the selection moves in reading order.
   */
  function PosForDirection(g: Grid, d: Direction): (p: Pos)
    requires g.rowCount > 0 && g.colCount > 0
    ensures InRange(g, g.selected) ==> InRange(g, p)
    ensures (d == Up || d == Down) ==> p.column == g.selected.column
    ensures InRange(g, g.selected) && d == Down ==>
      p.row == if g.selected.row == g.rowCount - 1 then 0 else g.selected.row + 1
    ensures InRange(g, g.selected) && d == Up ==>
      p.row == if g.selected.row == 0 then g.rowCount - 1 else g.selected.row - 1
  {
    var row := g.selected.row;
    var column := g.selected.column;
    match d
    case Up => Pos(JsRem(row + g.rowCount - 1, g.rowCount), column)
    case Down => Pos(JsRem(row + 1, g.rowCount), column)
    case Left =>
      Pos(if column == 0 then JsRem(row + g.rowCount - 1, g.rowCount) else row,
          JsRem(column + g.colCount - 1, g.colCount))
    case Right =>
      Pos(if column == g.colCount - 1 then JsRem(row + 1, g.rowCount) else row,
          JsRem(column + 1, g.colCount))
  }

  /** `moveSelectedCellPosIn`: only the selection changes, and it stays on the grid. */
  function Move(g: Grid, d: Direction): (r: Grid)
    requires g.rowCount > 0 && g.colCount > 0
    ensures r.rowCount == g.rowCount && r.colCount == g.colCount && r.cells == g.cells
    ensures InRange(g, g.selected) ==> InRange(r, r.selected)
  {
    g.(selected := PosForDirection(g, d))
  }

  /** `selectCellPosition`: any position is accepted, on the grid or not. */
  function Select(g: Grid, p: Pos): (r: Grid)
    ensures SamePos(r.selected, p)
    ensures r.rowCount == g.rowCount && r.colCount == g.colCount && r.cells == g.cells
  {
    g.(selected := p)
  }

  /** The position of a cell in reading order. */
  function Index(g: Grid, p: Pos): int {
    p.row * g.colCount + p.column
  }

  /** Moving right steps one cell on in reading order, from the last cell back to the first. */
  lemma RightIsNextInReadingOrder(g: Grid)
    requires g.rowCount > 0 && g.colCount > 0 && InRange(g, g.selected)
    ensures Index(g, PosForDirection(g, Right)) == (Index(g, g.selected) + 1) % (g.rowCount * g.colCount)
  {
    var p := g.selected;
    var q := PosForDirection(g, Right);
    var n := g.rowCount * g.colCount;
    CellBeforeEnd(g.rowCount, g.colCount, p.row, p.column);
    if p.column == g.colCount - 1 && p.row == g.rowCount - 1 {
      assert q == Pos(0, 0);
      MulSucc(p.row, g.colCount);
      ModSelf(n);
    } else {
      var next := if p.column == g.colCount - 1 then Pos(p.row + 1, 0) else Pos(p.row, p.column + 1);
      assert q == next;
      MulSucc(p.row, g.colCount);
      assert Index(g, q) == Index(g, p) + 1;
      CellBeforeEnd(g.rowCount, g.colCount, next.row, next.column);
      ModBelow(Index(g, q), n);
    }
  }

  /** Moving left steps one cell back in reading order, from the first cell to the last. */
  lemma LeftIsPreviousInReadingOrder(g: Grid)
    requires g.rowCount > 0 && g.colCount > 0 && InRange(g, g.selected)
    ensures Index(g, PosForDirection(g, Left)) == (Index(g, g.selected) + g.rowCount * g.colCount - 1) % (g.rowCount * g.colCount)
  {
    var p := g.selected;
    var q := PosForDirection(g, Left);
    var n := g.rowCount * g.colCount;
    CellBeforeEnd(g.rowCount, g.colCount, p.row, p.column);
    CellBeforeEnd(g.rowCount, g.colCount, q.row, q.column);
    if p.column == 0 && p.row == 0 {
      assert q == Pos(g.rowCount - 1, g.colCount - 1);
      MulSucc(g.rowCount - 1, g.colCount);
      assert Index(g, q) == n - 1;
      ModBelow(n - 1, n);
    } else {
      var prev := if p.column == 0 then Pos(p.row - 1, g.colCount - 1) else Pos(p.row, p.column - 1);
      assert q == prev;
      MulSucc(p.row - 1, g.colCount);
      assert Index(g, q) == Index(g, p) - 1;
      ModShift(Index(g, q), n);
    }
  }

  lemma MulSucc(r: int, c: int)
    ensures (r + 1) * c == r * c + c
  {
  }

  lemma MulMono(a: int, b: int, c: int)
    requires a <= b && c >= 0
    ensures a * c <= b * c
  {
    assert b * c - a * c == (b - a) * c;
  }

  lemma ModSelf(n: int)
    requires n > 0
    ensures n % n == 0
  {
  }

  lemma ModBelow(a: int, n: int)
    requires 0 <= a < n
    ensures a % n == a
  {
  }

  lemma ModShift(a: int, n: int)
    requires 0 <= a < n
    ensures (a + n) % n == a
  {
  }

  /** A cell on the grid comes before the end of the grid in reading order. */
  lemma CellBeforeEnd(rowCount: nat, colCount: nat, row: int, column: int)
    requires 0 <= row < rowCount && 0 <= column < colCount
    ensures 0 <= row * colCount && row * colCount + column < rowCount * colCount
  {
    MulMono(0, row, colCount);
    MulMono(row, rowCount - 1, colCount);
    MulSucc(rowCount - 1, colCount);
  }

  /** Right then left, and down then up, return the selection to where it was. */
  lemma MovesUndo(g: Grid)
    requires g.rowCount > 0 && g.colCount > 0 && InRange(g, g.selected)
    ensures Move(Move(g, Right), Left).selected == g.selected
    ensures Move(Move(g, Left), Right).selected == g.selected
    ensures Move(Move(g, Down), Up).selected == g.selected
    ensures Move(Move(g, Up), Down).selected == g.selected
  {
  }

  /** What `setCharAt` does: writes a cell, logs a refusal, or throws on a missing row. */
  datatype SetOutcome = Done(grid: Grid, logged: bool) | TypeError

  /**
   * `setCharAt`: a text whose JavaScript length is not one is refused with a
   * log line and changes nothing; a single character of the Basic
   * Multilingual Plane is written to the cell, where a missing row makes
   * JavaScript throw and a column off the table writes nowhere the grid
   * shows. An emoji has length two and is refused.
   */
  function SetCharAt(g: Grid, p: Pos, c: string): (o: SetOutcome)
    requires Valid(g)
    ensures o.Done? ==> Valid(o.grid) && o.grid.rowCount == g.rowCount && o.grid.colCount == g.colCount
    ensures o.Done? ==> o.grid.selected == g.selected
    ensures o.Done? && o.logged <==> !(|c| == 1 && !Astral(c[0]))
    ensures o.TypeError? <==> |c| == 1 && !Astral(c[0]) && !(0 <= p.row < g.rowCount)
  {
    JsLengthOne(c);
    if JsLength(c) != 1 then Done(g, true)
    else if !(0 <= p.row < g.rowCount) then TypeError
    else if !(0 <= p.column < g.colCount) then Done(g, false)
    else Done(g.(cells := g.cells[p.row := g.cells[p.row][p.column := c]]), false)
  }

  /** `setCharAt` changes exactly the addressed cell, and only with a single character. */
  lemma SetCharAtWritesOneCell(g: Grid, p: Pos, c: string)
    requires Valid(g)
    ensures var o := SetCharAt(g, p, c);
      o.Done? ==> forall r, k :: 0 <= r < g.rowCount && 0 <= k < g.colCount ==>
        o.grid.cells[r][k] == (if JsLength(c) == 1 && r == p.row && k == p.column then c else g.cells[r][k])
  {
  }

  /** `CharLabelForRow`: `A` for the first row, then on through the character codes. */
  function CharLabelForRow(row: int): (c: char)
    requires 0 <= 65 + row < 0xD800
    ensures c as int - 'A' as int == row
  {
    (65 + row) as char
  }

  /** `CharLabelForColumn`: `a` to `r` for the first eighteen columns, then upper case from `S` on. */
  function CharLabelForColumn(n: int): (c: char)
    requires 0 <= 97 + n && 65 + n < 0xD800
    ensures n <= 17 ==> c as int - 'a' as int == n
    ensures n > 17 ==> c as int - 'A' as int == n
  {
    if n > 17 then (65 + n) as char else (97 + n) as char
  }

  /** Columns 0 to 31 get distinct labels; column 32 is labelled `a` again, like column 0. */
  lemma ColumnLabelsRepeatAt32()
    ensures forall i, j :: 0 <= i < j < 32 ==> CharLabelForColumn(i) != CharLabelForColumn(j)
    ensures CharLabelForColumn(32) == CharLabelForColumn(0) == 'a'
  {
  }

  /** The grid sizes whose labels are all representable characters. */
  predicate Labelled(g: Grid) {
    65 + g.rowCount < 0xD800 && 65 + g.colCount < 0xD800
  }

  /** `_yellowTextTags`. */
  function YellowText(s: string, isHorizon: bool): string {
    if isHorizon then "<color=#ffff00>" + s + "</color>" else "<text style=\"color:yellow\">" + s + "</text>"
  }

  /** `_yellowHighlightTags`. */
  function YellowHighlight(s: string, isHorizon: bool): string {
    if isHorizon then "<mark=#ffff0088>" + s + "<mark=#00000000>" else "<text style=\"color:yellow\">" + s + "</text>"
  }

  /** `_columnHeaders` for the first `n` columns: each label, the selected column's in yellow. */
  function ColumnHeaders(g: Grid, n: nat, isHorizon: bool): string
    requires Labelled(g) && n <= g.colCount
    decreases n
  {
    if n == 0 then ""
    else
      var tag := [CharLabelForColumn(n - 1)];
      ColumnHeaders(g, n - 1, isHorizon) + (if g.selected.column == n - 1 then YellowText(tag, isHorizon) else tag)
  }

  /** What the text shows for one cell: the selected cell highlighted, any other as it is. */
  function CellText(g: Grid, row: nat, column: nat, isHorizon: bool): string
    requires Valid(g) && row < g.rowCount && column < g.colCount
  {
    if SamePos(Pos(row, column), g.selected) then YellowHighlight(g.cells[row][column], isHorizon)
    else g.cells[row][column]
  }

  /** The first `n` cells of a row. */
  function CellsText(g: Grid, row: nat, n: nat, isHorizon: bool): string
    requires Valid(g) && row < g.rowCount && n <= g.colCount
    decreases n
  {
    if n == 0 then "" else CellsText(g, row, n - 1, isHorizon) + CellText(g, row, n - 1, isHorizon)
  }

  /** The start of a row: a line break, the row label (yellow on the selected row) and a bar. */
  function RowPrefix(g: Grid, row: nat, isHorizon: bool): string
    requires Labelled(g) && row < g.rowCount
  {
    var tag := [CharLabelForRow(row)];
    "<br>" + (if row == g.selected.row then YellowText(tag, isHorizon) else tag) + "|"
  }

  /** One row: its start, the cells, a closing bar. */
  function RowText(g: Grid, row: nat, isHorizon: bool): string
    requires Valid(g) && Labelled(g) && row < g.rowCount && g.colCount > 0
  {
    RowPrefix(g, row, isHorizon) + CellsText(g, row, g.colCount, isHorizon) + "|"
  }

  /** The first `n` rows; a grid without columns shows no rows at all. */
  function RowsText(g: Grid, n: nat, isHorizon: bool): string
    requires Valid(g) && Labelled(g) && n <= g.rowCount
    decreases n
  {
    if n == 0 || g.colCount == 0 then "" else RowsText(g, n - 1, isHorizon) + RowText(g, n - 1, isHorizon)
  }

  function HeaderText(g: Grid, isHorizon: bool): string
    requires Labelled(g)
  {
    "<align=left><mspace=4.8em><mark=#00000000>" + (if isHorizon then "  " else "..")
      + ColumnHeaders(g, g.colCount, isHorizon) + "<color=#00000000>.</color>" + "<br><br>"
  }

  /** `getText`: the header line, then the rows. */
  function Text(g: Grid, isHorizon: bool): string
    requires Valid(g) && Labelled(g)
  {
    HeaderText(g, isHorizon) + RowsText(g, g.rowCount, isHorizon)
  }

  /** The cells of a row that holds no selected cell are the same whatever else is selected. */
  lemma {:induction false} CellsIgnoreOtherRows(g: Grid, p: Pos, row: nat, n: nat, isHorizon: bool)
    requires Valid(g) && row < g.rowCount && n <= g.colCount
    requires row != g.selected.row && row != p.row
    ensures CellsText(Select(g, p), row, n, isHorizon) == CellsText(g, row, n, isHorizon)
    decreases n
  {
    if n > 0 {
      CellsIgnoreOtherRows(g, p, row, n - 1, isHorizon);
    }
  }

  /**
   * Selecting another cell redraws only the rows of the old and the new
   * selection: every other row reads the same.
   */
  lemma SelectRedrawsTwoRows(g: Grid, p: Pos, row: nat, isHorizon: bool)
    requires Valid(g) && Labelled(g) && row < g.rowCount && g.colCount > 0
    requires row != g.selected.row && row != p.row
    ensures RowText(Select(g, p), row, isHorizon) == RowText(g, row, isHorizon)
  {
    CellsIgnoreOtherRows(g, p, row, g.colCount, isHorizon);
  }

  /** `_columnHeaders` as the source computes it, one column after the other. */
  method ColumnHeadersLoop(g: Grid, isHorizon: bool) returns (columnNames: string)
    requires Labelled(g)
    ensures columnNames == ColumnHeaders(g, g.colCount, isHorizon)
  {
    columnNames := "";
    var i := 0;
    while i < g.colCount
      invariant 0 <= i <= g.colCount
      invariant columnNames == ColumnHeaders(g, i, isHorizon)
    {
      var tag := [CharLabelForColumn(i)];
      columnNames := columnNames + (if g.selected.column == i then YellowText(tag, isHorizon) else tag);
      i := i + 1;
    }
  }

  /** The cells of one row as the source visits them: the row's start before the first, a bar after the last. */
  method RowLoop(g: Grid, row: nat, isHorizon: bool) returns (line: string)
    requires Valid(g) && Labelled(g) && row < g.rowCount
    ensures line == if g.colCount == 0 then "" else RowText(g, row, isHorizon)
  {
    line := "";
    var column := 0;
    while column < g.colCount
      invariant 0 <= column <= g.colCount
      invariant column == 0 ==> line == ""
      invariant column > 0 ==> line == RowPrefix(g, row, isHorizon) + CellsText(g, row, column, isHorizon)
    {
      var prefix := RowPrefix(g, row, isHorizon);
      if column == 0 {
        line := prefix;
      }
      var cell := if SamePos(Pos(row, column), g.selected) then YellowHighlight(g.cells[row][column], isHorizon) else g.cells[row][column];
      assert cell == CellText(g, row, column, isHorizon);
      assert CellsText(g, row, column + 1, isHorizon) == CellsText(g, row, column, isHorizon) + cell;
      assert line == prefix + CellsText(g, row, column, isHorizon);
      AppendAssoc(prefix, CellsText(g, row, column, isHorizon), cell);
      line := line + cell;
      column := column + 1;
    }
    if g.colCount > 0 {
      line := line + "|";
    }
  }


  /** `getText` as the source computes it: the header, then every cell in reading order. */
  method GetText(g: Grid, isHorizon: bool) returns (str: string)
    requires Valid(g) && Labelled(g)
    ensures str == Text(g, isHorizon)
  {
    var columnNames := ColumnHeadersLoop(g, isHorizon);
    str := "<align=left><mspace=4.8em><mark=#00000000>" + (if isHorizon then "  " else "..") + columnNames;
    str := str + "<color=#00000000>.</color>";
    str := str + "<br><br>";
    assert str == HeaderText(g, isHorizon);
    var head := str;
    var row := 0;
    while row < g.rowCount
      invariant 0 <= row <= g.rowCount
      invariant str == head + RowsText(g, row, isHorizon)
    {
      var line := RowLoop(g, row, isHorizon);
      assert RowsText(g, row + 1, isHorizon) == RowsText(g, row, isHorizon) + line;
      AppendAssoc(head, RowsText(g, row, isHorizon), line);
      str := str + line;
      row := row + 1;
    }
  }
}
