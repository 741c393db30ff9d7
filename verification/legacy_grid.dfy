/**
 * The older character grid of `src/GridData.ts`. Its moves are the newer
 * grid's (the two files share `_cellPosForDirection` line for line); its
 * `setCharAt` accepts only texts longer than one character, and its text has
 * plain lower-case column letters, no closing bars and a different highlight.
 */
module LegacyGrid {
  import opened Strings
  import opened Grid

  /**
   * `setCharAt` as written: a text whose JavaScript length exceeds one is
   * stored in the cell (an emoji on its own among them), and a single
   * character of the Basic Multilingual Plane, or nothing, is refused with a
   * log line.
   */
  function SetCharAtAsWritten(g: Grid, p: Pos, c: string): (o: SetOutcome)
    requires Valid(g)
    ensures o.Done? ==> Valid(o.grid) && o.grid.rowCount == g.rowCount && o.grid.colCount == g.colCount
    ensures o.Done? && o.logged <==> |c| == 0 || (|c| == 1 && !Astral(c[0]))
    ensures o.TypeError? <==> JsLength(c) > 1 && !(0 <= p.row < g.rowCount)
  {
    JsLengthOne(c);
    if !(JsLength(c) > 1) then Done(g, true)
    else if !(0 <= p.row < g.rowCount) then TypeError
    else if !(0 <= p.column < g.colCount) then Done(g, false)
    else Done(g.(cells := g.cells[p.row := g.cells[p.row][p.column := c]]), false)
  }

  /**
   * The refusal contradicts its own message ("expected 1 char value"): a
   * single character is refused and the grid keeps its old cell, while a
   * two-character text, or a lone emoji of JavaScript length two, lands in
   * a cell of a one-character grid. The newer rule does the opposite on all
   * three inputs.
   */
  lemma SingleCharacterRefused(g: Grid, p: Pos)
    requires Valid(g) && InRange(g, p)
    ensures SetCharAtAsWritten(g, p, "x") == Done(g, true)
    ensures SetCharAtAsWritten(g, p, "xy").Done? && SetCharAtAsWritten(g, p, "xy").grid.cells[p.row][p.column] == "xy"
    ensures SetCharAtAsWritten(g, p, "\U{1F600}").Done? && SetCharAtAsWritten(g, p, "\U{1F600}").grid.cells[p.row][p.column] == "\U{1F600}"
    ensures SetCharAt(g, p, "x").Done? && SetCharAt(g, p, "x").grid.cells[p.row][p.column] == "x"
    ensures SetCharAt(g, p, "xy") == Done(g, true)
    ensures SetCharAt(g, p, "\U{1F600}") == Done(g, true)
  {
    JsLengthExamples();
  }

  /** The corrected `setCharAt` (the newer file's rule) keeps every cell of a one-character grid a single character of JavaScript length one. */
  lemma CorrectedKeepsSingleCharacters(g: Grid, p: Pos, c: string)
    requires Valid(g)
    requires forall r, k :: 0 <= r < g.rowCount && 0 <= k < g.colCount ==> JsLength(g.cells[r][k]) == 1
    ensures var o := SetCharAt(g, p, c);
      o.Done? ==> forall r, k :: 0 <= r < g.rowCount && 0 <= k < g.colCount ==> JsLength(o.grid.cells[r][k]) == 1
  {
    SetCharAtWritesOneCell(g, p, c);
  }

  /** `_lowercaseLetterForNum`. */
  function LowercaseLetter(n: nat): (c: char)
    requires 97 + n < 0xD800
    ensures c as int - 'a' as int == n
  {
    (97 + n) as char
  }

  /** `_uppercaseLetterForNum`. */
  function UppercaseLetter(n: nat): (c: char)
    requires 65 + n < 0xD800
    ensures c as int - 'A' as int == n
  {
    (65 + n) as char
  }

  /** The two letter helpers are one-to-one, so every row and column gets its own letter. */
  lemma LettersDistinct(i: nat, j: nat)
    requires 97 + i < 0xD800 && 97 + j < 0xD800 && i != j
    ensures LowercaseLetter(i) != LowercaseLetter(j) && UppercaseLetter(i) != UppercaseLetter(j)
  {
  }

  /** The grid sizes whose letters are all representable characters. */
  predicate Lettered(g: Grid) {
    97 + g.colCount < 0xD800 && 65 + g.rowCount < 0xD800
  }

  /** `_columnHeaders` for the first `n` columns. */
  function ColumnLetters(n: nat): string
    requires 97 + n < 0xD800
    decreases n
  {
    if n == 0 then "" else ColumnLetters(n - 1) + [LowercaseLetter(n - 1)]
  }

  /** A cell as the older text shows it: the selected one between two marks. */
  function CellText(g: Grid, row: nat, column: nat): string
    requires Valid(g) && row < g.rowCount && column < g.colCount
  {
    if SamePos(Pos(row, column), g.selected) then "<mark=#ffff0088>" + g.cells[row][column] + "<mark=#00000088>"
    else g.cells[row][column]
  }

  function CellsText(g: Grid, row: nat, n: nat): string
    requires Valid(g) && row < g.rowCount && n <= g.colCount
    decreases n
  {
    if n == 0 then "" else CellsText(g, row, n - 1) + CellText(g, row, n - 1)
  }

  /** The first `n` rows: a line break, the row letter, a bar and the cells; no rows without columns. */
  function RowsText(g: Grid, n: nat): string
    requires Valid(g) && Lettered(g) && n <= g.rowCount
    decreases n
  {
    if n == 0 || g.colCount == 0 then ""
    else RowsText(g, n - 1) + "<br>" + [UppercaseLetter(n - 1)] + "|" + CellsText(g, n - 1, g.colCount)
  }

  /** The older `getText`. */
  function Text(g: Grid): string
    requires Valid(g) && Lettered(g)
  {
    "<mspace=4.8em><mark=#00000000>.." + ColumnLetters(g.colCount) + "<br><br>" + RowsText(g, g.rowCount)
  }

  /** A row without the selected cell shows its cells exactly as stored, one after the other. */
  lemma {:induction false} UnselectedRowIsPlain(g: Grid, row: nat, n: nat)
    requires Valid(g) && row < g.rowCount && n <= g.colCount && row != g.selected.row
    ensures CellsText(g, row, n) == Concat(g.cells[row][..n])
    decreases n
  {
    if n > 0 {
      UnselectedRowIsPlain(g, row, n - 1);
      assert g.cells[row][..n][..n - 1] == g.cells[row][..n - 1];
    }
  }

  /** The column letters are `a`, `b`, … in order, one per column. */
  lemma {:induction false} ColumnLettersInOrder(n: nat)
    requires 97 + n < 0xD800
    ensures |ColumnLetters(n)| == n
    ensures forall i :: 0 <= i < n ==> ColumnLetters(n)[i] as int == 'a' as int + i
    decreases n
  {
    if n > 0 {
      ColumnLettersInOrder(n - 1);
    }
  }
}
