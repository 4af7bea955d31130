/**
 * Where `Timer::centerText` puts a text: the row chosen by the position
 * argument and the column computed from the screen width. The screen size
 * is the pair of ncurses globals `LINES` and `COLS`, read afresh on every call.
 */
module Screen {
  import opened CppInt

  datatype ScreenSize = ScreenSize(lines: int, cols: int)

  /** A text drawn at (row, col) by `mvprintw`. */
  datatype Placement = Placement(row: int, col: int, text: string)

  /** Row 0 for the position "top"; for every other position, the middle row. */
  function Row(position: string, lines: int): int {
    if position == "top" then 0 else TruncDiv(lines - 1, 2)
  }

  /**
   * `(COLS - text.length()) / 2` assigned to an `int`: `COLS` is converted to
   * `size_t`, the subtraction and the halving are unsigned, and the quotient
   * is narrowed to `int`.
   */
  function Column(cols: int, textLength: nat): int {
    var gap := (cols - textLength) % SizeModulus;
    ToInt32(gap / 2)
  }

  /** `centerText(text, _, position)`; the height argument of the source is unused. */
  function CenterText(text: string, screen: ScreenSize, position: string): Placement {
    Placement(Row(position, screen.lines), Column(screen.cols, |text|), text)
  }

  const InvalidInputText: string := "Invalid input"

  /**
   * `mvprintw(LINES, 0, "Invalid input")` as written: row `LINES` is one
   * below the last row of the screen, so ncurses refuses the move and the
   * message is never shown.
   */
  function InvalidInputAsWritten(screen: ScreenSize): (p: Placement)
    ensures p.text == InvalidInputText && p.col == 0
    ensures !(0 <= p.row < screen.lines)
  {
    Placement(screen.lines, 0, InvalidInputText)
  }

  /** The rejection message on the last row of the screen, where it can be seen. */
  function InvalidInput(screen: ScreenSize): (p: Placement)
    ensures p.text == InvalidInputText && p.col == 0
    ensures screen.lines >= 1 ==> 0 <= p.row < screen.lines && p.row == screen.lines - 1
  {
    Placement(screen.lines - 1, 0, InvalidInputText)
  }

  /** The middle row splits the rows above and below it evenly, up to one. */
  lemma RowCentered(position: string, lines: int)
    requires lines >= 1
    ensures position == "top" ==> Row(position, lines) == 0
    ensures position != "top" ==>
      var row := Row(position, lines);
      0 <= row < lines && 0 <= (lines - 1 - row) - row <= 1
  {
  }

  /**
   * When the text fits, it starts at `(COLS - length) / 2`: the free columns
   * to its left and to its right differ by at most one.
   */
  lemma ColumnCentered(cols: int, textLength: nat)
    requires textLength <= cols < IntLimit
    ensures var col := Column(cols, textLength);
      col == (cols - textLength) / 2 &&
      0 <= col && 0 <= (cols - textLength - col) - col <= 1
  {
    var gap := cols - textLength;
    assert (cols - textLength) % SizeModulus == gap;
    assert gap / 2 < IntLimit;
  }

  /**
   * When the text is wider than the screen, the unsigned subtraction wraps
   * around and the narrowed quotient is negative: the text would start
   * half its overhang (rounded up) to the left of the screen.
   */
  lemma {:induction false} ColumnOverhang(cols: int, textLength: nat)
    requires 0 <= cols < textLength < IntLimit
    ensures Column(cols, textLength) == -((textLength - cols + 1) / 2)
  {
    var d := textLength - cols;
    var e := (d + 1) / 2;
    var gap := (cols - textLength) % SizeModulus;
    assert gap == SizeModulus - d;
    assert gap / 2 == 0x8000_0000_0000_0000 - e;
    assert 0x8000_0000_0000_0000 - e == (IntLimit - 1) * IntModulus + (IntModulus - e);
    assert (gap / 2) % IntModulus == IntModulus - e;
  }

  /** A text that fits is placed centred on the row its position asks for. */
  lemma CenterTextCentered(text: string, screen: ScreenSize, position: string)
    requires screen.lines >= 1
    requires |text| <= screen.cols < IntLimit
    ensures var p := CenterText(text, screen, position);
      && p.text == text
      && (position == "top" ==> p.row == 0)
      && (position != "top" ==> 0 <= p.row && 0 <= (screen.lines - 1 - p.row) - p.row <= 1)
      && 0 <= p.col && 0 <= (screen.cols - |text| - p.col) - p.col <= 1
  {
    RowCentered(position, screen.lines);
    ColumnCentered(screen.cols, |text|);
  }
}
