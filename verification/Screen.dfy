/** The scrolling text screen as a value, and what it shows of a text (kernel/arch/x86-pc/io/vga.c). */
module Screen {
  const COLUMNS: nat := 80
  const ROWS: nat := 25
  const CELLS: nat := 2000
  const NEWLINE: nat := 10
  const BACKSPACE: nat := 8
  const TABULATION: nat := 9
  const WHITE_ON_BLACK: nat := 7
  const SPACE: nat := 32

  type Byte = b: nat | b < 256

  /** A character with its attributes, as it is shown and as two bytes of video memory hold it. */
  datatype Cell = Cell(character: Byte, attributes: Byte)

  type Row = seq<Cell>

  /** A row ends after `k` characters: with a newline, or because 80 characters fill it. */
  predicate Ends(text: seq<Cell>, k: nat)
  {
    0 < k <= |text| && (text[k - 1].character == NEWLINE || k == COLUMNS)
  }

  /** Where the first row of a text ends; 0 when the text is all on one row. */
  function RowEnd(text: seq<Cell>, k: nat := 0): (end: nat)
    requires k <= |text| && forall j: nat :: j <= k ==> !Ends(text, j)
    ensures end > 0 ==> Ends(text, end)
    ensures forall j: nat :: j < end || end == 0 ==> !Ends(text, j)
    decreases |text| - k
  {
    if k == |text| then 0 else if Ends(text, k + 1) then k + 1 else RowEnd(text, k + 1)
  }

  function FirstRow(text: seq<Cell>, end: nat): Row
    requires Ends(text, end)
  {
    if text[end - 1].character == NEWLINE then text[..end - 1] else text[..end]
  }

  /** The rows of a text wrapped eagerly at column 80. The last row is the one being written. */
  function Wrap(text: seq<Cell>): (rows: seq<Row>)
    ensures rows != []
    ensures forall r :: 0 <= r < |rows| - 1 ==> |rows[r]| <= COLUMNS
    ensures |rows[|rows| - 1]| < COLUMNS
    decreases |text|
  {
    var end := RowEnd(text);
    if end == 0 then
      assert !Ends(text, COLUMNS);
      [text]
    else
      assert end > COLUMNS ==> !Ends(text, COLUMNS);
      [FirstRow(text, end)] + Wrap(text[end..])
  }

  /** The rows once one more character has been written after them. */
  function Extend(rows: seq<Row>, c: Cell): seq<Row>
    requires rows != []
  {
    var n := |rows| - 1;
    if c.character == NEWLINE then rows + [[]]
    else if |rows[n]| + 1 == COLUMNS then rows[n := rows[n] + [c]] + [[]]
    else rows[n := rows[n] + [c]]
  }

  /** How many rows have scrolled off the top. */
  function Top(rows: seq<Row>): nat
  {
    if |rows| <= ROWS then 0 else |rows| - ROWS
  }

  /** Whether row `y` and column `x` of the screen hold a character of the text. */
  predicate Reached(rows: seq<Row>, y: nat, x: nat)
  {
    var r := Top(rows) + y;
    r < |rows| && x < |rows[r]|
  }

  /** What they show: the text, or blanks, whose attributes scrolling clears. */
  function Shown(rows: seq<Row>, y: nat, x: nat): Cell
  {
    var r := Top(rows) + y;
    if Reached(rows, y, x) then rows[r][x] else Cell(0, if r < ROWS then WHITE_ON_BLACK else 0)
  }

  /** The cell the cursor is on: the end of the text. */
  function CursorY(rows: seq<Row>): int
  {
    |rows| - 1 - Top(rows)
  }

  function CursorX(rows: seq<Row>): nat
    requires rows != []
  {
    |rows[|rows| - 1]|
  }

  /** The screen once a character has been written at the cursor, before any scrolling. */
  function Written(rows: seq<Row>, c: Cell, y: nat, x: nat): Cell
    requires rows != []
  {
    if c.character != NEWLINE && y == CursorY(rows) && x == CursorX(rows) then c else Shown(rows, y, x)
  }

  lemma ExtendShown(rows: seq<Row>, c: Cell, y: nat, x: nat)
    requires rows != [] && CursorX(rows) < COLUMNS && y < ROWS && x < COLUMNS
    ensures var rows' := Extend(rows, c);
            && Top(rows) <= Top(rows') <= Top(rows) + 1
            && Shown(rows', y, x) ==
               if Top(rows') == Top(rows) then Written(rows, c, y, x)
               else if y + 1 < ROWS then Written(rows, c, y + 1, x) else Cell(0, 0)
  {
  }

  lemma ExtendReached(rows: seq<Row>, c: Cell, y: nat, x: nat)
    requires rows != [] && CursorX(rows) < COLUMNS && y < ROWS && x < COLUMNS && Reached(Extend(rows, c), y, x)
    ensures var y' := y + Top(Extend(rows, c)) - Top(rows);
            0 <= y' < ROWS
            && (Reached(rows, y', x) || (c.character != NEWLINE && y' == CursorY(rows) && x == CursorX(rows)))
  {
  }

  lemma ExtendCursor(rows: seq<Row>, c: Cell)
    requires rows != [] && CursorX(rows) < COLUMNS
    ensures var rows' := Extend(rows, c);
            var wraps := c.character == NEWLINE || CursorX(rows) + 1 == COLUMNS;
            && 0 <= CursorY(rows) < ROWS
            && CursorX(rows') == (if wraps then 0 else CursorX(rows) + 1)
            && |rows'| == (if wraps then |rows| + 1 else |rows|)
            && Top(rows') == (if wraps && CursorY(rows) == ROWS - 1 then Top(rows) + 1 else Top(rows))
  {
  }

  /** Writing a character at the end of a text changes its rows as `Extend` says. */
  lemma {:induction false} WrapSnoc(text: seq<Cell>, c: Cell)
    ensures Wrap(text + [c]) == Extend(Wrap(text), c)
    decreases |text|
  {
    hide Extend, RowEnd;
    var end, longer := RowEnd(text), text + [c];
    RowEndSnoc(text, c);
    if end > 0 {
      assert longer[end..] == text[end..] + [c];
      assert FirstRow(longer, end) == FirstRow(text, end) by {
        assert longer[..end - 1] == text[..end - 1] && longer[..end] == text[..end];
      }
      WrapSnoc(text[end..], c);
      ExtendCons(FirstRow(text, end), Wrap(text[end..]), c);
    } else {
      WrapShort(text, c);
    }
  }

  lemma ExtendCons(row: Row, rows: seq<Row>, c: Cell)
    requires rows != []
    ensures Extend([row] + rows, c) == [row] + Extend(rows, c)
  {
  }

  lemma WrapShort(text: seq<Cell>, c: Cell)
    requires RowEnd(text) == 0
    ensures Wrap(text + [c]) == Extend([text], c)
  {
    hide RowEnd;
    var longer := text + [c];
    RowEndSnoc(text, c);
    assert !Ends(text, COLUMNS);
    if Ends(longer, |longer|) {
      assert longer[..|text|] == text && longer[..|longer|] == longer && longer[|longer|..] == [];
      assert !Ends([], RowEnd([]));
    }
  }

  lemma RowEndSnoc(text: seq<Cell>, c: Cell)
    ensures RowEnd(text + [c]) ==
            if RowEnd(text) > 0 then RowEnd(text) else if Ends(text + [c], |text| + 1) then |text| + 1 else 0
  {
    hide RowEnd;
    forall j: nat | j <= |text|
      ensures Ends(text + [c], j) == Ends(text, j)
    {
    }
    var e := RowEnd(text + [c]);
    assert !Ends(text + [c], |text| + 2);
    if RowEnd(text) > 0 {
      assert Ends(text + [c], RowEnd(text));
    } else if e > 0 {
      assert Ends(text + [c], e);
    }
  }

  // ---------------------------------------------------------------- the page

  /** The cells, row by row, the cursor, whose column is an unsigned byte, and the current attributes. */
  datatype Page = Page(cells: seq<Cell>, x: Byte, y: nat, ink: Byte)

  predicate Proper(p: Page)
  {
    |p.cells| == CELLS && p.y < ROWS
  }

  function Cleared(ink: Byte): (p: Page)
    ensures Proper(p)
  {
    Page(seq(CELLS, _ => Cell(0, WHITE_ON_BLACK)), 0, 0, ink)
  }

  /** Writing a cell, which may lie behind the page. */
  function Placed(p: Page, at: nat, c: Cell): Page
  {
    if at < |p.cells| then p.(cells := p.cells[at := c]) else p
  }

  /** A cursor below the last row scrolls the page up by a row. */
  function Followed(p: Page): (q: Page)
    requires |p.cells| == CELLS && p.y <= ROWS
    ensures Proper(q) && q.x == p.x && q.ink == p.ink
  {
    if p.y < ROWS then p
    else p.(cells := p.cells[COLUMNS..] + seq(COLUMNS, _ => Cell(0, 0)), y := ROWS - 1)
  }

  /** `vga_display_character`. */
  function Typed(p: Page, c: Byte): (q: Page)
    requires Proper(p)
    ensures Proper(q) && q.ink == p.ink
  {
    if c == NEWLINE then Followed(p.(x := 0, y := p.y + 1))
    else if c == BACKSPACE then
      var q := if p.x > 0 then p.(x := p.x - 1) else if p.y > 0 then p.(x := COLUMNS - 1, y := p.y - 1) else p;
      Placed(q, COLUMNS * q.y + q.x, Cell(SPACE, q.ink))
    else if c == TABULATION then
      if p.x + 4 > COLUMNS then p else p.(x := p.x + 4)
    else
      var q := Placed(p, COLUMNS * p.y + p.x, Cell(c, p.ink));
      if p.x == 255 then q.(x := 0)
      else if p.x + 1 > COLUMNS - 1 then Followed(q.(x := 0, y := q.y + 1))
      else q.(x := p.x + 1)
  }

  /** `vga_update_position(-1, 0)`: from column 0 the unsigned byte goes round to 255. */
  function SteppedBack(p: Page): (q: Page)
    ensures Proper(p) ==> Proper(q)
  {
    p.(x := if p.x == 0 then 255 else p.x - 1)
  }

  /** The first characters on a cleared screen. */
  lemma TypedExamples()
    ensures var p := Typed(Cleared(14), 65); p.cells[0] == Cell(65, 14) && p.x == 1 && p.y == 0
    ensures var p := Typed(Cleared(14), 10); p.cells == Cleared(14).cells && p.x == 0 && p.y == 1
    ensures var p := Typed(Typed(Cleared(14), 10), 66); p.cells[80] == Cell(66, 14) && p.x == 1 && p.y == 1
    ensures Cleared(14).cells[0] == Cell(0, 7)
  {
  }

  /** A backspace undoes a character that has not scrolled the page, but for the space it leaves. */
  lemma BackspaceUndoes(p: Page, c: Byte)
    requires Proper(p) && p.x < 80 && Ordinary(c) && (p.x < 79 || p.y < 24)
    ensures Typed(Typed(p, c), 8) == Placed(p, 80 * p.y + p.x, Cell(32, p.ink))
  {
    hide Followed;
    TypedIs(p, Cell(c, p.ink));
    NoScroll(Moved(p, Cell(c, p.ink)));
  }

  lemma NoScroll(p: Page)
    requires |p.cells| == CELLS && p.y < ROWS
    ensures Followed(p) == p
  {
  }

  /** At the top left it stays there. */
  lemma BackspaceAtStart(p: Page)
    requires Proper(p) && p.x == 0 && p.y == 0
    ensures Typed(p, 8) == p.(cells := p.cells[0 := Cell(32, p.ink)])
  {
  }

  /** A tabulation moves the cursor by four columns, up to column 80, and else not at all. */
  lemma TabMoves(p: Page)
    requires Proper(p) && p.x <= 80
    ensures Typed(p, 9).x == (if p.x <= 76 then p.x + 4 else p.x) <= 80
    ensures Typed(p, 9) == p.(x := Typed(p, 9).x)
  {
  }

  /** From column 80 a character is written at the start of the next row, and the cursor is left on it. */
  lemma TabOverflow(p: Page, c: Byte)
    requires Proper(p) && p.x == 76 && p.y < 24 && Ordinary(c)
    ensures var q := Typed(Typed(p, 9), c);
            q.cells == p.cells[80 * (p.y + 1) := Cell(c, p.ink)] && q.x == 0 && q.y == p.y + 1
  {
  }

  predicate Ordinary(c: Byte)
  {
    c != NEWLINE && c != BACKSPACE && c != TABULATION
  }

  /** Where a character lands after a step back from column 0. */
  const STRAY_COLUMN: nat := 15

  function StrayAt(y: nat): nat
  {
    COLUMNS * (y + 3) + STRAY_COLUMN
  }

  /**
   * The page shows the last 25 rows of the text, with the cursor at the text's end; `but` leaves out the blank cells of
   * the column where stray characters land.
   */
  ghost predicate Agrees(p: Page, text: seq<Cell>, but: bool)
  {
    var rows := Wrap(text);
    && Proper(p) && p.x == CursorX(rows) && p.y == CursorY(rows)
    && forall k: nat :: k < CELLS && Counts(rows, but, k) ==>
         p.cells[k] == Shown(rows, k / COLUMNS, k % COLUMNS)
  }

  predicate Counts(rows: seq<Row>, but: bool, k: nat)
  {
    but && k % COLUMNS == STRAY_COLUMN ==> Reached(rows, k / COLUMNS, k % COLUMNS)
  }

  ghost predicate Displays(p: Page, text: seq<Cell>)
  {
    Agrees(p, text, false)
  }

  lemma ClearedDisplays(ink: Byte)
    ensures Displays(Cleared(ink), [])
  {
    assert Wrap([]) == [[]];
  }

  lemma CellIndex(k: nat, y: nat, x: nat)
    requires x < COLUMNS
    ensures k == COLUMNS * y + x <==> k / COLUMNS == y && k % COLUMNS == x
  {
  }

  lemma NextRow(k: nat)
    ensures (k + COLUMNS) / COLUMNS == k / COLUMNS + 1 && (k + COLUMNS) % COLUMNS == k % COLUMNS
  {
  }

  lemma FollowedCell(p: Page, k: nat)
    requires |p.cells| == CELLS && p.y <= ROWS && k < CELLS
    ensures Followed(p).cells[k] == if p.y < ROWS then p.cells[k]
            else if k + COLUMNS < CELLS then p.cells[k + COLUMNS] else Cell(0, 0)
    ensures Followed(p).y == if p.y < ROWS then p.y else ROWS - 1
  {
  }

  /** The page once a character has been written, and once the cursor has moved, before any scrolling. */
  function Inscribed(p: Page, c: Cell): (q: Page)
    ensures |q.cells| == |p.cells|
  {
    if c.character == NEWLINE then p else Placed(p, COLUMNS * p.y + p.x, c)
  }

  function Moved(p: Page, c: Cell): (q: Page)
    requires p.x < COLUMNS
    ensures |q.cells| == |p.cells|
  {
    var wraps := c.character == NEWLINE || p.x + 1 == COLUMNS;
    Inscribed(p, c).(x := if wraps then 0 else p.x + 1, y := if wraps then p.y + 1 else p.y)
  }

  lemma TypedIs(p: Page, c: Cell)
    requires Proper(p) && p.x < COLUMNS && c.character != BACKSPACE && c.character != TABULATION
    requires c.character == NEWLINE || c.attributes == p.ink
    ensures Typed(p, c.character) == Followed(Moved(p, c))
  {
  }

  lemma InscribedCell(p: Page, text: seq<Cell>, but: bool, c: Cell, k: nat)
    requires Agrees(p, text, but) && k < CELLS
    requires Counts(Wrap(text), but, k) ||
             (c.character != NEWLINE && k / COLUMNS == CursorY(Wrap(text)) && k % COLUMNS == CursorX(Wrap(text)))
    ensures Inscribed(p, c).cells[k] == Written(Wrap(text), c, k / COLUMNS, k % COLUMNS)
  {
    hide Wrap, Shown, Counts;
    CellIndex(k, p.y, p.x);
  }

  lemma AgreesParts(p: Page, text: seq<Cell>, but: bool)
    requires Agrees(p, text, but)
    ensures Proper(p) && p.x == CursorX(Wrap(text)) < COLUMNS && p.y == CursorY(Wrap(text))
  {
    hide Shown;
  }

  /** A character typed at the end of a text is shown there. */
  lemma TypedAgrees(p: Page, text: seq<Cell>, but: bool, c: Cell)
    requires Agrees(p, text, but) && c.character != BACKSPACE && c.character != TABULATION
    requires c.character == NEWLINE || c.attributes == p.ink
    ensures Agrees(Typed(p, c.character), text + [c], but)
  {
    hide Wrap, Extend, Top, Shown, Written, Agrees, Followed, Inscribed, CursorX, CursorY, Counts;
    AgreesParts(p, text, but);
    var rows, w, q := Wrap(text), Moved(p, c), Typed(p, c.character);
    WrapSnoc(text, c);
    ExtendCursor(rows, c);
    TypedIs(p, c);
    forall k: nat | k < CELLS && Counts(Extend(rows, c), but, k)
      ensures q.cells[k] == Shown(Extend(rows, c), k / COLUMNS, k % COLUMNS)
    {
      FollowedCell(w, k);
      ExtendShown(rows, c, k / COLUMNS, k % COLUMNS);
      CountsBefore(rows, but, c, k);
      if w.y < ROWS {
        InscribedCell(p, text, but, c, k);
      } else if k + COLUMNS < CELLS {
        NextRow(k);
        InscribedCell(p, text, but, c, k + COLUMNS);
      }
    }
    FollowedCell(w, 0);
    CursorIs(Extend(rows, c));
    CursorIs(rows);
    AgreesIs(q, text + [c], but);
  }

  lemma CountsBefore(rows: seq<Row>, but: bool, c: Cell, k: nat)
    requires rows != [] && CursorX(rows) < COLUMNS && k < CELLS && Counts(Extend(rows, c), but, k)
    ensures Top(rows) <= Top(Extend(rows, c)) <= Top(rows) + 1
    ensures var k' := if Top(Extend(rows, c)) == Top(rows) then k else k + COLUMNS;
            Counts(rows, but, k') ||
            (c.character != NEWLINE && k' / COLUMNS == CursorY(rows) && k' % COLUMNS == CursorX(rows))
  {
    hide Extend, Top, Reached, Shown, Written, CursorX, CursorY;
    ExtendShown(rows, c, k / COLUMNS, k % COLUMNS);
    NextRow(k);
    if but && k % COLUMNS == STRAY_COLUMN {
      ExtendReached(rows, c, k / COLUMNS, k % COLUMNS);
    }
  }

  lemma CursorIs(rows: seq<Row>)
    ensures CursorY(rows) == |rows| - 1 - Top(rows)
  {
  }

  lemma AgreesIs(p: Page, text: seq<Cell>, but: bool)
    requires Proper(p) && p.x == CursorX(Wrap(text)) && p.y == CursorY(Wrap(text))
    requires forall k: nat :: k < CELLS && Counts(Wrap(text), but, k) ==>
        p.cells[k] == Shown(Wrap(text), k / COLUMNS, k % COLUMNS)
    ensures Agrees(p, text, but)
  {
  }

  /** Stepping back, away from column 0, and typing replaces the last character of the text. */
  lemma ReplacedAgrees(p: Page, text: seq<Cell>, d: Cell, but: bool, c: Cell)
    requires Agrees(p, text + [d], but) && p.x > 0 && Ordinary(c.character) && c.attributes == p.ink
    ensures Agrees(Typed(SteppedBack(p), c.character), text + [c], but)
  {
    hide Wrap, Shown, Agrees, Followed, Inscribed, CursorY, Counts;
    var q := SteppedBack(p);
    AgreesParts(p, text + [d], but);
    TypedIs(q, c);
    var rows, r := Wrap(text), Typed(q, c.character);
    WrapSnoc(text, c);
    WrapSnoc(text, d);
    LastReplaced(rows, d, c);
    StillThere(q, c);
    forall k: nat | k < CELLS && Counts(Extend(rows, c), but, k)
      ensures r.cells[k] == Shown(Extend(rows, c), k / COLUMNS, k % COLUMNS)
    {
      CountsReplaced(rows, d, but, c, k);
      AgreesAt(p, text + [d], but, k);
      CellIndex(k, q.y, q.x);
      ShownReplaced(rows, d, c, k / COLUMNS, k % COLUMNS);
    }
    AgreesIs(r, text + [c], but);
  }

  lemma CountsReplaced(rows: seq<Row>, d: Cell, but: bool, c: Cell, k: nat)
    requires rows != [] && CursorX(rows) < COLUMNS && CursorX(Extend(rows, d)) > 0 && c.character != NEWLINE
    ensures Counts(Extend(rows, c), but, k) <==> Counts(Extend(rows, d), but, k)
  {
  }

  lemma AgreesAt(p: Page, text: seq<Cell>, but: bool, k: nat)
    requires Agrees(p, text, but) && k < CELLS && Counts(Wrap(text), but, k)
    ensures |p.cells| == CELLS && p.cells[k] == Shown(Wrap(text), k / COLUMNS, k % COLUMNS)
  {
  }

  lemma StillThere(p: Page, c: Cell)
    requires Proper(p) && p.x + 1 < COLUMNS && Ordinary(c.character)
    ensures Followed(Moved(p, c)) == p.(cells := p.cells[COLUMNS * p.y + p.x := c], x := p.x + 1)
  {
  }

  /** When the last character of a text is no newline and leaves the cursor in its row, so does another in its place. */
  lemma LastReplaced(rows: seq<Row>, d: Cell, c: Cell)
    requires rows != [] && CursorX(rows) < COLUMNS && CursorX(Extend(rows, d)) > 0 && c.character != NEWLINE
    ensures CursorX(Extend(rows, c)) == CursorX(Extend(rows, d)) == CursorX(rows) + 1
    ensures CursorY(Extend(rows, c)) == CursorY(Extend(rows, d)) == CursorY(rows)
  {
  }

  lemma ShownReplaced(rows: seq<Row>, d: Cell, c: Cell, y: nat, x: nat)
    requires rows != [] && CursorX(rows) < COLUMNS && CursorX(Extend(rows, d)) > 0 && c.character != NEWLINE
    ensures Shown(Extend(rows, c), y, x) ==
            if y == CursorY(rows) && x == CursorX(rows) then c else Shown(Extend(rows, d), y, x)
  {
  }

  /** Stepping back from column 0 and typing leaves the cursor where it was, and the character far from the text. */
  lemma StrayTyped(p: Page, c: Byte)
    requires Proper(p) && p.x == 0 && Ordinary(c)
    ensures Typed(SteppedBack(p), c) == Placed(p, StrayAt(p.y), Cell(c, p.ink))
    ensures StrayAt(p.y) % COLUMNS == STRAY_COLUMN
  {
  }

  /** So the text stays as it is. */
  lemma StrayAgrees(p: Page, text: seq<Cell>, c: Byte)
    requires Agrees(p, text, true) && p.x == 0 && Ordinary(c)
    ensures Agrees(Typed(SteppedBack(p), c), text, true)
  {
    hide Wrap, Shown;
    StrayTyped(p, c);
    CellIndex(StrayAt(p.y), p.y + 3, STRAY_COLUMN);
  }

  function TypedAll(p: Page, cs: seq<Byte>): (q: Page)
    requires Proper(p)
    ensures Proper(q) && q.ink == p.ink
  {
    if cs == [] then p else Typed(TypedAll(p, cs[..|cs| - 1]), cs[|cs| - 1])
  }

  function Colored(cs: seq<Byte>, ink: Byte): (text: seq<Cell>)
    ensures |text| == |cs|
  {
    seq(|cs|, i requires 0 <= i < |cs| => Cell(cs[i], ink))
  }

  /**
   * Printable characters and newlines, typed behind a text that is shown, are shown with it: the last 25 rows, wrapped
   * at column 80, with the cursor at the end, inside the screen.
   */
  lemma {:induction false} TextShown(p: Page, text: seq<Cell>, cs: seq<Byte>)
    requires Proper(p) && Displays(p, text)
    requires forall i :: 0 <= i < |cs| ==> cs[i] != BACKSPACE && cs[i] != TABULATION
    ensures Displays(TypedAll(p, cs), text + Colored(cs, p.ink))
    decreases |cs|
  {
    hide Agrees, Typed;
    if cs == [] {
      assert text + Colored(cs, p.ink) == text;
    } else {
      var n := |cs| - 1;
      var c := Cell(cs[n], p.ink);
      TextShown(p, text, cs[..n]);
      TypedAgrees(TypedAll(p, cs[..n]), text + Colored(cs[..n], p.ink), false, c);
      assert text + Colored(cs[..n], p.ink) + [c] == text + Colored(cs, p.ink);
    }
  }

  // ---------------------------------------------------------------- where the characters of a text are

  /** Texts of the same length with their newlines in the same places. */
  ghost predicate SameShape(a: seq<Cell>, b: seq<Cell>)
  {
    |a| == |b| && forall i :: 0 <= i < |a| ==> (a[i].character == NEWLINE <==> b[i].character == NEWLINE)
  }

  ghost predicate SameRows(r: seq<Row>, s: seq<Row>)
  {
    |r| == |s| && forall i :: 0 <= i < |r| ==> |r[i]| == |s[i]|
  }

  lemma SameExtend(r: seq<Row>, s: seq<Row>, c: Cell, d: Cell)
    requires r != [] && SameRows(r, s) && (c.character == NEWLINE <==> d.character == NEWLINE)
    ensures SameRows(Extend(r, c), Extend(s, d))
  {
  }

  /** They are wrapped alike. */
  lemma {:induction false} ShapeRows(a: seq<Cell>, b: seq<Cell>)
    requires SameShape(a, b)
    ensures SameRows(Wrap(a), Wrap(b)) && CursorX(Wrap(a)) == CursorX(Wrap(b))
    decreases |a|
  {
    hide Wrap, Extend;
    if a == [] {
      assert a == b;
    } else {
      var n := |a| - 1;
      ShapeRows(a[..n], b[..n]);
      assert a == a[..n] + [a[n]] && b == b[..n] + [b[n]];
      WrapSnoc(a[..n], a[n]);
      WrapSnoc(b[..n], b[n]);
      SameExtend(Wrap(a[..n]), Wrap(b[..n]), a[n], b[n]);
    }
  }

  /** Rows of the same lengths, and the same from row `top` on. */
  ghost predicate SameBelow(r: seq<Row>, s: seq<Row>, top: nat)
  {
    |r| == |s| && forall i :: 0 <= i < |r| ==> |r[i]| == |s[i]| && (i >= top ==> r[i] == s[i])
  }

  lemma ExtendBelow(r: seq<Row>, s: seq<Row>, c: Cell, d: Cell, top: nat)
    requires r != [] && SameBelow(r, s, top) && (c.character == NEWLINE <==> d.character == NEWLINE)
    requires c == d || |s| <= top
    ensures SameBelow(Extend(r, c), Extend(s, d), top)
  {
  }

  /** Texts of the same shape that differ in the first rows alone. */
  lemma {:induction false} RightRows(a: seq<Cell>, b: seq<Cell>, top: nat)
    requires SameShape(a, b) && forall i :: 0 <= i < |b| ==> a[i] == b[i] || |Wrap(b[..i])| <= top
    ensures SameBelow(Wrap(a), Wrap(b), top)
    decreases |a|
  {
    hide Wrap, Extend;
    if a == [] {
      assert a == b;
    } else {
      var n := |a| - 1;
      forall i | 0 <= i < n
        ensures a[..n][i] == b[..n][i] || |Wrap(b[..n][..i])| <= top
      {
        assert b[..n][..i] == b[..i];
      }
      RightRows(a[..n], b[..n], top);
      assert a == a[..n] + [a[n]] && b == b[..n] + [b[n]];
      WrapSnoc(a[..n], a[n]);
      WrapSnoc(b[..n], b[n]);
      ExtendBelow(Wrap(a[..n]), Wrap(b[..n]), a[n], b[n], top);
    }
  }

  /** The rows hold a character at the place where the cursor was before it. */
  ghost predicate HasAt(rows: seq<Row>, before: seq<Row>, c: Cell)
    requires before != []
  {
    |before| <= |rows| && CursorX(before) < |rows[|before| - 1]| && rows[|before| - 1][CursorX(before)] == c
  }

  lemma HasExtend(rows: seq<Row>, before: seq<Row>, c: Cell, d: Cell)
    requires before != [] && rows != [] && HasAt(rows, before, c)
    ensures HasAt(Extend(rows, d), before, c)
  {
  }

  lemma HasLast(rows: seq<Row>, c: Cell)
    requires rows != [] && c.character != NEWLINE
    ensures HasAt(Extend(rows, c), rows, c)
  {
  }

  lemma {:induction false} WrapPlace(text: seq<Cell>, i: nat)
    requires i < |text| && text[i].character != NEWLINE
    ensures HasAt(Wrap(text), Wrap(text[..i]), text[i])
    decreases |text|
  {
    hide Wrap, Extend, HasAt;
    var n := |text| - 1;
    assert text == text[..n] + [text[n]];
    WrapSnoc(text[..n], text[n]);
    if i == n {
      HasLast(Wrap(text[..n]), text[n]);
    } else {
      WrapPlace(text[..n], i);
      assert text[..n][..i] == text[..i];
      HasExtend(Wrap(text[..n]), Wrap(text[..i]), text[i], text[n]);
    }
  }

  /** A longer text has at least as many rows. */
  lemma {:induction false} RowsGrow(text: seq<Cell>, i: nat)
    requires i <= |text|
    ensures |Wrap(text[..i])| <= |Wrap(text)|
    decreases |text|
  {
    hide Wrap, Extend;
    var n := |text| - 1;
    if i == |text| {
      assert text[..i] == text;
    } else {
      assert text == text[..n] + [text[n]] && text[..n][..i] == text[..i];
      RowsGrow(text[..n], i);
      WrapSnoc(text[..n], text[n]);
      ExtendLonger(Wrap(text[..n]), text[n]);
    }
  }

  lemma ExtendLonger(rows: seq<Row>, c: Cell)
    requires rows != []
    ensures |rows| <= |Extend(rows, c)|
  {
  }

  /** The text with its wrapped rows joined again: a row that is not full ended with a newline. */
  function Unwrapped(rows: seq<Row>): seq<Cell>
  {
    if rows == [] then []
    else if |rows| == 1 then rows[0]
    else rows[0] + (if |rows[0]| < COLUMNS then [Cell(NEWLINE, 0)] else []) + Unwrapped(rows[1..])
  }

  /** Wrapping loses nothing but the attributes of newlines. */
  lemma {:induction false} UnwrapWrap(text: seq<Cell>)
    requires forall i :: 0 <= i < |text| && text[i].character == NEWLINE ==> text[i].attributes == 0
    ensures Unwrapped(Wrap(text)) == text
    decreases |text|
  {
    hide Wrap, Unwrapped, FirstRow, RowEnd;
    var end := RowEnd(text);
    WrapStep(text, end);
    if end > 0 {
      UnwrapWrap(text[end..]);
      UnwrapStep(FirstRow(text, end), Wrap(text[end..]));
      FirstRowParts(text, end);
      assert text == text[..end] + text[end..];
    } else {
      UnwrapOne(text);
    }
  }

  lemma WrapStep(text: seq<Cell>, end: nat)
    requires end == RowEnd(text)
    ensures end <= |text| && end <= COLUMNS
    ensures end == 0 ==> Wrap(text) == [text]
    ensures end > 0 ==> Ends(text, end) && Wrap(text) == [FirstRow(text, end)] + Wrap(text[end..])
  {
    hide RowEnd, FirstRow;
    assert end > COLUMNS ==> !Ends(text, COLUMNS);
  }

  lemma UnwrapStep(row: Row, rows: seq<Row>)
    requires rows != []
    ensures Unwrapped([row] + rows) ==
            row + (if |row| < COLUMNS then [Cell(NEWLINE, 0)] else []) + Unwrapped(rows)
  {
    assert ([row] + rows)[1..] == rows;
  }

  lemma UnwrapOne(row: Row)
    ensures Unwrapped([row]) == row
  {
  }

  lemma FirstRowParts(text: seq<Cell>, end: nat)
    requires Ends(text, end) && end <= COLUMNS
    requires text[end - 1].character == NEWLINE ==> text[end - 1].attributes == 0
    ensures FirstRow(text, end) + (if |FirstRow(text, end)| < COLUMNS then [Cell(NEWLINE, 0)] else []) == text[..end]
  {
    assert text[..end] == text[..end - 1] + [text[end - 1]];
  }

  /** Text whose characters can be told from blanks; the attributes of its newlines, which show nowhere, are 0. */
  ghost predicate Visible(text: seq<Cell>)
  {
    forall i :: 0 <= i < |text| ==>
      text[i].character != 0 && (text[i].character == NEWLINE ==> text[i].attributes == 0)
  }

  ghost predicate NoBlanks(rows: seq<Row>)
  {
    forall r, x :: 0 <= r < |rows| && 0 <= x < |rows[r]| ==> rows[r][x].character != 0
  }

  lemma {:induction false} VisibleRows(text: seq<Cell>)
    requires Visible(text)
    ensures NoBlanks(Wrap(text))
    decreases |text|
  {
    hide Wrap, Extend;
    if text == [] {
      EmptyRows();
    } else {
      var n := |text| - 1;
      assert text == text[..n] + [text[n]];
      VisibleRows(text[..n]);
      WrapSnoc(text[..n], text[n]);
      ExtendNoBlanks(Wrap(text[..n]), text[n]);
    }
  }

  lemma EmptyRows()
    ensures Wrap([]) == [[]]
  {
  }

  lemma ExtendNoBlanks(rows: seq<Row>, c: Cell)
    requires rows != [] && NoBlanks(rows) && c.character != 0
    ensures NoBlanks(Extend(rows, c))
  {
  }

  /** The character a row shows in a column, or 0 behind its end. */
  function CharAt(r: Row, x: nat): Byte
  {
    if x < |r| then r[x].character else 0
  }

  lemma SameRow(r: Row, s: Row)
    requires |r| <= COLUMNS && |s| <= COLUMNS
    requires forall x :: 0 <= x < |r| ==> r[x].character != 0
    requires forall x :: 0 <= x < |s| ==> s[x].character != 0
    requires forall x: nat :: x < COLUMNS ==> CharAt(r, x) == CharAt(s, x)
    requires forall x :: 0 <= x < |r| && x < |s| ==> r[x] == s[x]
    ensures r == s
  {
    var n := if |r| < |s| then |r| else |s|;
    if n < COLUMNS {
      assert CharAt(r, n) == CharAt(s, n);
    }
  }

  /** Without scrolling, what is shown in its rows determines a text. */
  lemma ShownText(s: seq<Cell>, t: seq<Cell>)
    requires Visible(s) && Visible(t) && |Wrap(s)| == |Wrap(t)| <= ROWS
    requires forall y: nat, x: nat :: y < |Wrap(s)| && x < COLUMNS ==> Shown(Wrap(s), y, x) == Shown(Wrap(t), y, x)
    ensures s == t
  {
    hide Wrap, Visible;
    VisibleRows(s);
    VisibleRows(t);
    var r, q := Wrap(s), Wrap(t);
    forall y | 0 <= y < |r|
      ensures r[y] == q[y]
    {
      forall x: nat | x < COLUMNS
        ensures CharAt(r[y], x) == CharAt(q[y], x)
        ensures x < |r[y]| && x < |q[y]| ==> r[y][x] == q[y][x]
      {
        assert Shown(r, y, x) == Shown(q, y, x);
      }
      SameRow(r[y], q[y]);
    }
    assert r == q;
    CanonicalNewlines(s);
    CanonicalNewlines(t);
    UnwrapWrap(s);
    UnwrapWrap(t);
  }

  lemma CanonicalNewlines(text: seq<Cell>)
    requires Visible(text)
    ensures forall i :: 0 <= i < |text| && text[i].character == NEWLINE ==> text[i].attributes == 0
  {
  }
}
