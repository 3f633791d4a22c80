/**
 The 80x25 text screen as a value: what one character, one erase and a clean do to it
 (lib.c), and the unbounded document layout it is a window on.
 */
module Screen {
  import opened Bytes

  const COLS: nat := 80
  const ROWS: nat := 25
  const CELLS: nat := 2000   // ROWS * COLS
  const PAGE: nat := 2048    // cells in the 4 KB page that holds a screen
  const ATTRIB: byte := 7

  /** A character byte and its attribute byte. */
  datatype Cell = Cell(ch: byte, attr: byte)

  const BLANK: Cell := Cell(SP, ATTRIB)

  /** A page of cells and the cursor. */
  datatype Screen = Screen(cells: seq<Cell>, x: nat, y: nat) {
    ghost predicate InGrid() {
      |cells| == PAGE && x < COLS && y < ROWS
    }

    /** Cursor as an index into the cells. */
    function Pos(): nat { COLS * y + x }
  }

  predicate Breaks(c: byte) { c == NL || c == CR }

  // ---------------------------------------------------------------- one step

  function BlankRow(): seq<Cell> { seq(COLS, _ => BLANK) }

  /** The first row goes, a blank one comes in at the bottom. */
  function RowsUp(cells: seq<Cell>): (r: seq<Cell>)
    requires |cells| == PAGE
    ensures |r| == PAGE
  {
    cells[COLS..CELLS] + BlankRow() + cells[CELLS..]
  }

  function Scroll(cells: seq<Cell>, x: nat, y: nat): Screen
    requires |cells| == PAGE
  {
    if y >= ROWS then Screen(RowsUp(cells), x, ROWS - 1) else Screen(cells, x, y)
  }

  function Put(s: Screen, c: byte): (r: Screen)
    requires s.InGrid()
    ensures r.InGrid()
  {
    if Breaks(c) then Scroll(s.cells, 0, s.y + 1)
    else
      var cells := s.cells[s.Pos() := Cell(c, ATTRIB)];
      if s.x + 1 >= COLS then Scroll(cells, 0, s.y + 1) else Scroll(cells, s.x + 1, s.y)
  }

  function Erase(s: Screen): (r: Screen)
    requires s.InGrid()
    ensures r.InGrid()
  {
    if s.x == 0 && s.y == 0 then s
    else
      var x, y := if s.x == 0 then COLS - 1 else s.x - 1, if s.x == 0 then s.y - 1 else s.y;
      var p := COLS * y + x;
      Screen(s.cells[p := Cell(SP, s.cells[p].attr)], x, y)
  }

  function Clean(s: Screen): (r: Screen)
    requires |s.cells| == PAGE
    ensures r.InGrid()
  {
    Screen(seq(CELLS, _ => BLANK) + s.cells[CELLS..], 0, 0)
  }

  /**
   What one character does, in numbers: newline and return go to the start of the next line and draw
   nothing; any other one is drawn at the cursor, which moves on, from column 79 to the next line; behind
   line 24 the screen scrolls by one line instead.
   */
  lemma PutCases(s: Screen, c: byte)
    requires s.InGrid()
    ensures var r, ends, p := Put(s, c), c == 10 || c == 13 || s.x == 79, 80 * s.y + s.x;
            var scrolls := ends && s.y == 24;
            && r.x == (if ends then 0 else s.x + 1) && r.y == (if ends && !scrolls then s.y + 1 else s.y)
            && forall k :: 0 <= k < PAGE ==>
                 r.cells[k] == if scrolls && 1920 <= k < 2000 then Cell(32, 7)
                               else var q := if scrolls && k < 1920 then k + 80 else k;
                                    if q == p && c != 10 && c != 13 then Cell(c, 7) else s.cells[q]
  {
  }

  function Puts(s: Screen, text: seq<byte>): (r: Screen)
    requires s.InGrid()
    ensures r.InGrid()
  {
    if text == [] then s else Put(Puts(s, text[..|text| - 1]), text[|text| - 1])
  }

  function Erases(s: Screen, k: nat): (r: Screen)
    requires s.InGrid()
    ensures r.InGrid()
  {
    if k == 0 then s else Erase(Erases(s, k - 1))
  }

  // ---------------------------------------------------------------- the document behind the screen

  /** Rows of one line: full rows of 80, then the rest, which is empty after an exact fit. */
  function Wrap(line: seq<byte>): (rows: seq<seq<byte>>)
    ensures rows != []
    decreases |line|
  {
    if |line| < COLS then [line] else [line[..COLS]] + Wrap(line[COLS..])
  }

  function BreakAt(text: seq<byte>): (n: nat)
    ensures n <= |text|
    ensures n < |text| ==> Breaks(text[n])
    ensures forall i :: 0 <= i < n ==> !Breaks(text[i])
  {
    if text == [] || Breaks(text[0]) then 0 else 1 + BreakAt(text[1..])
  }

  /** The unbounded document: the text split at line breaks, each line wrapped. */
  function Layout(text: seq<byte>): (rows: seq<seq<byte>>)
    ensures rows != []
    decreases |text|
  {
    var n := BreakAt(text);
    if n < |text| then Wrap(text[..n]) + Layout(text[n + 1..]) else Wrap(text)
  }

  /** The row shown on screen line i: the last 25 rows of the document, from the top. */
  function ShownRow(rows: seq<seq<byte>>, i: nat): seq<byte> {
    var top := if |rows| > ROWS then |rows| - ROWS else 0;
    if top + i < |rows| then rows[top + i] else []
  }

  function ShownCell(rows: seq<seq<byte>>, k: nat): Cell {
    var row := ShownRow(rows, k / COLS);
    if k % COLS < |row| then Cell(row[k % COLS], ATTRIB) else BLANK
  }

  ghost predicate ShowsCells(cells: seq<Cell>, rows: seq<seq<byte>>)
    requires |cells| == PAGE
  {
    forall k :: 0 <= k < CELLS ==> cells[k] == ShownCell(rows, k)
  }

  /** s shows the end of the document, with the cursor at the document's end. */
  ghost predicate Shows(s: Screen, rows: seq<seq<byte>>)
    requires rows != []
  {
    && s.InGrid()
    && ShowsCells(s.cells, rows)
    && s.x == |rows[|rows| - 1]|
    && s.y == (if |rows| > ROWS then ROWS else |rows|) - 1
  }

  /** Every row but the last is a full 80 bytes or ended at a break; the last has room left. */
  ghost predicate Rows(rows: seq<seq<byte>>) {
    && rows != []
    && (forall i :: 0 <= i < |rows| ==> |rows[i]| <= COLS)
    && |rows[|rows| - 1]| < COLS
  }

  /** One more character at the end of the document. */
  function Extend(rows: seq<seq<byte>>, c: byte): (r: seq<seq<byte>>)
    requires rows != []
    ensures r != []
  {
    if Breaks(c) then rows + [[]]
    else
      var last := rows[|rows| - 1] + [c];
      rows[..|rows| - 1] + [last] + if |last| >= COLS then [[]] else []
  }

  lemma {:induction false} WrapExtend(line: seq<byte>, c: byte)
    requires !Breaks(c)
    ensures Rows(Wrap(line))
    ensures Wrap(line + [c]) == Extend(Wrap(line), c)
    decreases |line|
  {
    if |line| < COLS - 1 {
    } else if |line| == COLS - 1 {
      assert (line + [c])[..COLS] == line + [c] && (line + [c])[COLS..] == [];
    } else {
      var head, rest := line[..COLS], line[COLS..];
      WrapExtend(rest, c);
      assert (line + [c])[..COLS] == head && (line + [c])[COLS..] == rest + [c];
      ExtendAfter([head], Wrap(rest), c);
    }
  }

  lemma ExtendAfter(a: seq<seq<byte>>, b: seq<seq<byte>>, c: byte)
    requires b != []
    ensures Extend(a + b, c) == a + Extend(b, c)
  {
    assert (a + b)[..|a + b| - 1] == a + b[..|b| - 1];
  }

  lemma {:induction false} BreakAtIs(text: seq<byte>, n: nat)
    requires n <= |text| && (n == |text| || Breaks(text[n]))
    requires forall i :: 0 <= i < n ==> !Breaks(text[i])
    ensures BreakAt(text) == n
  {
    if n > 0 { BreakAtIs(text[1..], n - 1); }
  }

  lemma {:induction false} LayoutRows(text: seq<byte>)
    ensures Rows(Layout(text))
    decreases |text|
  {
    var n := BreakAt(text);
    WrapExtend(text[..n], 0);
    if n < |text| {
      LayoutRows(text[n + 1..]);
    } else {
      assert text[..n] == text;
    }
  }

  /** The document grows at its end only. */
  lemma {:induction false} LayoutExtend(text: seq<byte>, c: byte)
    ensures Layout(text + [c]) == Extend(Layout(text), c)
    decreases |text|
  {
    hide Wrap, Extend, BreakAt;
    var n, longer := BreakAt(text), text + [c];
    if n < |text| {
      var line, rest := text[..n], text[n + 1..];
      LayoutExtend(rest, c);
      BreakAtIs(longer, n);
      assert longer[..n] == line && longer[n + 1..] == rest + [c];
      ExtendAfter(Wrap(line), Layout(rest), c);
    } else if Breaks(c) {
      LastLineBreaks(text, c);
    } else {
      WrapExtend(text, c);
      BreakAtIs(longer, n + 1);
    }
  }

  lemma LastLineBreaks(text: seq<byte>, c: byte)
    requires BreakAt(text) == |text| && Breaks(c)
    ensures Layout(text + [c]) == Extend(Layout(text), c)
  {
    BreakAtIs(text + [c], |text|);
    assert (text + [c])[..|text|] == text && (text + [c])[|text| + 1..] == [];
    assert Layout([]) == [[]];
  }

  /** Writing behind the last row's text writes behind the document's end. */
  lemma CharShows(cells: seq<Cell>, rows: seq<seq<byte>>, c: byte)
    requires |cells| == PAGE && Rows(rows) && ShowsCells(cells, rows)
    ensures var n := |rows|; var i := (if n > ROWS then ROWS else n) - 1; var j := |rows[n - 1]|;
            ShowsCells(cells[COLS * i + j := Cell(c, ATTRIB)], rows[..n - 1] + [rows[n - 1] + [c]])
  {
    var n, last := |rows|, rows[|rows| - 1];
    var i, rows' := (if n > ROWS then ROWS else n) - 1, rows[..n - 1] + [last + [c]];
    var at := COLS * i + |last|;
    assert at / COLS == i && at % COLS == |last|;
    forall k | 0 <= k < CELLS
      ensures cells[at := Cell(c, ATTRIB)][k] == ShownCell(rows', k)
    {
      if k / COLS == i {
        assert k == COLS * i + k % COLS;
        assert ShownRow(rows, i) == last && ShownRow(rows', i) == last + [c];
      } else {
        assert ShownRow(rows', k / COLS) == ShownRow(rows, k / COLS);
      }
    }
  }

  /** A new empty row at the end scrolls the window when it is full, and changes no cell otherwise. */
  lemma NewRowShows(cells: seq<Cell>, rows: seq<seq<byte>>)
    requires |cells| == PAGE && rows != [] && ShowsCells(cells, rows)
    ensures var y := if |rows| > ROWS then ROWS else |rows|;
            Shows(Scroll(cells, 0, y), rows + [[]])
  {
    var rows' := rows + [[]];
    if |rows| < ROWS {
      forall k | 0 <= k < CELLS ensures cells[k] == ShownCell(rows', k) {
        assert ShownRow(rows', k / COLS) == ShownRow(rows, k / COLS);
      }
    } else {
      forall k | 0 <= k < CELLS ensures RowsUp(cells)[k] == ShownCell(rows', k) {
        if k < CELLS - COLS {
          assert (k + COLS) / COLS == k / COLS + 1 && (k + COLS) % COLS == k % COLS;
          assert ShownRow(rows', k / COLS) == ShownRow(rows, k / COLS + 1);
          assert RowsUp(cells)[k] == cells[k + COLS];
        } else {
          assert k / COLS == ROWS - 1;
          assert ShownRow(rows', k / COLS) == [];
        }
      }
    }
  }

  /** One step on the screen follows one step of the document. */
  lemma PutShows(s: Screen, rows: seq<seq<byte>>, c: byte)
    requires Rows(rows) && Shows(s, rows)
    ensures Shows(Put(s, c), Extend(rows, c))
  {
    hide ShowsCells, ShownCell, RowsUp;
    if Breaks(c) {
      NewRowShows(s.cells, rows);
    } else {
      var last := rows[|rows| - 1] + [c];
      var rows', cells := rows[..|rows| - 1] + [last], s.cells[s.Pos() := Cell(c, ATTRIB)];
      CharShows(s.cells, rows, c);
      if |last| >= COLS {
        NewRowShows(cells, rows');
      } else {
        assert Extend(rows, c) == rows';
      }
    }
  }

  /**
   Main result for the screen: after any stream of characters from a clean screen, the 2000 cells
   are the last 25 rows of the unbounded layout, every other cell is blank, and the cursor is at
   the layout's end.
   */
  lemma {:induction false} ScreenIsEndOfLayout(s: Screen, text: seq<byte>)
    requires |s.cells| == PAGE
    ensures Shows(Puts(Clean(s), text), Layout(text))
  {
    hide Put, Shows, Layout, Extend, Rows;
    if text == [] {
      CleanShows(s);
    } else {
      var shorter, c := text[..|text| - 1], text[|text| - 1];
      ScreenIsEndOfLayout(s, shorter);
      assert text == shorter + [c];
      LayoutExtend(shorter, c);
      LayoutRows(shorter);
      PutShows(Puts(Clean(s), shorter), Layout(shorter), c);
    }
  }

  lemma CleanShows(s: Screen)
    requires |s.cells| == PAGE
    ensures Shows(Clean(s), Layout([]))
  {
    assert Layout([]) == [[]];
  }

  /** The part of the page below the grid is never touched. */
  lemma {:induction false} PutsKeepsRest(s: Screen, text: seq<byte>)
    requires s.InGrid()
    ensures Puts(s, text).cells[CELLS..] == s.cells[CELLS..]
  {
    if text != [] {
      PutsKeepsRest(s, text[..|text| - 1]);
    }
  }

  // ---------------------------------------------------------------- echo and erase

  ghost predicate Printable(text: seq<byte>) {
    forall i :: 0 <= i < |text| ==> !Breaks(text[i])
  }

  /** How many rows the screen scrolls while k printable characters are put from position p on. */
  function Rolled(p: nat, k: nat): nat {
    if p + k < CELLS then 0 else (p + k - CELLS) / COLS + 1
  }

  /** What the document holds at index d after text was written from index p on. */
  function Written(cells: seq<Cell>, p: nat, text: seq<byte>, d: nat): Cell
    requires |cells| == PAGE
  {
    if p <= d < p + |text| then Cell(text[d - p], ATTRIB) else if d < CELLS then cells[d] else BLANK
  }

  /** The screen is a window on the document, as many rows down as it has scrolled. */
  ghost predicate WindowOn(s: Screen, cells: seq<Cell>, p: nat, text: seq<byte>)
    requires |cells| == PAGE
  {
    && s.InGrid()
    && s.Pos() + COLS * Rolled(p, |text|) == p + |text|
    && forall i :: 0 <= i < CELLS ==> s.cells[i] == Written(cells, p, text, i + COLS * Rolled(p, |text|))
  }

  lemma {:induction false} PutsIsWindow(s: Screen, text: seq<byte>)
    requires s.InGrid() && Printable(text)
    ensures WindowOn(Puts(s, text), s.cells, s.Pos(), text)
  {
    if text != [] {
      var shorter := text[..|text| - 1];
      PutsIsWindow(s, shorter);
      PutMovesWindow(Puts(s, shorter), s.cells, s.Pos(), shorter, text[|text| - 1]);
      assert shorter + [text[|text| - 1]] == text;
    }
  }

  lemma PutMovesWindow(s: Screen, cells: seq<Cell>, p: nat, text: seq<byte>, c: byte)
    requires |cells| == PAGE && p < CELLS && WindowOn(s, cells, p, text) && !Breaks(c)
    ensures WindowOn(Put(s, c), cells, p, text + [c])
  {
    var r, n := Put(s, c), Rolled(p, |text|);
    var n' := Rolled(p, |text + [c]|);
    assert n' == if s.Pos() == CELLS - 1 then n + 1 else n;
    forall i | 0 <= i < CELLS
      ensures r.cells[i] == Written(cells, p, text + [c], i + COLS * n')
    {
      if n' == n + 1 && i < CELLS - COLS {
        assert r.cells[i] == s.cells[s.Pos() := Cell(c, ATTRIB)][i + COLS];
      }
    }
  }

  /** k erases blank the k cells before the cursor, stopping at the top left corner. */
  lemma {:induction false} ErasesBlank(s: Screen, k: nat)
    requires s.InGrid()
    ensures var r, q := Erases(s, k), (if k <= s.Pos() then s.Pos() - k else 0);
            && r.Pos() == q
            && forall i :: 0 <= i < PAGE ==>
                 r.cells[i] == if q <= i < s.Pos() then Cell(SP, s.cells[i].attr) else s.cells[i]
  {
    if k > 0 {
      ErasesBlank(s, k - 1);
      var t := Erases(s, k - 1);
      assert t.x == 0 ==> Erase(t).Pos() == if t.y == 0 then 0 else t.Pos() - 1;
    }
  }

  /**
   Echo and erase undo each other: k printable characters and then k erases bring the cursor back to
   the same place of the document if and only if that place is still on the screen; in that case
   exactly those k cells are blank and the rest of the document is as before.
   */
  lemma EchoErase(s: Screen, text: seq<byte>)
    requires s.InGrid() && Printable(text)
    ensures var p, n := s.Pos(), Rolled(s.Pos(), |text|);
            var r := Erases(Puts(s, text), |text|);
            && (r.Pos() + COLS * n == p <==> COLS * n <= p)
            && (COLS * n <= p ==> forall i :: 0 <= i < CELLS ==>
                  r.cells[i] == var d := i + COLS * n;
                                if d < CELLS && !(p <= d < p + |text|) then s.cells[d] else BLANK)
  {
    PutsIsWindow(s, text);
    ErasesBlank(Puts(s, text), |text|);
  }
}
