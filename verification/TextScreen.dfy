/** The 80x25 text screen of src/screen.c, and the unbounded transcript it is a window of. */
module TextScreen {
  import opened Bytes

  const NEWLINE: byte := 10
  const BACKSPACE: byte := 8
  const BROWN: byte := 0x6F

  datatype Cell = Cell(ch: byte, attr: byte)

  const BLANK: Cell := Cell(0x20, 0x0F)

  type Row = seq<Cell>

  function BlankRow(): (r: Row)
    ensures |r| == 80 && forall i :: 0 <= i < 80 ==> r[i] == Cell(0x20, 0x0F)
  {
    seq(80, _ => BLANK)
  }

  datatype Screen = Screen(rows: seq<Row>, row: nat, col: nat)
  {
    /** The cursor is on the screen. */
    predicate Ok() {
      && |rows| == 25
      && (forall r :: 0 <= r < 25 ==> |rows[r]| == 80)
      && row < 25 && col < 80
    }
  }

  /** clear_screen */
  function Cleared(): (s: Screen)
    ensures s.Ok()
  {
    Screen(seq(25, _ => BlankRow()), 0, 0)
  }

  /** scroll_screen, when the cursor has left the last row. */
  function Scrolled(s: Screen): Screen
    requires |s.rows| == 25
  {
    if s.row < 25 then s else Screen(s.rows[1..] + [BlankRow()], 24, s.col)
  }

  /** One step of print_colored: a newline, or a character in a cell. */
  function Put(s: Screen, c: Cell): (r: Screen)
    requires s.Ok()
    ensures r.Ok()
  {
    if c.ch == NEWLINE then Scrolled(Screen(s.rows, s.row + 1, 0)) else
    var rows := s.rows[s.row := s.rows[s.row][s.col := c]];
    if s.col + 1 >= 80 then Scrolled(Screen(rows, s.row + 1, 0)) else Screen(rows, s.row, s.col + 1)
  }

  /** One step of print: as above in brown, and a backspace moves the cursor back. */
  function PrintChar(s: Screen, c: byte): (r: Screen)
    requires s.Ok()
    ensures r.Ok()
  {
    if c == BACKSPACE then
      if s.col > 0 then s.(col := s.col - 1)
      else if s.row > 0 then s.(row := s.row - 1, col := 79)
      else s
    else Put(s, Cell(c, BROWN))
  }

  /** print, of a string without its terminator. The cursor never leaves the screen. */
  function Print(s: Screen, msg: seq<byte>): (r: Screen)
    requires s.Ok()
    ensures r.Ok()
    decreases |msg|
  {
    if msg == [] then s else PrintChar(Print(s, msg[..|msg| - 1]), msg[|msg| - 1])
  }

  /** Printing in pieces is printing at once. */
  lemma {:induction false} PrintConcat(s: Screen, a: seq<byte>, b: seq<byte>)
    requires s.Ok()
    ensures Print(s, a + b) == Print(Print(s, a), b)
    decreases |b|
  {
    if b == [] {
      assert a + b == a;
    } else {
      var k := |b| - 1;
      assert (a + b)[..|a| + k] == a + b[..k];
      PrintConcat(s, a, b[..k]);
    }
  }

  /** The cursor as a number. */
  function Position(s: Screen): nat { 80 * s.row + s.col }

  /** A backspace takes the cursor one place back, over line ends too, but not off the screen, and
      leaves all cells alone. */
  lemma BackspaceStepsBack(s: Screen)
    requires s.Ok()
    ensures var r := Print(s, [8]);
            r.rows == s.rows && Position(r) == if Position(s) == 0 then 0 else Position(s) - 1
  {
    assert Print(s, []) == s;
    assert [BACKSPACE][..0] == [];
  }

  /** A newline goes to the start of the next row, which is a new blank one at the bottom of the screen. */
  lemma NewlineGoesOn(s: Screen)
    requires s.Ok()
    ensures var r := Print(s, [10]);
            && r.col == 0
            && if s.row < 24 then r.row == s.row + 1 && r.rows == s.rows
               else r.row == 24 && r.rows == s.rows[1..] + [BlankRow()]
  {
    assert Print(s, []) == s;
    assert [NEWLINE][..0] == [];
  }

  /** So a character and a backspace leave the cursor where it was, with the character under it, unless
      the screen scrolled. */
  lemma BackspaceReturns(s: Screen, c: byte)
    requires s.Ok() && c != 10 && c != 8 && Position(s) < 1999
    ensures var r := Print(s, [c, 8]);
            && r.row == s.row && r.col == s.col
            && r.rows == s.rows[s.row := s.rows[s.row][s.col := Cell(c, 0x6F)]]
  {
    assert [c, BACKSPACE][..1] == [c] && [c][..0] == [];
    assert Print(s, []) == s;
    assert Print(s, [c]) == PrintChar(s, c);
  }

  // ----- The transcript -----

  /** Cells as print and print_colored write them. */
  function PutAll(s: Screen, cells: seq<Cell>): (r: Screen)
    requires s.Ok()
    ensures r.Ok()
    decreases |cells|
  {
    if cells == [] then s else Put(PutAll(s, cells[..|cells| - 1]), cells[|cells| - 1])
  }

  function Coloured(msg: seq<byte>, attr: byte): (r: seq<Cell>)
    ensures |r| == |msg|
  {
    if msg == [] then [] else Coloured(msg[..|msg| - 1], attr) + [Cell(msg[|msg| - 1], attr)]
  }

  lemma {:induction false} PrintPutsBrown(s: Screen, msg: seq<byte>)
    requires s.Ok() && BACKSPACE !in msg
    ensures Print(s, msg) == PutAll(s, Coloured(msg, BROWN))
    decreases |msg|
  {
    if msg != [] {
      var init := msg[..|msg| - 1];
      PrintPutsBrown(s, init);
      var cells := Coloured(msg, BROWN);
      assert cells[..|cells| - 1] == Coloured(init, BROWN);
      assert msg[|msg| - 1] in msg;
    }
  }

  /** The text as lines: a newline ends one, and so does the 80th character. The last line is the one
      still being written. */
  function Lines(cells: seq<Cell>): (lines: seq<seq<Cell>>)
    ensures |lines| > 0 && (forall i :: 0 <= i < |lines| ==> |lines[i]| <= 80) && |lines[|lines| - 1]| < 80
    decreases |cells|
  {
    if cells == [] then [[]] else
    Extended(Lines(cells[..|cells| - 1]), cells[|cells| - 1])
  }

  /** A line on the screen: the rest of the row is blank. */
  function Padded(line: seq<Cell>): (r: Row)
    requires |line| <= 80
    ensures |r| == 80
  {
    line + BlankRow()[|line|..]
  }

  /** The first line that is still visible. */
  function TopLine(n: nat): nat {
    if n <= 25 then 0 else n - 25
  }

  /** The screen shows the last 25 lines of the transcript, or all of them and blank rows below, and
      the cursor stands at the end of the last line. */
  ghost predicate Shows(s: Screen, lines: seq<seq<Cell>>) {
    var n := |lines|;
    var top := TopLine(n);
    && s.Ok() && n > 0
    && s.row == n - 1 - top
    && s.col == |lines[n - 1]|
    && forall r :: 0 <= r < 25 ==> s.rows[r] == RowOf(lines, top + r)
  }

  ghost function RowOf(lines: seq<seq<Cell>>, i: nat): Row {
    if i < |lines| && |lines[i]| <= 80 then Padded(lines[i]) else BlankRow()
  }

  lemma ClearedShowsNothing()
    ensures Shows(Cleared(), Lines([]))
  {
    EmptyLineIsBlank();
  }

  lemma EmptyLineIsBlank()
    ensures Padded([]) == BlankRow()
  {
  }

  /** A new, empty line: the cursor moves down, or everything moves up. */
  lemma NewLineShows(rows: seq<Row>, row: nat, lines: seq<seq<Cell>>)
    requires lines != [] && |rows| == 25 && row == |lines| - 1 - TopLine(|lines|)
    requires forall r :: 0 <= r < 25 ==> |rows[r]| == 80 && rows[r] == RowOf(lines, TopLine(|lines|) + r)
    ensures Shows(Scrolled(Screen(rows, row + 1, 0)), lines + [[]])
  {
    hide Padded;
    var more := lines + [[]];
    var s := Scrolled(Screen(rows, row + 1, 0));
    EmptyLineIsBlank();
    forall r | 0 <= r < 25
      ensures s.rows[r] == RowOf(more, TopLine(|more|) + r)
    {
      if |lines| < 25 {
        assert RowOf(more, r) == RowOf(lines, r);
      } else if r < 24 {
        assert s.rows[r] == rows[r + 1];
        assert RowOf(more, TopLine(|more|) + r) == RowOf(lines, TopLine(|lines|) + (r + 1));
      }
    }
  }

  lemma AppendedRow(line: seq<Cell>, c: Cell)
    requires |line| < 80
    ensures Padded(line)[|line| := c] == Padded(line + [c])
  {
  }

  lemma PutShows(s: Screen, lines: seq<seq<Cell>>, c: Cell)
    requires Shows(s, lines) && c.ch != NEWLINE && forall i :: 0 <= i < |lines| ==> |lines[i]| <= 80
    ensures var last := |lines| - 1;
            var lines' := lines[last := lines[last] + [c]];
            Shows(Put(s, c), if s.col + 1 == 80 then lines' + [[]] else lines')
  {
    hide Padded, Scrolled;
    var last, top := |lines| - 1, TopLine(|lines|);
    var line := lines[last];
    var lines' := lines[last := line + [c]];
    var rows := s.rows[s.row := s.rows[s.row][s.col := c]];
    AppendedRow(line, c);
    assert s.rows[s.row] == RowOf(lines, top + s.row) == Padded(line);
    forall r | 0 <= r < 25
      ensures |rows[r]| == 80 && rows[r] == RowOf(lines', top + r)
    {
      if r != s.row {
        assert top + r != last;
      }
    }
    if s.col + 1 == 80 {
      NewLineShows(rows, s.row, lines');
    }
  }

  /** Whatever print and print_colored wrote since the screen was cleared, it shows the last 25 lines
      of the transcript. */
  lemma {:induction false} ScreenIsWindow(cells: seq<Cell>)
    ensures Shows(PutAll(Cleared(), cells), Lines(cells))
    decreases |cells|
  {
    hide Shows, Put, Cleared;
    if cells == [] {
      ClearedShowsNothing();
    } else {
      var k := |cells| - 1;
      var init, c := cells[..k], cells[k];
      ScreenIsWindow(init);
      CellShows(PutAll(Cleared(), init), Lines(init), c);
    }
  }

  /** The lines with one more cell. */
  function Extended(lines: seq<seq<Cell>>, c: Cell): seq<seq<Cell>>
    requires lines != []
  {
    if c.ch == NEWLINE then lines + [[]] else
    var last := |lines| - 1;
    var lines' := lines[last := lines[last] + [c]];
    if |lines'[last]| == 80 then lines' + [[]] else lines'
  }

  lemma CellShows(s: Screen, lines: seq<seq<Cell>>, c: Cell)
    requires Shows(s, lines) && forall i :: 0 <= i < |lines| ==> |lines[i]| <= 80
    ensures Shows(Put(s, c), Extended(lines, c))
  {
    hide RowOf, Scrolled;
    if c.ch == NEWLINE {
      NewLineShows(s.rows, s.row, lines);
    } else {
      PutShows(s, lines, c);
    }
  }

  datatype Call = PrintCall(msg: seq<byte>) | ColouredCall(msg: seq<byte>, attr: byte)
  {
    /** print with a backspace moves the cursor back over the transcript; print_colored draws it. */
    predicate Forward() { PrintCall? ==> BACKSPACE !in msg }
    function Cells(): seq<Cell> { if PrintCall? then Coloured(msg, BROWN) else Coloured(msg, attr) }
  }

  /** print_colored */
  function PrintColoured(s: Screen, msg: seq<byte>, attr: byte): (r: Screen)
    requires s.Ok()
    ensures r.Ok()
  {
    PutAll(s, Coloured(msg, attr))
  }

  function Perform(s: Screen, calls: seq<Call>): (r: Screen)
    requires s.Ok()
    ensures r.Ok()
    decreases |calls|
  {
    if calls == [] then s else
    var s' := Perform(s, calls[..|calls| - 1]);
    match calls[|calls| - 1]
    case PrintCall(msg) => Print(s', msg)
    case ColouredCall(msg, attr) => PrintColoured(s', msg, attr)
  }

  function Transcript(calls: seq<Call>): seq<Cell>
    decreases |calls|
  {
    if calls == [] then [] else Transcript(calls[..|calls| - 1]) + calls[|calls| - 1].Cells()
  }

  lemma {:induction false} PutAllConcat(s: Screen, a: seq<Cell>, b: seq<Cell>)
    requires s.Ok()
    ensures PutAll(s, a + b) == PutAll(PutAll(s, a), b)
    decreases |b|
  {
    if b == [] {
      assert a + b == a;
    } else {
      var k := |b| - 1;
      assert (a + b)[..|a| + k] == a + b[..k];
      PutAllConcat(s, a, b[..k]);
    }
  }

  lemma {:induction false} PerformPutsTranscript(s: Screen, calls: seq<Call>)
    requires s.Ok() && forall i :: 0 <= i < |calls| ==> calls[i].Forward()
    ensures Perform(s, calls) == PutAll(s, Transcript(calls))
    decreases |calls|
  {
    if calls != [] {
      var init, last := calls[..|calls| - 1], calls[|calls| - 1];
      PerformPutsTranscript(s, init);
      PutAllConcat(s, Transcript(init), last.Cells());
      if last.PrintCall? {
        PrintPutsBrown(Perform(s, init), last.msg);
      }
    }
  }

  /** After any calls of print, without backspaces, and print_colored on a cleared screen, the cells
      are the current 25-row window of the wrapped transcript of everything printed. */
  lemma CallsShowTranscript(calls: seq<Call>)
    requires forall i :: 0 <= i < |calls| ==> calls[i].Forward()
    ensures Shows(Perform(Cleared(), calls), Lines(Transcript(calls)))
  {
    PerformPutsTranscript(Cleared(), calls);
    ScreenIsWindow(Transcript(calls));
  }
}
