/** src/screen.c on the video memory: a grid of cells and a cursor, changed in place. */
module VideoMemory {
  import opened Bytes
  import opened TextScreen

  ghost function RowAt(g: array2<Cell>, r: nat): (row: Row)
    reads g
    requires g.Length1 == 80 && r < g.Length0
    ensures |row| == 80 && forall c :: 0 <= c < 80 ==> row[c] == g[r, c]
  {
    seq(80, c requires 0 <= c < 80 reads g => g[r, c])
  }

  ghost function RowsOf(g: array2<Cell>): (rows: seq<Row>)
    reads g
    requires g.Length0 == 25 && g.Length1 == 80
    ensures |rows| == 25 && forall r :: 0 <= r < 25 ==> rows[r] == RowAt(g, r)
  {
    seq(25, r requires 0 <= r < 25 reads g => RowAt(g, r))
  }

  class Video {
    const cells: array2<Cell>
    var cursorRow: nat
    var cursorCol: nat

    ghost predicate Shaped()
      reads this
    {
      cells.Length0 == 25 && cells.Length1 == 80
    }

    ghost predicate Valid()
      reads this
    {
      Shaped() && cursorRow < 25 && cursorCol < 80
    }

    ghost function View(): (s: Screen)
      reads this, cells
      requires Shaped()
      ensures Valid() ==> s.Ok()
    {
      Screen(RowsOf(cells), cursorRow, cursorCol)
    }

    constructor ()
      ensures Valid() && fresh(cells)
    {
      cells := new Cell[25, 80]((_, _) => BLANK);
      cursorRow, cursorCol := 0, 0;
    }

    /** clear_screen */
    method Clear()
      requires Shaped()
      modifies this`cursorRow, this`cursorCol, cells
      ensures Valid() && View() == Cleared()
    {
      var r: nat := 0;
      while r < 25
        invariant r <= 25
        invariant forall i, j :: 0 <= i < r && 0 <= j < 80 ==> cells[i, j] == BLANK
      {
        ClearRow(r);
        r := r + 1;
      }
      cursorRow, cursorCol := 0, 0;
      assert forall i :: 0 <= i < 25 ==> RowAt(cells, i) == BlankRow();
    }

    method ClearRow(r: nat)
      requires Shaped() && r < 25
      modifies cells
      ensures forall i, j :: 0 <= i < 25 && 0 <= j < 80 ==> cells[i, j] == if i == r then BLANK else old(cells[i, j])
    {
      var c: nat := 0;
      while c < 80
        invariant c <= 80
        invariant forall i, j :: 0 <= i < 25 && 0 <= j < 80 ==>
                    cells[i, j] == if i == r && j < c then BLANK else old(cells[i, j])
      {
        cells[r, c] := BLANK;
        c := c + 1;
      }
    }

    /** Copy a row over the one above it. */
    method LiftRow(row: nat)
      requires Shaped() && 1 <= row < 25
      modifies cells
      ensures forall i, j :: 0 <= i < 25 && 0 <= j < 80 ==>
                cells[i, j] == if i == row - 1 then old(cells[row, j]) else old(cells[i, j])
    {
      var c: nat := 0;
      while c < 80
        invariant c <= 80
        invariant forall i, j :: 0 <= i < 25 && 0 <= j < 80 ==>
                    cells[i, j] == if i == row - 1 && j < c then old(cells[row, j]) else old(cells[i, j])
      {
        cells[row - 1, c] := cells[row, c];
        c := c + 1;
      }
    }

    /** scroll_screen, with the test before it */
    method ScrollIfNeeded()
      requires Shaped() && cursorRow <= 25 && cursorCol < 80
      modifies this`cursorRow, cells
      ensures Valid() && View() == Scrolled(old(View()))
    {
      if cursorRow >= 25 {
        var row: nat := 1;
        while row < 25
          invariant 1 <= row <= 25
          invariant forall i, j :: 0 <= i < 25 && 0 <= j < 80 ==>
                      cells[i, j] == if i < row - 1 then old(cells[i + 1, j]) else old(cells[i, j])
        {
          LiftRow(row);
          row := row + 1;
        }
        ClearRow(24);
        cursorRow := 24;
        assert RowAt(cells, 24) == BlankRow();
        assert forall i :: 0 <= i < 24 ==> RowAt(cells, i) == old(RowAt(cells, i + 1));
        assert RowsOf(cells) == old(RowsOf(cells))[1..] + [BlankRow()];
      }
    }

    /** A newline or a character in a cell, as both print functions do it. */
    method PutCell(c: Cell)
      requires Valid()
      modifies this`cursorRow, this`cursorCol, cells
      ensures Valid() && View() == Put(old(View()), c)
    {
      if c.ch == NEWLINE {
        cursorRow := cursorRow + 1;
        cursorCol := 0;
      } else {
        DrawCell(c);
        cursorCol := cursorCol + 1;
        if cursorCol >= 80 {
          cursorCol := 0;
          cursorRow := cursorRow + 1;
        }
      }
      ScrollIfNeeded();
    }

    method DrawCell(c: Cell)
      requires Valid()
      modifies cells
      ensures RowsOf(cells) == old(RowsOf(cells))[cursorRow := old(RowsOf(cells))[cursorRow][cursorCol := c]]
    {
      cells[cursorRow, cursorCol] := c;
      assert RowAt(cells, cursorRow) == old(RowAt(cells, cursorRow))[cursorCol := c];
      assert forall i :: 0 <= i < 25 && i != cursorRow ==> RowAt(cells, i) == old(RowAt(cells, i));
    }

    /** print */
    method Print(msg: seq<byte>)
      requires Valid()
      modifies this`cursorRow, this`cursorCol, cells
      ensures Valid() && View() == TextScreen.Print(old(View()), msg)
    {
      hide Put;
      ghost var s0 := View();
      var i: nat := 0;
      while i < |msg|
        invariant i <= |msg| && Valid()
        invariant View() == TextScreen.Print(s0, msg[..i])
      {
        assert msg[..i + 1][..i] == msg[..i];
        if msg[i] == BACKSPACE {
          if cursorCol > 0 {
            cursorCol := cursorCol - 1;
          } else if cursorRow > 0 {
            cursorRow := cursorRow - 1;
            cursorCol := 79;
          }
        } else {
          PutCell(Cell(msg[i], BROWN));
        }
        i := i + 1;
      }
      assert msg[..i] == msg;
    }

    /** print_colored */
    method PrintColoured(msg: seq<byte>, attr: byte)
      requires Valid()
      modifies this`cursorRow, this`cursorCol, cells
      ensures Valid() && View() == TextScreen.PrintColoured(old(View()), msg, attr)
    {
      hide Put;
      ghost var s0 := View();
      var i: nat := 0;
      while i < |msg|
        invariant i <= |msg| && Valid()
        invariant View() == PutAll(s0, Coloured(msg[..i], attr))
      {
        assert msg[..i + 1][..i] == msg[..i];
        ghost var cells' := Coloured(msg[..i + 1], attr);
        assert cells'[..i] == Coloured(msg[..i], attr);
        PutCell(Cell(msg[i], attr));
        i := i + 1;
      }
      assert msg[..i] == msg;
    }
  }
}
