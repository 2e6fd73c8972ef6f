/** kern/io/console.c on kern/io/vga.c: the text console over video memory. */
module Console {
  import opened Words
  import opened Canvas

  /** console_t with struct vga_state. */
  class Vga {
    const width: nat
    const height: nat
    const vga: array<Cell>
    var x: nat
    var y: nat
    var colour: U16
    /** The position last sent to the cursor registers. */
    var cursor: U16
    /** Everything shown since the last clear. */
    ghost var roll: Roll

    /** A screen of whole lines, with one line of video memory behind it. */
    ghost predicate Sized() {
      width > 0 && height > 0 && vga.Length == Area() + width
    }

    /** The number of cells on screen. */
    function Area(): nat {
      Lines(height, width)
    }

    ghost predicate Valid()
      reads this, vga
    {
      && Sized() && x < width && y < height
      && Shown() && Whole(roll, width) && roll.pos == LineAt(y) + x
    }

    /** The screen is the end of the roll. */
    ghost predicate Shown()
      reads this, vga
      requires Sized()
    {
      Window(vga[..Area()], roll.cells, width)
    }

    /** The place on the roll of a line on screen. */
    ghost function LineAt(y: nat): int
      reads this
    {
      |roll.cells| - Area() + Lines(y, width)
    }

    /** vga_init, on the given video memory. */
    constructor (width: nat, height: nat, vga: array<Cell>, colour: U16)
      requires width > 0 && height > 0 && vga.Length == Lines(height, width) + width
      modifies vga
      ensures Valid() && this.width == width && this.height == height && this.vga == vga
      ensures roll == Roll(Blanks(Lines(height, width), colour), 0) && this.colour == colour
    {
      this.width, this.height, this.vga, this.colour := width, height, vga, colour;
      this.x, this.y, this.cursor := 0, 0, 0;
      new;
      Clear();
    }

    /** vga_put_xy. */
    method PutXY(x: nat, y: nat, c: char)
      requires Sized() && x < width && y < height
      modifies vga
      ensures Lines(y, width) + x < Area()
      ensures vga[..] == old(vga[..])[Lines(y, width) + x := Entry(c, colour)]
    {
      LinesWithin(y, height, width);
      vga[Lines(y, width) + x] := Entry(c, colour);
    }

    /** console_clear_row. */
    method ClearRow(row: nat)
      requires Sized() && row < height
      modifies vga
      ensures var n := Lines(row, width);
              && n + width <= Area()
              && vga[..] == old(vga[..n]) + Blanks(width, colour) + old(vga[n + width..])
    {
      hide Lines;
      LinesWithin(row, height, width);
      ghost var start := Lines(row, width);
      var x := 0;
      while x < width
        invariant 0 <= x <= width
        invariant vga[..] == old(vga[..start]) + Blanks(x, colour) + old(vga[start + x..])
      {
        PutXY(x, row, ' ');
        assert Blanks(x, colour) + [Entry(' ', colour)] == Blanks(x + 1, colour);
        x := x + 1;
      }
    }

    /** vga_scroll, at the end of the last line: the line behind the screen that
        it copies from is cleared again. */
    method Scroll()
      requires Sized() && y + 1 == height
      modifies vga
      ensures width <= Area() && vga[..Area()] == old(vga[width..Area()]) + Blanks(width, colour)
    {
      hide Lines, Entry, Blanks, Lifted;
      LinesNext(y, width);
      ghost var was := vga[..];
      MoveUp();
      ghost var lifted := vga[..];
      LiftedAll(lifted, was, Lines(y, width));
      ClearRow(y);
      assert vga[..Area()] == lifted[..Lines(y, width)] + Blanks(width, colour);
    }

    /** The loops of vga_scroll. */
    method MoveUp()
      requires Sized()
      modifies vga
      ensures Lifted(vga[..], old(vga[..]), Area())
    {
      hide Lines, Lifted;
      NoLines(width);
      LiftedNone(vga[..]);
      var row := 0;
      while row < height
        invariant 0 <= row <= height && Lifted(vga[..], old(vga[..]), Lines(row, width))
      {
        LinesNext(row, width);
        CopyUp(row, old(vga[..]));
        row := row + 1;
      }
    }

    /** The first n cells have moved up a line. */
    ghost predicate Lifted(now: seq<Cell>, was: seq<Cell>, n: nat) {
      n + width <= |was| && now == was[width..n + width] + was[n..]
    }

    lemma LiftedOne(now: seq<Cell>, was: seq<Cell>, n: nat)
      requires Lifted(now, was, n) && n + width < |was| && width > 0
      ensures |now| == |was| && Lifted(now[n := now[n + width]], was, n + 1)
    {
    }

    lemma LiftedNone(was: seq<Cell>)
      requires width <= |was|
      ensures Lifted(was, was, 0)
    {
    }

    /** With all lines moved up, the first n cells are those behind the first line. */
    lemma LiftedAll(now: seq<Cell>, was: seq<Cell>, n: nat)
      requires Lifted(now, was, n + width)
      ensures |now| == |was| && now[..n] == was[width..n + width]
    {
    }

    lemma NoLines(width: nat)
      ensures Lines(0, width) == 0
    {
    }

    /** The inner loop of vga_scroll. */
    method CopyUp(row: nat, ghost was: seq<Cell>)
      requires Sized() && row < height && |was| == vga.Length && Lifted(vga[..], was, Lines(row, width))
      modifies vga
      ensures Lifted(vga[..], was, Lines(row, width) + width)
    {
      hide Lines, Lifted;
      LinesWithin(row, height, width);
      LinesNext(row, width);
      ghost var n := Lines(row, width);
      var x := 0;
      while x < width
        invariant 0 <= x <= width && Lifted(vga[..], was, n + x)
      {
        LiftedOne(vga[..], was, n + x);
        ghost var now := vga[..];
        vga[Lines(row, width) + x] := vga[Lines(row + 1, width) + x];
        assert vga[..] == now[n + x := now[n + x + width]];
        x := x + 1;
      }
    }

    /** The end of a line: the next one, on a scrolled screen if there is none. */
    method NextLine()
      requires Sized() && y < height && Shown() && roll.pos == LineAt(y) + width
      modifies this`y, this`roll, vga
      ensures y < height && Shown() && Whole(roll, width)
      ensures roll == MovedTo(old(roll.cells), old(roll.pos), width, colour) && roll.pos == LineAt(y)
    {
      hide Lines, Entry, Blanks;
      LinesWithin(y, height, width);
      LinesNext(y, width);
      WindowWhole(vga[..Area()], roll.cells, width);
      hide Window;
      y := y + 1;
      if y >= height {
        y := y - 1;
        WindowNext(vga[..Area()], roll.cells, width, Blanks(width, colour));
        assert vga[width..Area()] == vga[..Area()][width..];
        Scroll();
      } else {
        LinesWithin(y, height, width);
      }
      roll := MovedTo(roll.cells, roll.pos, width, colour);
    }

    /** console_erase: back one character, also over the start of a line. The code
        asserts that there is one on screen. */
    method Erase()
      requires Valid() && (x > 0 || y > 0)
      modifies this`x, this`y, this`roll, vga
      ensures Valid() && roll == Typed(old(roll), BACKSPACE, width, colour)
    {
      hide Lines, Entry, Window;
      LinesWithin(y, height, width);
      ghost var r := roll;
      if x > 0 {
        x := x - 1;
      } else {
        LinesNext(y - 1, width);
        y := y - 1;
        x := width - 1;
      }
      ShowPut(x, y, ' ');
      PutXY(x, y, ' ');
      roll := Typed(r, BACKSPACE, width, colour);
    }

    /** A cell written on screen is written on the roll. */
    lemma ShowPut(x: nat, y: nat, c: char)
      requires Sized() && Shown() && x < width && y < height
      ensures Lines(y, width) + x < Area() <= |roll.cells|
      ensures var e := Entry(c, colour);
              Window(vga[..][Lines(y, width) + x := e][..Area()], roll.cells[LineAt(y) + x := e], width)
    {
      LinesWithin(y, height, width);
      var e := Entry(c, colour);
      WindowPut(vga[..Area()], roll.cells, width, Lines(y, width) + x, e);
      assert vga[..][Lines(y, width) + x := e][..Area()] == vga[..Area()][Lines(y, width) + x := e];
    }

    /** console_putc. The code asserts that a backspace at the top left corner does
        not happen. */
    method PutC(c: char)
      requires Valid() && (c == BACKSPACE ==> x > 0 || y > 0)
      modifies this`x, this`y, this`cursor, this`roll, vga
      ensures Valid() && roll == Typed(old(roll), c, width, colour)
      ensures |roll.cells| >= Area() && vga[..Area()] == roll.cells[|roll.cells| - Area()..]
      ensures cursor == (Lines(y, width) + x) % 0x1_0000
    {
      if c == '\n' {
        Newline();
        SetCursor();
        return;
      } else if c == BACKSPACE {
        Erase();
        SetCursor();
        return;
      } else if c == '\r' {
        Return();
        SetCursor();
        return;
      }
      PutPrintable(c);
      SetCursor();
    }

    /** vga_set_cursor, without the port writes. */
    method SetCursor()
      modifies this`cursor
      ensures cursor == (Lines(y, width) + x) % 0x1_0000
    {
      cursor := (Lines(y, width) + x) % 0x1_0000;
    }

    /** The line that the cursor is on. */
    lemma LineOfCursor()
      requires Valid()
      ensures LineAt(y) >= 0 && LineStart(roll.pos, width) == LineAt(y)
    {
      var q := |roll.cells| / width - height + y;
      Distribute(|roll.cells| / width - height, y, width);
      Distribute(|roll.cells| / width - height, height, width);
      DivUnique(roll.pos, width, q, x);
    }

    /** console_putc on a newline. */
    method Newline()
      requires Valid()
      modifies this`x, this`y, this`roll, vga
      ensures Valid() && roll == Typed(old(roll), '\n', width, colour)
    {
      LineOfCursor();
      hide Lines, Entry, Window;
      x := 0;
      roll := Roll(roll.cells, LineAt(y) + width);
      NextLine();
    }

    /** console_putc on a carriage return. */
    method Return()
      requires Valid()
      modifies this`x, this`roll
      ensures Valid() && roll == Typed(old(roll), '\r', width, colour)
    {
      LineOfCursor();
      hide Lines, Entry, Window;
      x := 0;
      roll := Roll(roll.cells, LineAt(y));
    }

    /** console_putc on a printable character. */
    method PutPrintable(c: char)
      requires Valid() && Printable(c)
      modifies this`x, this`y, this`roll, vga
      ensures Valid() && roll == Typed(old(roll), c, width, colour)
    {
      hide Lines, Entry, Window;
      ShowPut(x, y, c);
      PutXY(x, y, c);
      roll := Roll(roll.cells[roll.pos := Entry(c, colour)], roll.pos + 1);
      x := x + 1;
      if x >= width {
        x := 0;
        NextLine();
      } else {
        LinesWithin(y, height, width);
      }
    }

    /** console_clear. */
    method Clear()
      requires Sized()
      modifies this`x, this`y, this`roll, vga
      ensures Valid() && roll == Roll(Blanks(Area(), colour), 0)
      ensures vga[Area()..] == old(vga[Area()..])
    {
      hide Lines, Entry;
      ClearCells();
      x, y := 0, 0;
      roll := Roll(Blanks(Area(), colour), 0);
      NoLines(width);
      LinesWithin(0, height, width);
      WholeLines(height, width);
    }

    /** The loops of console_clear. */
    method ClearCells()
      requires Sized()
      modifies vga
      ensures vga[..Area()] == Blanks(Area(), colour) && vga[Area()..] == old(vga[Area()..])
    {
      hide Lines, Entry;
      NoLines(width);
      var row := 0;
      while row < height
        invariant 0 <= row <= height && Lines(row, width) <= Area()
        invariant vga[..Lines(row, width)] == Blanks(Lines(row, width), colour)
        invariant vga[Area()..] == old(vga[Area()..])
      {
        LinesNext(row, width);
        LinesWithin(row, height, width);
        ghost var n := Lines(row, width);
        var col := 0;
        while col < width
          invariant 0 <= col <= width && vga[..n + col] == Blanks(n + col, colour)
          invariant vga[Area()..] == old(vga[Area()..])
        {
          PutXY(col, row, ' ');
          assert vga[..n + col + 1] == Blanks(n + col, colour) + [Entry(' ', colour)];
          BlanksNext(n + col, colour);
          col := col + 1;
        }
        row := row + 1;
      }
    }

    /** console_pad. */
    method Pad(n: int)
      requires Valid()
      modifies this`x, this`y, this`cursor, this`roll, vga
      ensures Valid() && roll == TypedAll(old(roll), Spaces(n), width, colour)
    {
      hide Lines, Entry, Window, Typed, Whole;
      var i := 0;
      while i < n
        invariant 0 <= i && (i <= n || n < 0) && Valid()
        invariant TypedAll(old(roll), Spaces(n), width, colour) == TypedAll(roll, Spaces(n - i), width, colour)
      {
        PadStep(roll, n - i, width, colour);
        PutC(' ');
        i := i + 1;
      }
    }
  }
}
