/** What a console shows, without a screen: an endless roll of character cells in
    reading order, of which the screen is the last part. */
module Canvas {
  import opened Words

  type Cell = U16

  const BACKSPACE := 8 as char

  /** vga_entry: the character and its colour side by side. */
  function Entry(c: char, colour: U16): (e: Cell)
    ensures e % 0x100 == c as int % 0x100 && e / 0x100 == colour % 0x100
  {
    c as int % 0x100 + colour % 0x100 * 0x100
  }

  function Blanks(n: nat, colour: U16): (s: seq<Cell>)
    ensures |s| == n && forall i :: 0 <= i < n ==> s[i] == Entry(' ', colour)
  {
    seq(n, _ => Entry(' ', colour))
  }

  /** The number of cells on some lines. */
  function Lines(n: nat, width: nat): (cells: nat) {
    n * width
  }

  lemma LinesNext(n: nat, width: nat)
    ensures Lines(n + 1, width) == Lines(n, width) + width
  {
    Distribute(n, 1, width);
  }

  lemma LinesWithin(n: nat, m: nat, width: nat)
    requires n < m
    ensures Lines(n, width) + width <= Lines(m, width)
  {
    LinesNext(n, width);
    MulMono(n + 1, m, width);
  }

  lemma WholeLines(n: nat, width: nat)
    requires width > 0
    ensures Lines(n, width) % width == 0
  {
    DivUnique(Lines(n, width), width, n, 0);
  }

  lemma BlanksNext(n: nat, colour: U16)
    ensures Blanks(n, colour) + [Entry(' ', colour)] == Blanks(n + 1, colour)
  {
  }

  /** The cells so far and the place of the next character. */
  datatype Roll = Roll(cells: seq<Cell>, pos: nat)

  /** The cells are whole lines, and the cursor is on one of them. */
  ghost predicate Whole(r: Roll, width: nat) {
    width > 0 && |r.cells| % width == 0 && r.pos < |r.cells|
  }

  /** The cursor at pos, on a new blank line if it has left the last one. */
  function MovedTo(cells: seq<Cell>, pos: nat, width: nat, colour: U16): Roll {
    Roll(if pos < |cells| then cells else cells + Blanks(width, colour), pos)
  }

  function LineStart(pos: nat, width: nat): (start: nat)
    requires width > 0
    ensures start <= pos < start + width
  {
    pos - pos % width
  }

  lemma WholeMore(n: nat, width: nat)
    requires width > 0 && n % width == 0
    ensures (n + width) % width == 0 && forall p: nat :: p < n ==> LineStart(p, width) + width <= n
  {
    var q := n / width;
    Distribute(q, 1, width);
    DivUnique(n + width, width, q + 1, 0);
    forall p: nat | p < n
      ensures LineStart(p, width) + width <= n
    {
      var l := p / width;
      if l >= q {
        MulMono(q, l, width);
      }
      MulMono(l + 1, q, width);
      Distribute(l, 1, width);
    }
  }

  /** One character typed: lines stay whole, and at most one is added. */
  function Typed(r: Roll, c: char, width: nat, colour: U16): (t: Roll)
    requires Whole(r, width) && (c == BACKSPACE ==> r.pos > 0)
    ensures Whole(t, width) && (|t.cells| == |r.cells| || |t.cells| == |r.cells| + width)
  {
    WholeMore(|r.cells|, width);
    if c == '\n' then MovedTo(r.cells, LineStart(r.pos, width) + width, width, colour)
    else if c == BACKSPACE then Roll(r.cells[r.pos - 1 := Entry(' ', colour)], r.pos - 1)
    else if c == '\r' then Roll(r.cells, LineStart(r.pos, width))
    else MovedTo(r.cells[r.pos := Entry(c, colour)], r.pos + 1, width, colour)
  }

  /** The screen is the end of the roll. */
  ghost predicate Window(screen: seq<Cell>, cells: seq<Cell>, width: nat) {
    && width > 0 && |cells| % width == 0 && |screen| <= |cells|
    && screen == cells[|cells| - |screen|..]
  }

  /** The window over a roll that has grown. */
  lemma WindowNext(screen: seq<Cell>, cells: seq<Cell>, width: nat, more: seq<Cell>)
    requires Window(screen, cells, width) && |more| == width <= |screen|
    ensures Window(screen[width..] + more, cells + more, width)
  {
    WholeMore(|cells|, width);
  }

  lemma WindowWhole(screen: seq<Cell>, cells: seq<Cell>, width: nat)
    requires Window(screen, cells, width)
    ensures width > 0 && |screen| <= |cells| && |cells| % width == 0 && (|cells| + width) % width == 0
  {
    WholeMore(|cells|, width);
  }

  lemma WindowPut(screen: seq<Cell>, cells: seq<Cell>, width: nat, i: nat, e: Cell)
    requires Window(screen, cells, width) && i < |screen|
    ensures Window(screen[i := e], cells[|cells| - |screen| + i := e], width)
  {
  }

  // ---- texts

  predicate Printable(c: char) {
    c != '\n' && c != '\r' && c != BACKSPACE
  }

  /** A text typed without backspaces. */
  function TypedAll(r: Roll, s: string, width: nat, colour: U16): (t: Roll)
    requires Whole(r, width) && BACKSPACE !in s
    ensures Whole(t, width)
    decreases |s|
  {
    if s == [] then r else
      TypedAll(Typed(r, s[0], width, colour), s[1..], width, colour)
  }

  function Entries(s: string, colour: U16): (e: seq<Cell>)
    ensures |e| == |s| && forall i :: 0 <= i < |s| ==> e[i] == Entry(s[i], colour)
  {
    seq(|s|, i requires 0 <= i < |s| => Entry(s[i], colour))
  }

  lemma PrintableStep(r: Roll, c: char, width: nat, colour: U16)
    requires Whole(r, width) && Printable(c)
    ensures var t := Typed(r, c, width, colour);
            && t.pos == r.pos + 1 && |t.cells| >= |r.cells|
            && t.cells[..|r.cells|] == r.cells[r.pos := Entry(c, colour)]
            && t.cells[..t.pos] == r.cells[..r.pos] + [Entry(c, colour)]
  {
    hide Entry, Blanks, LineStart;
  }

  lemma Regroup(a: seq<Cell>, b: seq<Cell>, c: seq<Cell>)
    ensures a + b + c == a + (b + c)
  {
  }

  lemma EntriesStep(s: string, colour: U16)
    requires s != []
    ensures Entries(s, colour) == [Entry(s[0], colour)] + Entries(s[1..], colour)
  {
  }

  function Spaces(n: int): (s: string)
    ensures BACKSPACE !in s
  {
    if n <= 0 then "" else seq(n, _ => ' ')
  }

  lemma PadStep(r: Roll, n: int, width: nat, colour: U16)
    requires Whole(r, width) && n > 0
    ensures TypedAll(r, Spaces(n), width, colour)
         == TypedAll(Typed(r, ' ', width, colour), Spaces(n - 1), width, colour)
  {
    assert Spaces(n)[1..] == Spaces(n - 1);
  }

  /** Printable text is shown in reading order, whatever the width: it takes the
      cells from the cursor on, one each, and changes none before. */
  lemma {:induction false} PrintableRun(r: Roll, s: string, width: nat, colour: U16)
    requires Whole(r, width) && forall i :: 0 <= i < |s| ==> Printable(s[i])
    ensures BACKSPACE !in s
    ensures var t := TypedAll(r, s, width, colour);
            && t.pos == r.pos + |s|
            && t.cells[..t.pos] == r.cells[..r.pos] + Entries(s, colour)
    decreases |s|
  {
    if s != [] {
      PrintableStep(r, s[0], width, colour);
      EntriesStep(s, colour);
      hide Typed, Entry, Entries;
      var u := Typed(r, s[0], width, colour);
      PrintableRun(u, s[1..], width, colour);
      Regroup(r.cells[..r.pos], [Entry(s[0], colour)], Entries(s[1..], colour));
    } else {
      assert Entries(s, colour) == [];
    }
  }

  /** A backspace takes a printable character back, also over the end of a line:
      the cursor returns, and of the cells only that of the character changes. */
  lemma BackspaceUndoes(r: Roll, c: char, width: nat, colour: U16)
    requires Whole(r, width) && Printable(c)
    ensures var t := Typed(r, c, width, colour);
            var u := Typed(t, BACKSPACE, width, colour);
            && u.pos == r.pos
            && u.cells[..|r.cells|] == r.cells[r.pos := Entry(' ', colour)]
  {
    PrintableStep(r, c, width, colour);
    var t := Typed(r, c, width, colour);
    hide Entry, Blanks, LineStart, MovedTo;
    assert t.cells[r.pos := Entry(' ', colour)][..|r.cells|] == t.cells[..|r.cells|][r.pos := Entry(' ', colour)];
  }

  /** A newline: the cursor goes to the start of the next line, on a blank one if it
      was on the last, and no cell changes. */
  lemma NewlineNext(r: Roll, width: nat, colour: U16)
    requires Whole(r, width)
    ensures var t := Typed(r, '\n', width, colour);
            && t.pos % width == 0 && r.pos < t.pos <= r.pos + width
            && t.cells == r.cells + Blanks(if t.pos < |r.cells| then 0 else width, colour)
  {
    LineStartsAt(r.pos, width);
    WholeMore(|r.cells|, width);
    assert r.cells + Blanks(0, colour) == r.cells;
  }

  /** A carriage return: the cursor goes to the start of its line. */
  lemma ReturnStarts(r: Roll, width: nat, colour: U16)
    requires Whole(r, width)
    ensures var t := Typed(r, '\r', width, colour);
            t.pos % width == 0 && t.pos <= r.pos < t.pos + width && t.cells == r.cells
  {
    LineStartsAt(r.pos, width);
  }

  lemma LineStartsAt(pos: nat, width: nat)
    requires width > 0
    ensures LineStart(pos, width) % width == 0 && (LineStart(pos, width) + width) % width == 0
  {
    var q := pos / width;
    DivUnique(LineStart(pos, width), width, q, 0);
    Distribute(q, 1, width);
    DivUnique(LineStart(pos, width) + width, width, q + 1, 0);
  }

  /** A backspace: one cell back, and that cell blank. */
  lemma BackspaceSteps(r: Roll, width: nat, colour: U16)
    requires Whole(r, width) && r.pos > 0
    ensures Typed(r, BACKSPACE, width, colour) == Roll(r.cells[r.pos - 1 := Entry(' ', colour)], r.pos - 1)
  {
  }

  /** What has left a screen of some size stays as it was. */
  lemma ScrollbackStays(r: Roll, c: char, width: nat, colour: U16, screen: nat)
    requires Whole(r, width) && (c == BACKSPACE ==> r.pos > 0)
    requires screen <= |r.cells| && |r.cells| - screen <= r.pos
    requires c == BACKSPACE ==> |r.cells| - screen < r.pos
    ensures Typed(r, c, width, colour).cells[..|r.cells| - screen] == r.cells[..|r.cells| - screen]
  {
  }
}
