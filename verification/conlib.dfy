/** kern/io/conlib.c: a text in a box. The output device is a sequence of
    characters. */
module Conlib {
  import opened Words

  /** cl_repeat. */
  function Repeated(c: char, n: int): (s: string)
    ensures |s| == Max(n, 0) && forall i :: 0 <= i < |s| ==> s[i] == c
  {
    if n <= 0 then "" else seq(n, _ => c)
  }

  /** The text of the next row, at most n characters up to a newline, which is
      eaten, and what is left of the content. */
  function TakeRow(content: string, n: int): (r: (string, string))
    ensures |r.0| <= Max(n, 0) && '\n' !in r.0 && |r.1| <= |content|
    decreases |content|
  {
    if n <= 0 || content == "" then ("", content)
    else if content[0] == '\n' then ("", content[1..])
    else
      var r := TakeRow(content[1..], n - 1);
      ([content[0]] + r.0, r.1)
  }

  /** A row is the start of the content, and it ends where it is full, at a newline
      or with the content. */
  lemma {:induction false} TakeRowIs(content: string, n: int)
    ensures var r := TakeRow(content, n);
            var k := |r.0|;
            var stopped := k < n && k < |content|;
            && k <= |content| && r.0 == content[..k]
            && (stopped ==> content[k] == '\n')
            && r.1 == content[if stopped then k + 1 else k..]
    decreases |content|
  {
    if n > 0 && content != "" && content[0] != '\n' {
      TakeRowIs(content[1..], n - 1);
    }
  }

  /** What is left of the content after k rounds of the outer loop. */
  function LeftAfter(content: string, n: int, k: nat): string {
    if k == 0 then content else TakeRow(LeftAfter(content, n, k - 1), n).1
  }

  lemma Advances(content: string, n: int)
    requires content != ""
    ensures if n > 0 then |TakeRow(content, n).1| < |content| else TakeRow(content, n).1 == content
  {
  }

  lemma {:induction false} LeftLength(content: string, n: int, k: nat)
    ensures n > 0 ==> |LeftAfter(content, n, k)| <= Max(|content| - k, 0)
    ensures n <= 0 ==> LeftAfter(content, n, k) == content
  {
    if k > 0 {
      LeftLength(content, n, k - 1);
      var before := LeftAfter(content, n, k - 1);
      if before != "" {
        Advances(before, n);
      }
    }
  }

  ghost predicate Ends(content: string, n: int) {
    exists k: nat :: LeftAfter(content, n, k) == ""
  }

  /** The outer loop ends exactly when there is room for text or no text. */
  lemma BoxEnds(content: string, width: int)
    ensures Ends(content, width - 4) <==> width > 4 || content == ""
  {
    var n := width - 4;
    if n > 0 {
      LeftLength(content, n, |content|);
      assert LeftAfter(content, n, |content|) == "";
    } else {
      forall k: nat
        ensures LeftAfter(content, n, k) == content
      {
        LeftLength(content, n, k);
      }
      assert LeftAfter(content, n, 0) == content;
    }
  }

  // ---- the box

  function Border(corner: char, edge: char, n: int): string {
    [corner] + Repeated(edge, n + 2) + [corner, '\n']
  }

  function Line(text: string, edge: char, n: int): string {
    [edge, ' '] + text + Repeated(' ', n - |text|) + [' ', edge, '\n']
  }

  /** The texts of the rows. */
  function Rows(content: string, n: int): seq<string>
    requires n > 0 || content == ""
    decreases |content|
  {
    if content == "" then [] else
      Advances(content, n);
      [TakeRow(content, n).0] + Rows(TakeRow(content, n).1, n)
  }

  function Lines(rows: seq<string>, edge: char, n: int): string {
    if rows == [] then "" else Line(rows[0], edge, n) + Lines(rows[1..], edge, n)
  }

  function Box(corner: char, vEdge: char, hEdge: char, width: int, content: string): string
    requires width > 4 || content == ""
  {
    Border(corner, hEdge, width - 4) + Lines(Rows(content, width - 4), vEdge, width - 4)
    + Border(corner, hEdge, width - 4)
  }

  /** A line: an edge and a space on both sides, the text, and spaces behind it. */
  lemma LineParts(text: string, edge: char, n: int)
    requires |text| <= n
    ensures var line := Line(text, edge, n);
            && |line| == n + 5 && line[0] == line[n + 3] == edge && line[1] == line[n + 2] == ' '
            && line[2..2 + |text|] == text && (forall k :: 2 + |text| <= k < n + 2 ==> line[k] == ' ')
            && line[n + 4] == '\n'
  {
  }

  /** A border: the corners, and edges between them. */
  lemma BorderParts(corner: char, edge: char, n: nat)
    ensures var line := Border(corner, edge, n);
            && |line| == n + 5 && line[0] == line[n + 3] == corner && line[n + 4] == '\n'
            && forall k :: 1 <= k < n + 3 ==> line[k] == edge
  {
  }

  /** The text has the line at that position. */
  ghost predicate HasAt(text: string, at: int, line: string) {
    0 <= at <= at + |line| <= |text| && text[at..at + |line|] == line
  }

  /** The k-th row is on the line below the border and k other rows. */
  lemma {:induction false} LineAt(rows: seq<string>, edge: char, n: int, k: nat)
    requires n >= 0 && k < |rows| && forall j :: 0 <= j < |rows| ==> |rows[j]| <= n
    ensures HasAt(Lines(rows, edge, n), k * (n + 5), Line(rows[k], edge, n))
  {
    LinesStart(rows, edge, n);
    hide Line, Lines, HasAt;
    if k > 0 {
      LineAt(rows[1..], edge, n, k - 1);
      Distribute(k - 1, 1, n + 5);
      Behind(Line(rows[0], edge, n), Lines(rows[1..], edge, n), (k - 1) * (n + 5), Line(rows[k], edge, n));
    }
  }

  lemma LinesStart(rows: seq<string>, edge: char, n: int)
    requires rows != [] && |rows[0]| <= n
    ensures var first := Line(rows[0], edge, n);
            && |first| == n + 5 && Lines(rows, edge, n) == first + Lines(rows[1..], edge, n)
            && HasAt(Lines(rows, edge, n), 0, first)
  {
  }

  lemma Behind(first: string, rest: string, at: int, line: string)
    requires HasAt(rest, at, line)
    ensures HasAt(first + rest, |first| + at, line)
  {
    assert (first + rest)[|first| + at..|first| + at + |line|] == rest[at..at + |line|];
  }

  /** Every line of the box is width characters long, up to its newline. */
  lemma BoxWidth(content: string, width: int, corner: char, vEdge: char, hEdge: char)
    requires width > 4
    ensures |Border(corner, hEdge, width - 4)| == width + 1
    ensures var rows := Rows(content, width - 4);
            forall k :: 0 <= k < |rows| ==> |Line(rows[k], vEdge, width - 4)| == width + 1
  {
    RowsFit(content, width - 4);
  }

  lemma {:induction false} RowsFit(content: string, n: int)
    requires n > 0
    ensures forall row | row in Rows(content, n) :: |row| <= n && '\n' !in row
    decreases |content|
  {
    if content != "" {
      Advances(content, n);
      RowsFit(TakeRow(content, n).1, n);
    }
  }

  /** The box: a border, the rows one below the other, and the border again. */
  lemma BoxAt(content: string, width: int, corner: char, vEdge: char, hEdge: char, k: nat, pitch: nat)
    requires width > 4 && k < |Rows(content, width - 4)| && pitch == width + 1
    ensures var box, rows := Box(corner, vEdge, hEdge, width, content), Rows(content, width - 4);
            && HasAt(box, 0, Border(corner, hEdge, width - 4))
            && HasAt(box, pitch + k * pitch, Line(rows[k], vEdge, width - 4))
            && HasAt(box, pitch + |rows| * pitch, Border(corner, hEdge, width - 4))
            && |box| == pitch + |rows| * pitch + pitch
  {
    RowsFit(content, width - 4);
    hide Rows, Lines, Line, Border, HasAt;
    RowsAt(Rows(content, width - 4), corner, vEdge, hEdge, width - 4, k, pitch);
  }

  lemma RowsAt(rows: seq<string>, corner: char, vEdge: char, hEdge: char, n: nat, k: nat, pitch: nat)
    requires k < |rows| && pitch == n + 5 && forall j :: 0 <= j < |rows| ==> |rows[j]| <= n
    ensures var box := Border(corner, hEdge, n) + Lines(rows, vEdge, n) + Border(corner, hEdge, n);
            && HasAt(box, 0, Border(corner, hEdge, n))
            && HasAt(box, pitch + k * pitch, Line(rows[k], vEdge, n))
            && HasAt(box, pitch + |rows| * pitch, Border(corner, hEdge, n))
            && |box| == pitch + |rows| * pitch + pitch
  {
    BorderParts(corner, hEdge, n);
    LinesLength(rows, vEdge, n);
    LineAt(rows, vEdge, n, k);
    hide Lines, Line, Border, HasAt;
    Stacked(Border(corner, hEdge, n), Lines(rows, vEdge, n), k * pitch, Line(rows[k], vEdge, n));
  }

  lemma Stacked(border: string, lines: string, at: int, line: string)
    requires HasAt(lines, at, line)
    ensures HasAt(border + lines + border, 0, border)
    ensures HasAt(border + lines + border, |border| + at, line)
    ensures HasAt(border + lines + border, |border| + |lines|, border)
  {
    BothEnds(border, lines);
    hide HasAt;
    Behind(border, lines, at, line);
    Before(border + lines, border, |border| + at, line);
  }

  lemma Before(text: string, more: string, at: int, line: string)
    requires HasAt(text, at, line)
    ensures HasAt(text + more, at, line)
  {
    assert (text + more)[at..at + |line|] == text[at..at + |line|];
  }

  lemma BothEnds(border: string, lines: string)
    ensures HasAt(border + lines + border, 0, border)
    ensures HasAt(border + lines + border, |border| + |lines|, border)
  {
  }

  lemma {:induction false} LinesLength(rows: seq<string>, edge: char, n: int)
    requires n >= 0 && forall j :: 0 <= j < |rows| ==> |rows[j]| <= n
    ensures |Lines(rows, edge, n)| == |rows| * (n + 5)
  {
    if rows != [] {
      LinesStart(rows, edge, n);
      hide Lines, Line;
      LinesLength(rows[1..], edge, n);
      Distribute(|rows| - 1, 1, n + 5);
    }
  }

  function Joined(rows: seq<string>): string {
    if rows == [] then "" else rows[0] + Joined(rows[1..])
  }

  function WithoutNewlines(s: string): string {
    if s == "" then "" else (if s[0] == '\n' then "" else [s[0]]) + WithoutNewlines(s[1..])
  }

  lemma {:induction false} TakeRowKeeps(content: string, n: int)
    ensures var r := TakeRow(content, n); WithoutNewlines(content) == r.0 + WithoutNewlines(r.1)
    decreases |content|
  {
    if n > 0 && content != "" && content[0] != '\n' {
      TakeRowKeeps(content[1..], n - 1);
    }
  }

  /** The rows hold the content, all of it and in order, but for the newlines. */
  lemma {:induction false} BoxText(content: string, n: int)
    requires n > 0
    ensures Joined(Rows(content, n)) == WithoutNewlines(content)
    decreases |content|
  {
    if content != "" {
      var r := TakeRow(content, n);
      Advances(content, n);
      TakeRowKeeps(content, n);
      BoxText(r.1, n);
    }
  }

  /** cl_repeat. */
  method Repeat(c: char, count: int) returns (out: string)
    ensures out == Repeated(c, count)
  {
    var n := count;
    out := "";
    while n > 0
      invariant out == Repeated(c, Max(count, 0) - Max(n, 0))
    {
      out := out + [c];
      n := n - 1;
    }
  }

  /** One round of the outer loop of cl_box. */
  method PutRow(content: string, edge: char, n: int) returns (out: string, rest: string)
    ensures out == Line(TakeRow(content, n).0, edge, n) && rest == TakeRow(content, n).1
  {
    var left, text := n, "";
    rest := content;
    assert TakeRow(content, n).0 == text + TakeRow(rest, left).0;
    while left > 0 && rest != ""
      invariant left <= n && (n >= 0 ==> left >= 0) && |text| == n - left
      invariant TakeRow(content, n).0 == text + TakeRow(rest, left).0
      invariant TakeRow(content, n).1 == TakeRow(rest, left).1
      decreases |rest|
    {
      if rest[0] == '\n' {
        rest := rest[1..];
        break;
      }
      assert text + TakeRow(rest, left).0 == text + [rest[0]] + TakeRow(rest[1..], left - 1).0;
      text := text + [rest[0]];
      rest := rest[1..];
      left := left - 1;
    }
    var pad := Repeat(' ', left);
    out := [edge, ' '] + text + pad + [' ', edge, '\n'];
  }

  /** cl_box, where it ends. */
  method PutBox(corner: char, vEdge: char, hEdge: char, width: int, content: string) returns (out: string)
    requires width > 4 || content == ""
    ensures out == Box(corner, vEdge, hEdge, width, content)
  {
    var n := width - 4;
    var edge := Repeat(hEdge, n + 2);
    out := [corner] + edge + [corner, '\n'];
    var rest := content;
    ghost var top := out;
    while rest != ""
      invariant n > 0 || rest == ""
      invariant top + Lines(Rows(content, n), vEdge, n) == out + Lines(Rows(rest, n), vEdge, n)
      decreases |rest|
    {
      Advances(rest, n);
      var line, next := PutRow(rest, vEdge, n);
      out := out + line;
      rest := next;
    }
    out := out + [corner] + edge + [corner, '\n'];
  }
}
