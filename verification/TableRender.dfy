/** Drawing a result table: every drawn line has the same number of characters, whatever text the cells hold. */
module TableRender {
  import opened Text
  import opened TableLayout
  import opened Sums
  import Utf8

  /** Length of a string in bytes, which is what the formatter measures and compares. */
  function ByteLength(s: string): nat {
    |Utf8.Encode(s)|
  }

  function Truncate(value: string, width: nat): string {
    if ByteLength(value) <= width then value
    else if width <= 3 then Take(value, width)
    else Take(value, width - 3) + "..."
  }

  function Take(s: string, n: nat): string {
    if |s| <= n then s else s[..n]
  }

  /** Padding counts characters. */
  function Pad(s: string, width: nat): string {
    if |s| < width then s + Repeat(' ', width - |s|) else s
  }

  function Cell(value: string, width: nat): string {
    Pad(Truncate(value, width), width)
  }

  lemma {:induction false} BytesCoverChars(s: string)
    ensures |s| <= ByteLength(s)
  {
    if s != "" {
      BytesCoverChars(s[1..]);
    }
  }

  /** Truncation compares bytes and keeps characters; the drawn cell still has exactly the width of its column. */
  lemma CellHasColumnWidth(value: string, width: nat)
    ensures |Cell(value, width)| == width
    ensures ByteLength(value) <= width ==> value <= Cell(value, width)
  {
    BytesCoverChars(value);
  }

  /** From place `at` on `s` has only spaces. */
  predicate SpacesFrom(s: string, at: int) {
    forall k :: 0 <= at <= k < |s| ==> s[k] == ' '
  }

  /**
   A value that fits is drawn whole and padded on the right. One that does not shows its first characters, followed
   by three dots unless the column is too narrow for them; only there can characters be left over to pad.
   */
  lemma CellShows(value: string, width: nat)
    ensures var cell := Cell(value, width);
            && (ByteLength(value) <= width ==> value <= cell && SpacesFrom(cell, |value|))
            && (ByteLength(value) > width && width <= 3 ==>
                  if |value| >= width then cell == value[..width] else value <= cell && SpacesFrom(cell, |value|))
            && (ByteLength(value) > width > 3 ==>
                  if |value| >= width - 3 then cell == value[..width - 3] + "..."
                  else value + "..." <= cell && SpacesFrom(cell, |value| + 3))
  {
    BytesCoverChars(value);
  }

  // ---------------------------------------------------------------------------------------------
  // Lines
  // ---------------------------------------------------------------------------------------------

  function RowFrom(cells: seq<string>, widths: seq<nat>): string
    requires |cells| == |widths|
  {
    if cells == [] then ""
    else " " + Cell(cells[0], widths[0]) + " │" + RowFrom(cells[1..], widths[1..])
  }

  function RowLine(cells: seq<string>, widths: seq<nat>): string
    requires |cells| == |widths|
  {
    "│" + RowFrom(cells, widths)
  }

  function BorderFrom(widths: seq<nat>, middle: char, right: char): string {
    if widths == [] then ""
    else Repeat('─', widths[0] + 2) + [if |widths| == 1 then right else middle] + BorderFrom(widths[1..], middle, right)
  }

  function BorderLine(widths: seq<nat>, left: char, middle: char, right: char): string {
    [left] + BorderFrom(widths, middle, right)
  }

  lemma {:induction false} RowLength(cells: seq<string>, widths: seq<nat>)
    requires |cells| == |widths|
    ensures |RowFrom(cells, widths)| == Sum(widths) + 3 * |widths|
  {
    if cells != [] {
      CellHasColumnWidth(cells[0], widths[0]);
      RowLength(cells[1..], widths[1..]);
    }
  }

  lemma {:induction false} BorderLength(widths: seq<nat>, middle: char, right: char)
    ensures |BorderFrom(widths, middle, right)| == Sum(widths) + 3 * |widths|
  {
    if widths != [] {
      BorderLength(widths[1..], middle, right);
    }
  }

  /** A missing value is drawn as NULL; values past the last column are not drawn. */
  function RowCells(row: seq<string>, n: nat): seq<string> {
    Filled(row, n, "NULL")
  }

  function RowLines(rows: seq<seq<string>>, widths: seq<nat>): seq<string> {
    if rows == [] then [] else [RowLine(RowCells(rows[0], |widths|), widths)] + RowLines(rows[1..], widths)
  }

  function TableLines(columns: seq<string>, rows: seq<seq<string>>, widths: seq<nat>): seq<string>
    requires |columns| == |widths|
  {
    [BorderLine(widths, '┌', '┬', '┐'), RowLine(columns, widths), BorderLine(widths, '├', '┼', '┤')]
    + RowLines(rows, widths)
    + [BorderLine(widths, '└', '┴', '┘')]
  }

  function LineLength(widths: seq<nat>): nat {
    Sum(widths) + 3 * |widths| + 1
  }

  lemma {:induction false} RowLinesAreEven(rows: seq<seq<string>>, widths: seq<nat>)
    ensures |RowLines(rows, widths)| == |rows|
    ensures forall k :: 0 <= k < |rows| ==> |RowLines(rows, widths)[k]| == LineLength(widths)
  {
    if rows != [] {
      RowLength(RowCells(rows[0], |widths|), widths);
      RowLinesAreEven(rows[1..], widths);
    }
  }

  /** Every line of the table, borders and rows alike. */
  lemma LinesAreEven(columns: seq<string>, rows: seq<seq<string>>, widths: seq<nat>)
    requires |columns| == |widths|
    ensures forall line :: line in TableLines(columns, rows, widths) ==> |line| == LineLength(widths)
  {
    RowLength(columns, widths);
    RowLinesAreEven(rows, widths);
    BorderLength(widths, '┬', '┐');
    BorderLength(widths, '┼', '┤');
    BorderLength(widths, '┴', '┘');
  }

  /** Fitted columns draw no wider than the terminal, as soon as it has room for one character a column. */
  lemma FitsTerminal(before: seq<nat>, after: seq<nat>, terminal: nat)
    requires Fitted(before, Available(|before|, terminal), after) && terminal >= 4 * |before| + 1
    ensures |after| == |before| && LineLength(after) <= terminal
    ensures Sum(Capped(before)) > Available(|before|, terminal) ==> LineLength(after) == terminal
  {
    CappingNarrows(before);
  }

  lemma CappingNarrows(w: seq<nat>)
    ensures Sum(Capped(w)) <= Sum(w)
  {
    SumOrdered(Capped(w), w);
  }

  // ---------------------------------------------------------------------------------------------
  // What stands where
  // ---------------------------------------------------------------------------------------------

  /** Where column `k` begins in a line, after the bar at the left. */
  function Offset(widths: seq<nat>, k: nat): nat
    requires k <= |widths|
  {
    Sum(widths[..k]) + 3 * k
  }

  lemma OffsetTail(widths: seq<nat>, k: nat)
    requires 0 < k <= |widths|
    ensures Offset(widths, k) == widths[0] + 3 + Offset(widths[1..], k - 1)
  {
    assert widths[..k][1..] == widths[1..][..k - 1];
  }

  /** From place `at` on, `s` has `part`. */
  predicate StandsAt(s: string, at: nat, part: string) {
    at + |part| <= |s| && s[at..at + |part|] == part
  }

  lemma StandsFirst(part: string, rest: string)
    ensures StandsAt(part + rest, 0, part)
  {
    assert (part + rest)[0..|part|] == part;
  }

  lemma StandsAfter(a: string, s: string, at: nat, part: string)
    requires StandsAt(s, at, part)
    ensures StandsAt(a + s, |a| + at, part)
  {
    assert (a + s)[|a| + at..|a| + at + |part|] == s[at..at + |part|];
  }

  /** In a row, each cell stands in its column, between a space and a space and a bar. */
  lemma {:induction false} CellStandsAt(cells: seq<string>, widths: seq<nat>, k: nat)
    requires |cells| == |widths| && k < |cells|
    ensures StandsAt(RowFrom(cells, widths), Offset(widths, k), " " + Cell(cells[k], widths[k]) + " │")
  {
    var first := " " + Cell(cells[0], widths[0]) + " │";
    var rest := RowFrom(cells[1..], widths[1..]);
    assert RowFrom(cells, widths) == first + rest;
    if k == 0 {
      StandsFirst(first, rest);
    } else {
      var text := " " + Cell(cells[k], widths[k]) + " │";
      CellStandsAt(cells[1..], widths[1..], k - 1);
      assert StandsAt(rest, Offset(widths[1..], k - 1), text);
      CellHasColumnWidth(cells[0], widths[0]);
      OffsetTail(widths, k);
      StandsAfter(first, rest, Offset(widths[1..], k - 1), text);
    }
  }

  /** In a border, each column is a dash for each character of its cells, and then its corner. */
  lemma {:induction false} CornerStandsAt(widths: seq<nat>, middle: char, right: char, k: nat)
    requires k < |widths|
    ensures StandsAt(BorderFrom(widths, middle, right), Offset(widths, k),
                     Repeat('─', widths[k] + 2) + [if k == |widths| - 1 then right else middle])
  {
    var first := Repeat('─', widths[0] + 2) + [if |widths| == 1 then right else middle];
    var rest := BorderFrom(widths[1..], middle, right);
    assert BorderFrom(widths, middle, right) == first + rest;
    if k == 0 {
      StandsFirst(first, rest);
    } else {
      var text := Repeat('─', widths[k] + 2) + [if k == |widths| - 1 then right else middle];
      CornerStandsAt(widths[1..], middle, right, k - 1);
      assert StandsAt(rest, Offset(widths[1..], k - 1), text);
      OffsetTail(widths, k);
      StandsAfter(first, rest, Offset(widths[1..], k - 1), text);
    }
  }

  /** The line is a row with these texts, each cut and padded to its column. */
  ghost predicate ShowsRow(line: string, texts: seq<string>, widths: seq<nat>) {
    && |texts| == |widths| && |line| == LineLength(widths) && line[0] == '│'
    && forall k :: 0 <= k < |widths| ==> StandsAt(line, 1 + Offset(widths, k), " " + Cell(texts[k], widths[k]) + " │")
  }

  ghost predicate ShowsBorder(line: string, widths: seq<nat>, left: char, middle: char, right: char) {
    && |line| == LineLength(widths) && line[0] == left
    && forall k :: 0 <= k < |widths| ==>
         StandsAt(line, 1 + Offset(widths, k),
                  Repeat('─', widths[k] + 2) + [if k == |widths| - 1 then right else middle])
  }

  lemma CellStandsInLine(cells: seq<string>, widths: seq<nat>, k: nat)
    requires |cells| == |widths| && k < |cells|
    ensures StandsAt(RowLine(cells, widths), 1 + Offset(widths, k), " " + Cell(cells[k], widths[k]) + " │")
  {
    CellStandsAt(cells, widths, k);
    StandsAfter("│", RowFrom(cells, widths), Offset(widths, k), " " + Cell(cells[k], widths[k]) + " │");
  }

  lemma RowLineShows(cells: seq<string>, widths: seq<nat>)
    requires |cells| == |widths|
    ensures ShowsRow(RowLine(cells, widths), cells, widths)
  {
    RowLength(cells, widths);
    forall k | 0 <= k < |widths|
      ensures StandsAt(RowLine(cells, widths), 1 + Offset(widths, k), " " + Cell(cells[k], widths[k]) + " │")
    {
      CellStandsInLine(cells, widths, k);
    }
  }

  lemma BorderLineShows(widths: seq<nat>, left: char, middle: char, right: char)
    ensures ShowsBorder(BorderLine(widths, left, middle, right), widths, left, middle, right)
  {
    BorderLength(widths, middle, right);
    forall k | 0 <= k < |widths|
      ensures StandsAt(BorderLine(widths, left, middle, right), 1 + Offset(widths, k),
                       Repeat('─', widths[k] + 2) + [if k == |widths| - 1 then right else middle])
    {
      CornerStandsAt(widths, middle, right, k);
      StandsAfter([left], BorderFrom(widths, middle, right), Offset(widths, k),
                  Repeat('─', widths[k] + 2) + [if k == |widths| - 1 then right else middle]);
    }
  }

  /** The texts of a row: its values, and NULL for each of the `n` columns it has none for. */
  ghost predicate AreTexts(texts: seq<string>, row: seq<string>, n: nat) {
    |texts| == n && forall k :: 0 <= k < n ==> texts[k] == if k < |row| then row[k] else "NULL"
  }

  ghost predicate ShowsValues(line: string, row: seq<string>, widths: seq<nat>) {
    exists texts :: AreTexts(texts, row, |widths|) && ShowsRow(line, texts, widths)
  }

  /** A table: a border, the column names, a border, each row in its place, a border. */
  ghost predicate ShowsTable(lines: seq<string>, columns: seq<string>, rows: seq<seq<string>>, widths: seq<nat>) {
    && |lines| == |rows| + 4
    && ShowsBorder(lines[0], widths, '┌', '┬', '┐')
    && ShowsRow(lines[1], columns, widths)
    && ShowsBorder(lines[2], widths, '├', '┼', '┤')
    && (forall r :: 0 <= r < |rows| ==> ShowsValues(lines[3 + r], rows[r], widths))
    && ShowsBorder(lines[3 + |rows|], widths, '└', '┴', '┘')
  }

  /** Every name and every value is drawn in its own column and row, and nothing else is. */
  lemma TableShowsAll(columns: seq<string>, rows: seq<seq<string>>, widths: seq<nat>)
    requires |columns| == |widths|
    ensures ShowsTable(TableLines(columns, rows, widths), columns, rows, widths)
  {
    var lines := TableLines(columns, rows, widths);
    BorderLineShows(widths, '┌', '┬', '┐');
    RowLineShows(columns, widths);
    BorderLineShows(widths, '├', '┼', '┤');
    BorderLineShows(widths, '└', '┴', '┘');
    RowLinesAreEven(rows, widths);
    forall r | 0 <= r < |rows| ensures ShowsValues(lines[3 + r], rows[r], widths) {
      RowLineAt(rows, widths, r);
      RowLineShows(RowCells(rows[r], |widths|), widths);
      assert AreTexts(RowCells(rows[r], |widths|), rows[r], |widths|);
    }
  }

  // ---------------------------------------------------------------------------------------------
  // Lines on the screen
  // ---------------------------------------------------------------------------------------------

  function Unlines(lines: seq<string>): string {
    if lines == [] then "" else lines[0] + "\n" + Unlines(lines[1..])
  }

  /** In a text of lines of `length` characters, line feeds counted, `line` is the one with number `r`. */
  predicate IsLine(text: string, length: nat, r: nat, line: string) {
    r * length + length <= |text| && text[r * length..r * length + length] == line + "\n"
  }

  lemma LineAfter(first: string, rest: string, length: nat, r: nat, line: string)
    requires |first| == length && IsLine(rest, length, r, line)
    ensures IsLine(first + rest, length, r + 1, line)
  {
    var at := r * length;
    assert (r + 1) * length == at + length;
    assert (first + rest)[at + length..at + length + length] == rest[at..at + length];
  }

  /** Lines of one length are written one after the other, whatever is in them. */
  lemma {:induction false} LinesFollow(lines: seq<string>, length: nat, r: nat)
    requires forall k :: 0 <= k < |lines| ==> |lines[k]| + 1 == length
    ensures |Unlines(lines)| == |lines| * length
    ensures r < |lines| ==> IsLine(Unlines(lines), length, r, lines[r])
  {
    if lines != [] {
      var first, rest := lines[0] + "\n", Unlines(lines[1..]);
      assert Unlines(lines) == first + rest;
      LinesFollow(lines[1..], length, if r > 0 then r - 1 else 0);
      assert |lines| * length == (|lines| - 1) * length + length;
      if r == 0 {
        assert (first + rest)[0..length] == first;
      } else if r < |lines| {
        LineAfter(first, rest, length, r - 1, lines[1..][r - 1]);
      }
    }
  }

  /** The whole text: one line for each border, for the names and for each row, all of one length. */
  ghost predicate TextShows(text: string, columns: seq<string>, rows: seq<seq<string>>, widths: seq<nat>) {
    var length := Sum(widths) + 3 * |widths| + 2;
    && |text| == (|rows| + 4) * length
    && exists lines :: ShowsTable(lines, columns, rows, widths) && AreLines(text, length, lines)
  }

  ghost predicate AreLines(text: string, length: nat, lines: seq<string>) {
    forall r :: 0 <= r < |lines| ==> IsLine(text, length, r, lines[r])
  }

  lemma AllLinesFollow(lines: seq<string>, length: nat)
    requires forall k :: 0 <= k < |lines| ==> |lines[k]| + 1 == length
    ensures |Unlines(lines)| == |lines| * length && AreLines(Unlines(lines), length, lines)
  {
    LinesFollow(lines, length, 0);
    forall r | 0 <= r < |lines| ensures IsLine(Unlines(lines), length, r, lines[r]) {
      LinesFollow(lines, length, r);
    }
  }

  lemma TextOfLines(text: string, lines: seq<string>, columns: seq<string>, rows: seq<seq<string>>, widths: seq<nat>)
    requires ShowsTable(lines, columns, rows, widths)
    requires var length := LineLength(widths) + 1; |text| == |lines| * length && AreLines(text, length, lines)
    ensures TextShows(text, columns, rows, widths)
  {
    assert |lines| == |rows| + 4 && LineLength(widths) + 1 == Sum(widths) + 3 * |widths| + 2;
  }

  lemma LinesHaveLength(columns: seq<string>, rows: seq<seq<string>>, widths: seq<nat>)
    requires |columns| == |widths|
    ensures var lines := TableLines(columns, rows, widths);
            forall k :: 0 <= k < |lines| ==> |lines[k]| + 1 == LineLength(widths) + 1
  {
    LinesAreEven(columns, rows, widths);
  }

  /** Every name and every value can be found in the text at its own line and column, with line breaks or without. */
  lemma TextShowsAll(columns: seq<string>, rows: seq<seq<string>>, widths: seq<nat>)
    requires |columns| == |widths|
    ensures TextShows(Unlines(TableLines(columns, rows, widths)), columns, rows, widths)
  {
    var lines := TableLines(columns, rows, widths);
    LinesHaveLength(columns, rows, widths);
    AllLinesFollow(lines, LineLength(widths) + 1);
    TableShowsAll(columns, rows, widths);
    TextOfLines(Unlines(lines), lines, columns, rows, widths);
  }

  /** All that the terminal shows up to the last line break has lines of `length` characters. */
  ghost predicate ShownEven(output: string, length: nat) {
    var shown := Split(output, "\n");
    forall k :: 0 <= k < |shown| - 1 ==> |shown[k]| == length
  }

  lemma {:induction false} FindInside(line: string, tail: string)
    requires '\n' in line
    ensures var at := Find(line + tail, "\n"); at.Some? && at.value < |line|
  {
    assert (line + tail)[0] == line[0] && (line + tail)[1..] == line[1..] + tail;
    if line[0] == '\n' {
      assert "\n" <= line + tail;
    } else {
      assert line == [line[0]] + line[1..];
      FindInside(line[1..], tail);
    }
  }

  lemma BrokenLineIsUneven(line: string, rest: string)
    requires '\n' in line
    ensures !ShownEven(line + "\n" + rest, |line|)
  {
    var output := line + "\n" + rest;
    assert output == line + ("\n" + rest);
    FindInside(line, "\n" + rest);
    var shown := Split(output, "\n");
    assert |shown[0]| < |line| && |shown| > 1;
  }

  lemma SplitAfterLine(line: string, rest: string)
    requires '\n' !in line
    ensures Split(line + "\n" + rest, "\n") == [line] + Split(rest, "\n")
  {
    var output := line + "\n" + rest;
    FindAfter(line, "\n", rest);
    assert output[..|line|] == line && output[|line| + 1..] == rest;
  }

  lemma WholeLineIsEven(line: string, rest: string)
    requires '\n' !in line
    ensures ShownEven(line + "\n" + rest, |line|) <==> ShownEven(rest, |line|)
  {
    SplitAfterLine(line, rest);
    var shown, more := Split(line + "\n" + rest, "\n"), Split(rest, "\n");
    assert forall k :: 0 <= k < |more| ==> shown[k + 1] == more[k];
  }

  /** Drawn lines of equal length stay equal on the screen exactly when none of them breaks inside. */
  lemma {:induction false} EvenExactlyWithoutBreaks(lines: seq<string>, length: nat)
    requires forall k :: 0 <= k < |lines| ==> |lines[k]| == length
    ensures ShownEven(Unlines(lines), length) <==> NoneBreaks(lines)
  {
    if lines == [] {
      FindNowhere("", "\n");
    } else if '\n' in lines[0] {
      BrokenLineIsUneven(lines[0], Unlines(lines[1..]));
    } else {
      WholeLineIsEven(lines[0], Unlines(lines[1..]));
      EvenExactlyWithoutBreaks(lines[1..], length);
      NoneBreaksInConcat([lines[0]], lines[1..]);
      assert lines == [lines[0]] + lines[1..];
    }
  }

  /** Lines without breaks are shown as they are, one after the other. */
  lemma {:induction false} LinesAreShown(lines: seq<string>)
    requires NoneBreaks(lines)
    ensures Split(Unlines(lines), "\n") == lines + [""]
  {
    if lines == [] {
      FindNowhere("", "\n");
    } else {
      var line := lines[0];
      SplitAfterLine(line, Unlines(lines[1..]));
      LinesAreShown(lines[1..]);
      assert [line] + (lines[1..] + [""]) == lines + [""];
    }
  }

  ghost predicate NoBreaks(cells: seq<string>, widths: seq<nat>)
    requires |cells| == |widths|
  {
    forall k :: 0 <= k < |cells| ==> '\n' !in Truncate(cells[k], widths[k])
  }

  lemma {:induction false} RowBreaks(cells: seq<string>, widths: seq<nat>)
    requires |cells| == |widths|
    ensures '\n' in RowFrom(cells, widths) <==> !NoBreaks(cells, widths)
  {
    if cells != [] {
      RowBreaks(cells[1..], widths[1..]);
      var first := Truncate(cells[0], widths[0]);
      assert '\n' in Cell(cells[0], widths[0]) <==> '\n' in first;
      assert NoBreaks(cells, widths) <==> '\n' !in first && NoBreaks(cells[1..], widths[1..]) by {
        if '\n' !in first && NoBreaks(cells[1..], widths[1..]) {
          forall k | 0 <= k < |cells| ensures '\n' !in Truncate(cells[k], widths[k]) {
            if k > 0 {
              assert cells[k] == cells[1..][k - 1] && widths[k] == widths[1..][k - 1];
            }
          }
        }
        if NoBreaks(cells, widths) {
          forall k | 0 <= k < |cells| - 1 ensures '\n' !in Truncate(cells[1..][k], widths[1..][k]) {
            assert cells[k + 1] == cells[1..][k] && widths[k + 1] == widths[1..][k];
          }
        }
      }
    }
  }

  lemma {:induction false} BorderHasNoBreak(widths: seq<nat>, middle: char, right: char)
    requires middle != '\n' && right != '\n'
    ensures '\n' !in BorderFrom(widths, middle, right)
  {
    if widths != [] {
      BorderHasNoBreak(widths[1..], middle, right);
    }
  }

  lemma {:induction false} RowLineAt(rows: seq<seq<string>>, widths: seq<nat>, k: nat)
    requires k < |rows|
    ensures |RowLines(rows, widths)| == |rows|
    ensures RowLines(rows, widths)[k] == RowLine(RowCells(rows[k], |widths|), widths)
  {
    if k > 0 {
      RowLineAt(rows[1..], widths, k - 1);
    } else {
      RowLinesAreEven(rows, widths);
    }
  }

  /** No header and no cell of the table, cut to its column, holds a line break. */
  ghost predicate TableHasNoBreaks(columns: seq<string>, rows: seq<seq<string>>, widths: seq<nat>)
    requires |columns| == |widths|
  {
    NoBreaks(columns, widths) && forall k :: 0 <= k < |rows| ==> NoBreaks(RowCells(rows[k], |widths|), widths)
  }

  ghost predicate NoneBreaks(lines: seq<string>) {
    forall k :: 0 <= k < |lines| ==> '\n' !in lines[k]
  }

  lemma NoneBreaksInConcat(a: seq<string>, b: seq<string>)
    ensures NoneBreaks(a + b) <==> NoneBreaks(a) && NoneBreaks(b)
  {
    if NoneBreaks(a + b) {
      forall k | 0 <= k < |a| ensures '\n' !in a[k] {
        assert a[k] == (a + b)[k];
      }
      forall k | 0 <= k < |b| ensures '\n' !in b[k] {
        assert b[k] == (a + b)[|a| + k];
      }
    }
  }

  lemma RowLinesBreak(rows: seq<seq<string>>, widths: seq<nat>)
    ensures NoneBreaks(RowLines(rows, widths)) <==>
            forall k :: 0 <= k < |rows| ==> NoBreaks(RowCells(rows[k], |widths|), widths)
  {
    RowLinesAreEven(rows, widths);
    forall k | 0 <= k < |rows|
      ensures '\n' !in RowLines(rows, widths)[k] <==> NoBreaks(RowCells(rows[k], |widths|), widths)
    {
      RowLineAt(rows, widths, k);
      RowBreaks(RowCells(rows[k], |widths|), widths);
    }
  }

  lemma LinesBreakWithCells(columns: seq<string>, rows: seq<seq<string>>, widths: seq<nat>)
    requires |columns| == |widths|
    ensures NoneBreaks(TableLines(columns, rows, widths)) <==> TableHasNoBreaks(columns, rows, widths)
  {
    var top := [BorderLine(widths, '┌', '┬', '┐'), RowLine(columns, widths), BorderLine(widths, '├', '┼', '┤')];
    var bottom := [BorderLine(widths, '└', '┴', '┘')];
    NoneBreaksInConcat(top + RowLines(rows, widths), bottom);
    NoneBreaksInConcat(top, RowLines(rows, widths));
    RowLinesBreak(rows, widths);
    RowBreaks(columns, widths);
    BorderHasNoBreak(widths, '┬', '┐');
    BorderHasNoBreak(widths, '┼', '┤');
    BorderHasNoBreak(widths, '┴', '┘');
    assert '\n' in top[1] <==> '\n' in RowFrom(columns, widths);
    assert NoneBreaks(bottom);
  }

  /** What reaches the screen is even if and only if no drawn cell holds a line break. */
  lemma ShownTableIsEven(columns: seq<string>, rows: seq<seq<string>>, widths: seq<nat>)
    requires |columns| == |widths|
    ensures ShownEven(Unlines(TableLines(columns, rows, widths)), LineLength(widths))
            <==> TableHasNoBreaks(columns, rows, widths)
  {
    LinesAreEven(columns, rows, widths);
    EvenExactlyWithoutBreaks(TableLines(columns, rows, widths), LineLength(widths));
    LinesBreakWithCells(columns, rows, widths);
  }

  // ---------------------------------------------------------------------------------------------
  // The formatter itself
  // ---------------------------------------------------------------------------------------------

  /** Byte length of the longest text in column `k`, its header included. */
  function NaturalWidth(columns: seq<string>, rows: seq<seq<string>>, k: nat): nat
    requires k < |columns|
  {
    if rows == [] then ByteLength(columns[k])
    else
      var above := NaturalWidth(columns, rows[..|rows| - 1], k);
      var here := ByteLength(RowCells(rows[|rows| - 1], |columns|)[k]);
      if above < here then here else above
  }

  ghost predicate IsNatural(columns: seq<string>, rows: seq<seq<string>>, w: seq<nat>) {
    |w| == |columns| && forall k :: 0 <= k < |w| ==> w[k] == NaturalWidth(columns, rows, k)
  }

  lemma {:induction false} NaturalWidthCoversHeader(columns: seq<string>, rows: seq<seq<string>>, k: nat)
    requires k < |columns|
    ensures ByteLength(columns[k]) <= NaturalWidth(columns, rows, k)
    decreases |rows|
  {
    if rows != [] {
      NaturalWidthCoversHeader(columns, rows[..|rows| - 1], k);
    }
  }

  lemma {:induction false} NaturalWidthCovers(columns: seq<string>, rows: seq<seq<string>>, k: nat, r: nat)
    requires k < |columns| && r < |rows|
    ensures ByteLength(RowCells(rows[r], |columns|)[k]) <= NaturalWidth(columns, rows, k)
    decreases |rows|
  {
    var before := rows[..|rows| - 1];
    if r < |before| {
      NaturalWidthCovers(columns, before, k, r);
    }
  }

  lemma {:induction false} NaturalWidthIsAttained(columns: seq<string>, rows: seq<seq<string>>, k: nat)
    requires k < |columns|
    ensures var w := NaturalWidth(columns, rows, k);
            || w == ByteLength(columns[k])
            || exists r :: 0 <= r < |rows| && w == ByteLength(if k < |rows[r]| then rows[r][k] else "NULL")
    decreases |rows|
  {
    if rows != [] {
      var before, last := rows[..|rows| - 1], |rows| - 1;
      NaturalWidthIsAttained(columns, before, k);
      var w := NaturalWidth(columns, before, k);
      if w != ByteLength(columns[k]) {
        var r :| 0 <= r < |before| && w == ByteLength(if k < |before[r]| then before[r][k] else "NULL");
        assert before[r] == rows[r];
      }
      assert RowCells(rows[last], |columns|)[k] == if k < |rows[last]| then rows[last][k] else "NULL";
    }
  }

  /** No text is wider than its column's natural width, and some text has exactly that width. */
  lemma NaturalWidthIsLargest(columns: seq<string>, rows: seq<seq<string>>, k: nat)
    requires k < |columns|
    ensures var w := NaturalWidth(columns, rows, k);
            && ByteLength(columns[k]) <= w
            && (forall r :: 0 <= r < |rows| ==> ByteLength(if k < |rows[r]| then rows[r][k] else "NULL") <= w)
            && (|| w == ByteLength(columns[k])
                || exists r :: 0 <= r < |rows| && w == ByteLength(if k < |rows[r]| then rows[r][k] else "NULL"))
  {
    NaturalWidthCoversHeader(columns, rows, k);
    NaturalWidthIsAttained(columns, rows, k);
    forall r | 0 <= r < |rows|
      ensures ByteLength(if k < |rows[r]| then rows[r][k] else "NULL") <= NaturalWidth(columns, rows, k)
    {
      NaturalWidthCovers(columns, rows, k, r);
    }
  }

  /** The value is drawn in full, whatever follows it. */
  predicate DrawnInFull(value: string, width: nat) {
    Truncate(value, width) == value && value <= Cell(value, width)
  }

  /** While the natural widths fit, every header and every cell is drawn in full, also in a table without rows. */
  lemma NothingIsCut(columns: seq<string>, rows: seq<seq<string>>, terminal: nat, natural: seq<nat>, w: seq<nat>)
    requires IsNatural(columns, rows, natural) && Fitted(natural, Available(|natural|, terminal), w)
    requires Sum(natural) <= Available(|natural|, terminal)
    ensures |w| == |columns|
    ensures forall k :: 0 <= k < |columns| ==> DrawnInFull(columns[k], w[k])
    ensures forall r, k :: 0 <= r < |rows| && 0 <= k < |columns| ==>
              DrawnInFull(RowCells(rows[r], |columns|)[k], w[k])
  {
    forall k | 0 <= k < |columns| ensures DrawnInFull(columns[k], w[k]) {
      NaturalWidthCoversHeader(columns, rows, k);
      CellHasColumnWidth(columns[k], w[k]);
    }
    forall r, k | 0 <= r < |rows| && 0 <= k < |columns|
      ensures DrawnInFull(RowCells(rows[r], |columns|)[k], w[k])
    {
      NaturalWidthCovers(columns, rows, k, r);
      CellHasColumnWidth(RowCells(rows[r], |columns|)[k], w[k]);
    }
  }

  /** A table drawn in full with a line break in one of its cells does not come out even. */
  lemma BrokenCellShows(columns: seq<string>, rows: seq<seq<string>>, terminal: nat, natural: seq<nat>, w: seq<nat>,
                        r: nat, k: nat)
    requires IsNatural(columns, rows, natural) && Fitted(natural, Available(|natural|, terminal), w)
    requires Sum(natural) <= Available(|natural|, terminal)
    requires r < |rows| && k < |columns| && '\n' in RowCells(rows[r], |columns|)[k]
    ensures |w| == |columns|
    ensures !ShownEven(Unlines(TableLines(columns, rows, w)), LineLength(w))
  {
    NothingIsCut(columns, rows, terminal, natural, w);
    assert DrawnInFull(RowCells(rows[r], |columns|)[k], w[k]);
    assert !NoBreaks(RowCells(rows[r], |columns|), w);
    ShownTableIsEven(columns, rows, w);
  }

  lemma ThreeBytes(a: char, b: char, c: char)
    requires a as int < 0x80 && b as int < 0x80 && c as int < 0x80
    ensures ByteLength([a, b, c]) == 3
  {
    assert [a, b, c][1..] == [b, c] && [b, c][1..] == [c] && [c][1..] == [];
    assert |Utf8.Encode([c])| == 1;
    assert |Utf8.Encode([b, c])| == 2;
  }

  method WidenToRow(w: array<nat>, cells: seq<string>)
    requires w.Length == |cells|
    modifies w
    ensures forall k :: 0 <= k < w.Length ==>
              w[k] == if old(w[k]) < ByteLength(cells[k]) then ByteLength(cells[k]) else old(w[k])
  {
    for k := 0 to w.Length
      invariant forall j :: 0 <= j < k ==>
                  w[j] == if old(w[j]) < ByteLength(cells[j]) then ByteLength(cells[j]) else old(w[j])
      invariant forall j :: k <= j < w.Length ==> w[j] == old(w[j])
    {
      if ByteLength(cells[k]) > w[k] {
        w[k] := ByteLength(cells[k]);
      }
    }
  }

  method MeasureColumns(columns: seq<string>, rows: seq<seq<string>>) returns (w: array<nat>)
    ensures fresh(w) && IsNatural(columns, rows, w[..])
  {
    w := new nat[|columns|](k requires 0 <= k < |columns| => ByteLength(columns[k]));
    for r := 0 to |rows|
      invariant IsNatural(columns, rows[..r], w[..])
    {
      assert rows[..r + 1][..r] == rows[..r];
      WidenToRow(w, RowCells(rows[r], |columns|));
    }
    assert rows[..|rows|] == rows;
  }

  method DrawBorder(widths: seq<nat>, left: char, middle: char, right: char) returns (line: string)
    ensures line == BorderLine(widths, left, middle, right)
  {
    line := [left];
    assert widths[0..] == widths;
    for k := 0 to |widths|
      invariant line + BorderFrom(widths[k..], middle, right) == BorderLine(widths, left, middle, right)
    {
      assert widths[k..][1..] == widths[k + 1..];
      var piece := Repeat('─', widths[k] + 2) + [if k == |widths| - 1 then right else middle];
      Regroup(line, piece, BorderFrom(widths[k + 1..], middle, right));
      line := line + piece;
    }
  }

  method DrawRow(cells: seq<string>, widths: seq<nat>) returns (line: string)
    requires |cells| == |widths|
    ensures line == RowLine(cells, widths)
  {
    line := "│";
    assert widths[0..] == widths && cells[0..] == cells;
    for k := 0 to |widths|
      invariant line + RowFrom(cells[k..], widths[k..]) == RowLine(cells, widths)
    {
      assert widths[k..][1..] == widths[k + 1..] && cells[k..][1..] == cells[k + 1..];
      var piece := " " + Cell(cells[k], widths[k]) + " │";
      Regroup(line, piece, RowFrom(cells[k + 1..], widths[k + 1..]));
      line := line + piece;
    }
  }

  method DrawRows(rows: seq<seq<string>>, widths: seq<nat>) returns (lines: seq<string>)
    ensures lines == RowLines(rows, widths)
  {
    lines := [];
    assert rows[0..] == rows;
    for r := 0 to |rows|
      invariant lines + RowLines(rows[r..], widths) == RowLines(rows, widths)
    {
      assert rows[r..][1..] == rows[r + 1..];
      var line := DrawRow(RowCells(rows[r], |widths|), widths);
      assert lines + ([line] + RowLines(rows[r + 1..], widths)) == lines + [line] + RowLines(rows[r + 1..], widths);
      lines := lines + [line];
    }
  }

  method DrawLines(columns: seq<string>, rows: seq<seq<string>>, widths: seq<nat>) returns (lines: seq<string>)
    requires |columns| == |widths|
    ensures lines == TableLines(columns, rows, widths)
  {
    var top := DrawBorder(widths, '┌', '┬', '┐');
    var header := DrawRow(columns, widths);
    var separator := DrawBorder(widths, '├', '┼', '┤');
    var body := DrawRows(rows, widths);
    var bottom := DrawBorder(widths, '└', '┴', '┘');
    lines := [top, header, separator] + body + [bottom];
  }

  /** Measure, fit, draw: the table as written to the terminal, without the row count and the footer. */
  method DrawTable(columns: seq<string>, rows: seq<seq<string>>, terminal: nat)
    returns (output: string, natural: seq<nat>, widths: seq<nat>)
    ensures IsNatural(columns, rows, natural)
    ensures Fitted(natural, Available(|columns|, terminal), widths) && |widths| == |columns|
    ensures output == Unlines(TableLines(columns, rows, widths))
    ensures TextShows(output, columns, rows, widths)
  {
    var w := MeasureColumns(columns, rows);
    natural := w[..];
    FitWidths(w, terminal);
    widths := w[..];
    var lines := DrawLines(columns, rows, widths);
    TextShowsAll(columns, rows, widths);
    output := Unlines(lines);
  }

  /** One such table, drawn on a terminal of 80 columns. */
  method DrawBrokenTable() returns (output: string, widths: seq<nat>)
    ensures widths == [3] && !ShownEven(output, LineLength(widths))
  {
    var columns, rows := ["abc"], [["x\ny"]];
    var natural;
    output, natural, widths := DrawTable(columns, rows, 80);
    ThreeBytes('a', 'b', 'c');
    ThreeBytes('x', '\n', 'y');
    assert rows[..0] == [] && RowCells(rows[0], 1)[0] == "x\ny";
    assert NaturalWidth(columns, rows, 0) == 3;
    assert natural == [3] && Sum(natural) == 3;
    BrokenCellShows(columns, rows, 80, natural, widths, 0, 0);
  }
}
