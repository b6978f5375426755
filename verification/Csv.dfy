/** The CSV output and a reader that follows section 2 of RFC 4180, with a single line feed as record end. */
module Csv {
  import opened Wrappers
  import opened Text

  predicate NeedsQuotes(s: string) {
    ',' in s || '"' in s || '\n' in s
  }

  function Field(s: string): string {
    if NeedsQuotes(s) then "\"" + EscapeQuotes(s) + "\"" else s
  }

  function Fields(cells: seq<string>): (r: seq<string>)
    ensures |r| == |cells|
  {
    if cells == [] then [] else [Field(cells[0])] + Fields(cells[1..])
  }

  /** The texts of a row in a table with `n` columns; a missing value is empty. */
  function RowTexts(row: seq<string>, n: nat): seq<string> {
    Filled(row, n, "")
  }

  function DataText(rows: seq<seq<string>>, n: nat): string {
    if rows == [] then "" else Join(Fields(RowTexts(rows[0], n)), ",") + "\n" + DataText(rows[1..], n)
  }

  /** The whole output: column names are joined as they are. */
  function Document(columns: seq<string>, rows: seq<seq<string>>): string {
    if rows == [] then "" else Join(columns, ",") + "\n" + DataText(rows, |columns|)
  }

  // ---------------------------------------------------------------------------------------------
  // The reader
  // ---------------------------------------------------------------------------------------------

  datatype Mode = FieldStart | Plain | Quoted | QuoteSeen

  type Records = Option<seq<seq<string>>>

  function Prepend(record: seq<string>, rest: Records): Records {
    if rest.None? then None else Some([record] + rest.value)
  }

  function ReadFrom(s: string, mode: Mode, field: string, record: seq<string>): Records
    decreases |s|
  {
    if s == "" then
      if mode.Quoted? then None
      else if mode.FieldStart? && record == [] then Some([])
      else Some([record + [field]])
    else
      var c, rest := s[0], s[1..];
      if mode.Quoted? then
        if c == '"' then ReadFrom(rest, QuoteSeen, field, record)
        else ReadFrom(rest, Quoted, field + [c], record)
      else if c == ',' then ReadFrom(rest, FieldStart, "", record + [field])
      else if c == '\n' then Prepend(record + [field], ReadFrom(rest, FieldStart, "", []))
      else if c == '"' then
        match mode
        case FieldStart => ReadFrom(rest, Quoted, "", record)
        case QuoteSeen => ReadFrom(rest, Quoted, field + "\"", record)
        case _ => None
      else if mode.QuoteSeen? then None
      else ReadFrom(rest, Plain, field + [c], record)
  }

  function Read(s: string): Records {
    ReadFrom(s, FieldStart, "", [])
  }

  // ---------------------------------------------------------------------------------------------
  // One field
  // ---------------------------------------------------------------------------------------------

  lemma QuotedQuote(e: string, field: string, record: seq<string>)
    ensures ReadFrom("\"\"" + e, Quoted, field, record) == ReadFrom(e, Quoted, field + "\"", record)
  {
    var s := "\"\"" + e;
    assert s[0] == '"' && s[1..][0] == '"' && s[1..][1..] == e;
  }

  lemma QuotedChar(c: char, e: string, field: string, record: seq<string>)
    requires c != '"'
    ensures ReadFrom([c] + e, Quoted, field, record) == ReadFrom(e, Quoted, field + [c], record)
  {
    assert ([c] + e)[1..] == e;
  }

  lemma QuotedStep(s: string, tail: string, field: string, record: seq<string>)
    requires s != ""
    ensures ReadFrom(EscapeQuotes(s) + tail, Quoted, field, record)
            == ReadFrom(EscapeQuotes(s[1..]) + tail, Quoted, field + [s[0]], record)
  {
    EscapeQuotesCons(s, tail);
    if s[0] == '"' {
      QuotedQuote(EscapeQuotes(s[1..]) + tail, field, record);
    } else {
      QuotedChar(s[0], EscapeQuotes(s[1..]) + tail, field, record);
    }
  }

  lemma {:induction false} ReadQuoted(s: string, tail: string, field: string, record: seq<string>)
    ensures ReadFrom(EscapeQuotes(s) + tail, Quoted, field, record) == ReadFrom(tail, Quoted, field + s, record)
    decreases |s|
  {
    if s == "" {
      assert EscapeQuotes(s) + tail == tail && field + s == field;
    } else {
      assert field + [s[0]] + s[1..] == field + s;
      QuotedStep(s, tail, field, record);
      ReadQuoted(s[1..], tail, field + [s[0]], record);
    }
  }

  lemma {:induction false} ReadPlain(s: string, tail: string, mode: Mode, field: string, record: seq<string>)
    requires !NeedsQuotes(s) && (mode.FieldStart? || mode.Plain?)
    requires tail != "" && (tail[0] == ',' || tail[0] == '\n')
    ensures ReadFrom(s + tail, mode, field, record) == ReadFrom(tail, Plain, field + s, record)
    decreases |s|
  {
    if s == "" {
      assert s + tail == tail && field + s == field;
    } else {
      assert (s + tail)[0] == s[0] && (s + tail)[1..] == s[1..] + tail;
      assert s[0] in s && forall c :: c in s[1..] ==> c in s;
      ReadPlain(s[1..], tail, Plain, field + [s[0]], record);
      assert field + [s[0]] + s[1..] == field + s;
    }
  }

  lemma AfterQuote(tail: string, field: string, record: seq<string>)
    requires tail != "" && (tail[0] == ',' || tail[0] == '\n')
    ensures ReadFrom("\"" + tail, Quoted, field, record) == ReadFrom(tail, Plain, field, record)
  {
    assert ("\"" + tail)[1..] == tail;
  }

  /** Reading the printed form of a field gives the field, up to the separator that follows. */
  lemma ReadField(s: string, tail: string, record: seq<string>)
    requires tail != "" && (tail[0] == ',' || tail[0] == '\n')
    ensures ReadFrom(Field(s) + tail, FieldStart, "", record) == ReadFrom(tail, Plain, s, record)
  {
    assert "" + s == s;
    if NeedsQuotes(s) {
      var closing := "\"" + tail;
      var text := Field(s) + tail;
      assert text[0] == '"' && text[1..] == EscapeQuotes(s) + closing by {
        Regroup("\"" + EscapeQuotes(s), "\"", tail);
        Regroup("\"", EscapeQuotes(s), closing);
      }
      ReadQuoted(s, closing, "", record);
      AfterQuote(tail, s, record);
    } else {
      ReadPlain(s, tail, FieldStart, "", record);
    }
  }

  // ---------------------------------------------------------------------------------------------
  // Records and documents
  // ---------------------------------------------------------------------------------------------

  lemma AtComma(rest: string, field: string, record: seq<string>)
    ensures ReadFrom("," + rest, Plain, field, record) == ReadFrom(rest, FieldStart, "", record + [field])
  {
    assert ("," + rest)[1..] == rest;
  }

  lemma AtLineEnd(rest: string, field: string, record: seq<string>)
    ensures ReadFrom("\n" + rest, Plain, field, record) == Prepend(record + [field], Read(rest))
  {
    assert ("\n" + rest)[1..] == rest;
  }

  lemma {:induction false} ReadRecord(cells: seq<string>, rest: string, record: seq<string>)
    requires cells != []
    ensures ReadFrom(Join(Fields(cells), ",") + ("\n" + rest), FieldStart, "", record)
            == Prepend(record + cells, Read(rest))
    decreases |cells|
  {
    var fields, end := Fields(cells), "\n" + rest;
    if |cells| == 1 {
      ReadField(cells[0], end, record);
      AtLineEnd(rest, cells[0], record);
      assert [cells[0]] == cells;
    } else {
      var more := Join(fields[1..], ",");
      assert fields[1..] == Fields(cells[1..]);
      var tail := "," + (more + end);
      assert Join(fields, ",") + end == Field(cells[0]) + tail by {
        Regroup(Field(cells[0]), ",", more);
        Regroup(Field(cells[0]), "," + more, end);
        Regroup(",", more, end);
      }
      ReadField(cells[0], tail, record);
      AtComma(more + end, cells[0], record);
      ReadRecord(cells[1..], rest, record + [cells[0]]);
      assert record + [cells[0]] + cells[1..] == record + cells;
    }
  }

  /** The record holds the cells of the row, with an empty text for each of the `n` that the row does not have. */
  ghost predicate ShowsCells(record: seq<string>, row: seq<string>, n: nat) {
    |record| == n && forall k :: 0 <= k < n ==> record[k] == if k < |row| then row[k] else ""
  }

  ghost predicate Shows(records: seq<seq<string>>, rows: seq<seq<string>>, n: nat) {
    |records| == |rows| && forall r :: 0 <= r < |rows| ==> ShowsCells(records[r], rows[r], n)
  }

  /** A reader of `text` gets the cells of all rows. */
  ghost predicate ReadsAs(text: string, rows: seq<seq<string>>, n: nat) {
    Read(text).Some? && Shows(Read(text).value, rows, n)
  }

  lemma ShowsMore(record: seq<string>, records: seq<seq<string>>, rows: seq<seq<string>>, n: nat)
    requires rows != [] && ShowsCells(record, rows[0], n) && Shows(records, rows[1..], n)
    ensures Shows([record] + records, rows, n)
  {
    var all := [record] + records;
    forall r | 0 <= r < |rows| ensures ShowsCells(all[r], rows[r], n) {
      assert r > 0 ==> all[r] == records[r - 1] && rows[r] == rows[1..][r - 1];
    }
  }

  /** The data rows of a table with at least one column read back as exactly the texts of its cells. */
  lemma {:induction false} ReadUndoesWrite(rows: seq<seq<string>>, n: nat)
    requires n >= 1
    ensures ReadsAs(DataText(rows, n), rows, n)
  {
    if rows != [] {
      var cells, rest := RowTexts(rows[0], n), DataText(rows[1..], n);
      ReadUndoesWrite(rows[1..], n);
      Regroup(Join(Fields(cells), ","), "\n", rest);
      ReadRecord(cells, rest, []);
      assert [] + cells == cells;
      ShowsMore(cells, Read(rest).value, rows, n);
    }
  }

  /** Hence two tables of the same number of columns with the same output have the same cells. */
  lemma OutputIsUnambiguous(a: seq<seq<string>>, b: seq<seq<string>>, n: nat)
    requires n >= 1 && DataText(a, n) == DataText(b, n)
    ensures |a| == |b|
    ensures forall r, k :: 0 <= r < |a| && 0 <= k < n && k < |a[r]| && k < |b[r]| ==> a[r][k] == b[r][k]
    ensures forall r, k :: 0 <= r < |a| && 0 <= k < n && |b[r]| <= k < |a[r]| ==> a[r][k] == ""
  {
    ReadUndoesWrite(a, n);
    ReadUndoesWrite(b, n);
    var records := Read(DataText(a, n)).value;
    forall r, k | 0 <= r < |a| && 0 <= k < n
      ensures k < |a[r]| && k < |b[r]| ==> a[r][k] == b[r][k]
      ensures |b[r]| <= k < |a[r]| ==> a[r][k] == ""
    {
      assert ShowsCells(records[r], a[r], n) && ShowsCells(records[r], b[r], n);
    }
  }

  /** Without columns every row is an empty line, which reads as one empty field. */
  lemma NoColumnsNoRoundTrip(rows: seq<seq<string>>)
    ensures ReadsAs(DataText(rows, 0), rows, 0) <==> rows == []
  {
    if rows != [] {
      var rest := DataText(rows[1..], 0);
      assert DataText(rows, 0) == "\n" + rest;
      assert ("\n" + rest)[1..] == rest;
      var none: seq<string> := [];
      assert none + [""] == [""];
      assert Read(DataText(rows, 0)) == Prepend([""], Read(rest));
      assert Read(rest).Some? ==> !ShowsCells(([[""]] + Read(rest).value)[0], rows[0], 0);
    }
  }

  /** Quotes are written only where they are needed. */
  lemma FieldIsMinimal(s: string)
    ensures Field(s) == s <==> ',' !in s && '"' !in s && '\n' !in s
  {
    if NeedsQuotes(s) {
      EscapeGrows(s);
    }
  }

  // ---------------------------------------------------------------------------------------------
  // The header
  // ---------------------------------------------------------------------------------------------

  /** What the reader makes of the field it is in, number `k` of its record, is not `name`. */
  predicate ReadsOther(r: Records, k: nat, name: string) {
    r.None? || (r.value != [] && k < |r.value[0]| && r.value[0][k] != name)
  }

  /** Fields and characters once read stay read. */
  lemma {:induction false} ReadOnlyAdds(s: string, mode: Mode, field: string, record: seq<string>)
    requires mode.FieldStart? ==> field == "" && record != []
    ensures var r := ReadFrom(s, mode, field, record);
            r.Some? ==>
              && r.value != [] && |record| < |r.value[0]|
              && r.value[0][..|record|] == record && field <= r.value[0][|record|]
    decreases |s|
  {
    if s != "" {
      var c, rest := s[0], s[1..];
      if mode.Quoted? {
        if c == '"' {
          ReadOnlyAdds(rest, QuoteSeen, field, record);
        } else {
          ReadOnlyAdds(rest, Quoted, field + [c], record);
        }
      } else if c == ',' {
        ReadOnlyAdds(rest, FieldStart, "", record + [field]);
      } else if c == '"' {
        if mode.FieldStart? {
          ReadOnlyAdds(rest, Quoted, "", record);
        } else if mode.QuoteSeen? {
          ReadOnlyAdds(rest, Quoted, field + "\"", record);
        }
      } else if c != '\n' && !mode.QuoteSeen? {
        ReadOnlyAdds(rest, Plain, field + [c], record);
      }
    }
  }

  /** A comma or line feed ends the field; so what was read before it is the whole field. */
  lemma FieldEnds(s: string, mode: Mode, field: string, record: seq<string>)
    requires s != "" && (s[0] == ',' || s[0] == '\n') && !mode.Quoted?
    ensures var r := ReadFrom(s, mode, field, record);
            r.Some? ==> r.value != [] && |record| < |r.value[0]| && r.value[0][|record|] == field
  {
    if s[0] == ',' {
      ReadOnlyAdds(s[1..], FieldStart, "", record + [field]);
    }
  }

  /** A name with a special character that does not begin with a quote is cut short, or refused. */
  lemma {:induction false} PlainNameReadsOther(name: string, tail: string, mode: Mode, field: string,
                                               record: seq<string>)
    requires NeedsQuotes(name) && (mode.Plain? || (mode.FieldStart? && field == "" && name[0] != '"'))
    ensures ReadsOther(ReadFrom(name + tail, mode, field, record), |record|, field + name)
    decreases |name|
  {
    var s, c, rest := name + tail, name[0], name[1..];
    assert s[0] == c && s[1..] == rest + tail;
    if c == ',' || c == '\n' {
      FieldEnds(s, mode, field, record);
    } else if c != '"' {
      PlainNameReadsOther(rest, tail, Plain, field + [c], record);
      assert field + [c] + rest == field + name;
    }
  }

  /**
   Inside a quoted field that began with `s`, after 2k + 1 quotes and nothing else: the field so far is k quotes, so
   it cannot become the name s[..n], which has more.
   */
  lemma {:induction false} QuotesReadOther(s: string, n: nat, k: nat, field: string, record: seq<string>)
    requires 2 * k + 1 <= n < |s| && s[n] != '"' && forall i :: 0 <= i < 2 * k + 1 ==> s[i] == '"'
    requires |field| == k
    ensures ReadsOther(ReadFrom(s[2 * k + 1..], Quoted, field, record), |record|, s[..n])
    decreases n - k
  {
    var at := 2 * k + 1;
    assert s[at..][0] == s[at] && s[at..][1..] == s[at + 1..];
    assert s[..n][k] == '"';
    if s[at] != '"' {
      ReadOnlyAdds(s[at + 1..], Quoted, field + [s[at]], record);
    } else {
      assert s[at + 1..][0] == s[at + 1] && s[at + 1..][1..] == s[at + 2..];
      if s[at + 1] == '"' {
        QuotesReadOther(s, n, k + 1, field + "\"", record);
      } else if s[at + 1] == ',' || s[at + 1] == '\n' {
        FieldEnds(s[at + 1..], QuoteSeen, field, record);
      }
    }
  }

  /** A name that begins with quotes loses some of them. */
  lemma QuotedNameReadsOther(name: string, tail: string, record: seq<string>)
    requires name != "" && name[0] == '"' && tail != "" && tail[0] != '"'
    ensures ReadsOther(ReadFrom(name + tail, FieldStart, "", record), |record|, name)
  {
    var s := name + tail;
    assert s[..|name|] == name && s[|name|] == tail[0];
    QuotesReadOther(s, |name|, 0, "", record);
  }

  /** Such a header is not read as the names it is made of. */
  lemma {:induction false} HeaderReadsOther(columns: seq<string>, rest: string, record: seq<string>, j: nat)
    requires j < |columns| && NeedsQuotes(columns[j]) && forall k :: 0 <= k < j ==> !NeedsQuotes(columns[k])
    ensures ReadsOther(ReadFrom(Join(columns, ",") + ("\n" + rest), FieldStart, "", record), |record| + j, columns[j])
    decreases j
  {
    var more := if |columns| == 1 then "\n" + rest else "," + (Join(columns[1..], ",") + ("\n" + rest));
    assert Join(columns, ",") + ("\n" + rest) == columns[0] + more;
    if j > 0 {
      ReadPlain(columns[0], more, FieldStart, "", record);
      assert "" + columns[0] == columns[0];
      AtComma(Join(columns[1..], ",") + ("\n" + rest), columns[0], record);
      HeaderReadsOther(columns[1..], rest, record + [columns[0]], j - 1);
    } else if columns[0][0] == '"' {
      QuotedNameReadsOther(columns[0], more, record);
    } else {
      PlainNameReadsOther(columns[0], more, FieldStart, "", record);
      assert "" + columns[0] == columns[0];
    }
  }

  /** No name has a comma, a quote or a line feed. */
  predicate PlainNames(columns: seq<string>) {
    forall k :: 0 <= k < |columns| ==> ',' !in columns[k] && '"' !in columns[k] && '\n' !in columns[k]
  }

  /** A reader of `text` gets the column names and then the cells of all rows. */
  ghost predicate ReadsWithHeader(text: string, columns: seq<string>, rows: seq<seq<string>>) {
    var r := Read(text);
    r.Some? && r.value != [] && r.value[0] == columns && Shows(r.value[1..], rows, |columns|)
  }

  lemma {:induction false} FirstSpecial(columns: seq<string>) returns (j: nat)
    requires !PlainNames(columns)
    ensures j < |columns| && NeedsQuotes(columns[j]) && forall k :: 0 <= k < j ==> !NeedsQuotes(columns[k])
  {
    j := 0;
    while !NeedsQuotes(columns[j])
      invariant j < |columns| && forall k :: 0 <= k < j ==> !NeedsQuotes(columns[k])
      decreases |columns| - j
    {
      j := j + 1;
    }
  }

  lemma {:induction false} PlainNamesAreFields(columns: seq<string>)
    requires PlainNames(columns)
    ensures Fields(columns) == columns
  {
    if columns != [] {
      PlainNamesAreFields(columns[1..]);
    }
  }

  lemma PlainHeaderReadsBack(columns: seq<string>, rows: seq<seq<string>>)
    requires columns != [] && rows != [] && PlainNames(columns)
    ensures ReadsWithHeader(Document(columns, rows), columns, rows)
  {
    var rest := DataText(rows, |columns|);
    PlainNamesAreFields(columns);
    Regroup(Join(columns, ","), "\n", rest);
    ReadRecord(columns, rest, []);
    ReadUndoesWrite(rows, |columns|);
    assert [] + columns == columns;
    assert ([columns] + Read(rest).value)[1..] == Read(rest).value;
  }

  lemma SpecialHeaderReadsOther(columns: seq<string>, rows: seq<seq<string>>)
    requires rows != [] && !PlainNames(columns)
    ensures !ReadsWithHeader(Document(columns, rows), columns, rows)
  {
    var j := FirstSpecial(columns);
    Regroup(Join(columns, ","), "\n", DataText(rows, |columns|));
    HeaderReadsOther(columns, DataText(rows, |columns|), [], j);
  }

  /** The whole output reads back, header included, if and only if it has columns and rows and every name is plain. */
  lemma DocumentReadsBack(columns: seq<string>, rows: seq<seq<string>>)
    ensures ReadsWithHeader(Document(columns, rows), columns, rows)
            <==> columns != [] && rows != [] && PlainNames(columns)
  {
    if rows == [] {
      assert Read(Document(columns, rows)) == Some([]);
    } else if columns == [] {
      var s := Document(columns, rows);
      assert s[0] == '\n';
      FieldEnds(s, FieldStart, "", []);
    } else if PlainNames(columns) {
      PlainHeaderReadsBack(columns, rows);
    } else {
      SpecialHeaderReadsOther(columns, rows);
    }
  }

  /** After the header line comes text that reads as the cells. */
  ghost predicate HasDataAfter(text: string, header: string, rows: seq<seq<string>>, n: nat) {
    header <= text && ReadsAs(text[|header|..], rows, n)
  }

  /** Without columns each row is an empty line. */
  lemma {:induction false} BlankLines(rows: seq<seq<string>>)
    ensures DataText(rows, 0) == Repeat('\n', |rows|)
  {
    if rows != [] {
      BlankLines(rows[1..]);
      assert DataText(rows, 0) == "\n" + DataText(rows[1..], 0);
    }
  }

  /** The loop that writes the output. */
  method FormatCsv(columns: seq<string>, rows: seq<seq<string>>) returns (output: string)
    ensures output == Document(columns, rows)
    ensures rows == [] ==> output == ""
    ensures rows != [] && columns == [] ==> output == Repeat('\n', |rows| + 1)
    ensures rows != [] && columns != [] ==> HasDataAfter(output, Join(columns, ",") + "\n", rows, |columns|)
    ensures ReadsWithHeader(output, columns, rows) <==> columns != [] && rows != [] && PlainNames(columns)
  {
    DocumentReadsBack(columns, rows);
    BlankLines(rows);
    if rows == [] {
      return "";
    }
    output := Join(columns, ",") + "\n";
    assert rows[0..] == rows;
    for r := 0 to |rows|
      invariant output + DataText(rows[r..], |columns|) == Document(columns, rows)
    {
      assert rows[r..][1..] == rows[r + 1..];
      var record := Join(Fields(RowTexts(rows[r], |columns|)), ",") + "\n";
      Regroup(output, record, DataText(rows[r + 1..], |columns|));
      output := output + record;
    }
    assert output + "" == output;
    if columns != [] {
      ReadUndoesWrite(rows, |columns|);
      var header := Join(columns, ",") + "\n";
      assert output[|header|..] == DataText(rows, |columns|);
    }
  }
}
