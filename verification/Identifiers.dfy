/** Table names on the command line: `table` or `namespace.table`, with double-quoted identifiers. */
module Identifiers {
  import opened Wrappers
  import opened Text

  datatype ParseError =
    | TableNameRequired
    | InvalidIdentifier
    | UnterminatedQuote
    | TooManyParts
    | NamespaceRequired

  datatype TableTarget = TableTarget(namespace: Option<string>, tableName: string)

  datatype QualifiedTableRef = QualifiedTableRef(namespace: string, tableName: string)

  predicate IsSemicolon(c: char) {
    c == ';'
  }

  function TrimSqlTarget(input: string): string {
    Trim(TrimEnd(Trim(input), IsSemicolon))
  }

  /** Scan `s` with `current` collected so far, inside or outside quotes. */
  function SplitFrom(s: string, current: string, inQuotes: bool): Result<seq<string>, ParseError>
    decreases |s|
  {
    if s == "" then
      if inQuotes then Err(UnterminatedQuote)
      else if Trim(current) == "" then Err(InvalidIdentifier)
      else Ok([Trim(current)])
    else if s[0] == '"' then
      if inQuotes && |s| > 1 && s[1] == '"'
      then SplitFrom(s[2..], current + "\"", inQuotes)
      else SplitFrom(s[1..], current, !inQuotes)
    else if s[0] == '.' && !inQuotes then
      if Trim(current) == "" then Err(InvalidIdentifier)
      else
        var rest := SplitFrom(s[1..], "", false);
        if rest.Err? then rest else Ok([Trim(current)] + rest.value)
    else SplitFrom(s[1..], current + [s[0]], inQuotes)
  }

  method SplitIdentifierParts(target: string) returns (r: Result<seq<string>, ParseError>)
    ensures r == SplitFrom(target, "", false)
  {
    var parts: seq<string>, current, inQuotes := [], "", false;
    var i := 0;
    ghost var whole := SplitFrom(target, "", false);
    assert target[0..] == target;
    assert whole.Ok? ==> [] + whole.value == whole.value;
    while i < |target|
      invariant 0 <= i <= |target|
      invariant var rest := SplitFrom(target[i..], current, inQuotes);
                whole == if rest.Err? then rest else Ok(parts + rest.value)
    {
      var ch := target[i];
      assert target[i..][1..] == target[i + 1..];
      if ch == '"' {
        if inQuotes && i + 1 < |target| && target[i + 1] == '"' {
          assert target[i..][2..] == target[i + 2..];
          current := current + "\"";
          i := i + 1;
        } else {
          inQuotes := !inQuotes;
        }
      } else if ch == '.' && !inQuotes {
        var part := Trim(current);
        if part == "" {
          return Err(InvalidIdentifier);
        }
        ghost var rest := SplitFrom(target[i + 1..], "", false);
        assert rest.Ok? ==> parts + ([part] + rest.value) == parts + [part] + rest.value;
        parts := parts + [part];
        current := "";
      } else {
        current := current + [ch];
      }
      i := i + 1;
    }
    if inQuotes {
      return Err(UnterminatedQuote);
    }
    var tail := Trim(current);
    if tail == "" {
      return Err(InvalidIdentifier);
    }
    return Ok(parts + [tail]);
  }

  function TargetOfParts(parts: Result<seq<string>, ParseError>): Result<TableTarget, ParseError> {
    if parts.Err? then Err(parts.error)
    else if |parts.value| == 1 then Ok(TableTarget(None, parts.value[0]))
    else if |parts.value| == 2 then Ok(TableTarget(Some(parts.value[0]), parts.value[1]))
    else Err(TooManyParts)
  }

  function ParseTarget(input: string): Result<TableTarget, ParseError> {
    TargetOfTrimmed(TrimSqlTarget(input))
  }

  function TargetOfTrimmed(trimmed: string): Result<TableTarget, ParseError> {
    if trimmed == "" then Err(TableNameRequired) else TargetOfParts(SplitFrom(trimmed, "", false))
  }

  function Qualify(target: TableTarget, defaultNamespace: string): QualifiedTableRef {
    QualifiedTableRef(if target.namespace.Some? then target.namespace.value else defaultNamespace, target.tableName)
  }

  function ParseQualified(input: string): Result<QualifiedTableRef, ParseError> {
    QualifiedOf(ParseTarget(input))
  }

  function QualifiedOf(target: Result<TableTarget, ParseError>): Result<QualifiedTableRef, ParseError> {
    if target.Err? then Err(target.error)
    else if target.value.namespace.None? then Err(NamespaceRequired)
    else Ok(QualifiedTableRef(target.value.namespace.value, target.value.tableName))
  }

  predicate IsAsciiAlphabetic(c: char) {
    'a' <= c <= 'z' || 'A' <= c <= 'Z'
  }

  predicate IsWordChar(c: char) {
    IsAsciiAlphabetic(c) || '0' <= c <= '9' || c == '_'
  }

  predicate IsSimple(value: string) {
    value != "" && IsAsciiAlphabetic(value[0]) && forall k :: 1 <= k < |value| ==> IsWordChar(value[k])
  }

  function FormatIdent(value: string): string {
    if IsSimple(value) then value else "\"" + EscapeQuotes(value) + "\""
  }

  function ToSql(q: QualifiedTableRef): string {
    FormatIdent(q.namespace) + "." + FormatIdent(q.tableName)
  }

  // ---------------------------------------------------------------------------------------------
  // Reading back what was printed
  // ---------------------------------------------------------------------------------------------

  lemma QuotedChar(c: char, e: string, current: string)
    requires c != '"'
    ensures SplitFrom([c] + e, current, true) == SplitFrom(e, current + [c], true)
  {
    assert ([c] + e)[1..] == e;
  }

  lemma QuotedQuote(e: string, current: string)
    ensures SplitFrom("\"\"" + e, current, true) == SplitFrom(e, current + "\"", true)
  {
    assert ("\"\"" + e)[2..] == e;
  }

  lemma ClosingQuote(rest: string, current: string)
    requires rest == "" || rest[0] != '"'
    ensures SplitFrom("\"" + rest, current, true) == SplitFrom(rest, current, false)
  {
    assert ("\"" + rest)[1..] == rest;
  }

  lemma QuotedStep(value: string, tail: string, current: string)
    requires value != ""
    ensures SplitFrom(EscapeQuotes(value) + tail, current, true)
            == SplitFrom(EscapeQuotes(value[1..]) + tail, current + [value[0]], true)
  {
    EscapeQuotesCons(value, tail);
    if value[0] == '"' {
      QuotedQuote(EscapeQuotes(value[1..]) + tail, current);
    } else {
      QuotedChar(value[0], EscapeQuotes(value[1..]) + tail, current);
    }
  }

  lemma {:induction false} ScanQuoted(value: string, tail: string, current: string)
    ensures SplitFrom(EscapeQuotes(value) + tail, current, true) == SplitFrom(tail, current + value, true)
    decreases |value|
  {
    if value == "" {
      assert EscapeQuotes(value) + tail == tail && current + value == current;
    } else {
      assert current + [value[0]] + value[1..] == current + value;
      QuotedStep(value, tail, current);
      ScanQuoted(value[1..], tail, current + [value[0]]);
    }
  }

  lemma WordStep(value: string, rest: string, current: string)
    requires value != "" && value[0] != '"' && value[0] != '.'
    ensures SplitFrom(value + rest, current, false) == SplitFrom(value[1..] + rest, current + [value[0]], false)
  {
    assert (value + rest)[1..] == value[1..] + rest;
  }

  lemma {:induction false} ScanWord(value: string, rest: string, current: string)
    requires '"' !in value && '.' !in value
    ensures SplitFrom(value + rest, current, false) == SplitFrom(rest, current + value, false)
    decreases |value|
  {
    if value == "" {
      assert value + rest == rest && current + value == current;
    } else {
      WordStep(value, rest, current);
      assert current + [value[0]] + value[1..] == current + value;
      ScanWord(value[1..], rest, current + [value[0]]);
    }
  }

  lemma ScanPrinted(value: string, rest: string)
    requires rest == "" || rest[0] == '.'
    ensures SplitFrom(FormatIdent(value) + rest, "", false) == SplitFrom(rest, value, false)
  {
    assert "" + value == value;
    if IsSimple(value) {
      ScanWord(value, rest, "");
    } else {
      var s := FormatIdent(value) + rest;
      var tail := "\"" + rest;
      assert s[0] == '"' && s[1..] == EscapeQuotes(value) + tail by {
        Regroup("\"" + EscapeQuotes(value), "\"", rest);
        Regroup("\"", EscapeQuotes(value), tail);
      }
      ScanQuoted(value, tail, "");
      ClosingQuote(rest, value);
    }
  }

  lemma PrintedEnds(value: string)
    ensures var s := FormatIdent(value);
            s != "" && (s[0] == '"' || IsWordChar(s[0])) && (s[|s| - 1] == '"' || IsWordChar(s[|s| - 1]))
  {
  }

  lemma NothingToTrim(s: string)
    requires s != "" && (s[0] == '"' || IsWordChar(s[0])) && (s[|s| - 1] == '"' || IsWordChar(s[|s| - 1]))
    ensures TrimSqlTarget(s) == s
  {
    assert !IsSpace(s[0]) && !IsSpace(s[|s| - 1]) && !IsSemicolon(s[|s| - 1]);
    assert Trim(s) == s by {
      TrimByFixes(s, IsSpace);
    }
    TrimEndFixes(s, IsSemicolon);
  }

  /** Printed names begin and end with a quote or a word character, so trimming leaves them alone. */
  lemma PrintedNeedsNoTrim(q: QualifiedTableRef)
    ensures TrimSqlTarget(ToSql(q)) == ToSql(q) && ToSql(q) != ""
  {
    PrintedEnds(q.namespace);
    PrintedEnds(q.tableName);
    NothingToTrim(ToSql(q));
  }

  function TrimmedParts(first: string, second: string): Result<seq<string>, ParseError> {
    if first == "" || second == "" then Err(InvalidIdentifier) else Ok([first, second])
  }

  lemma DotStep(s: string, current: string)
    requires s != "" && s[0] == '.'
    ensures SplitFrom(s, current, false) ==
            if Trim(current) == "" then Err(InvalidIdentifier)
            else
              var rest := SplitFrom(s[1..], "", false);
              if rest.Err? then rest else Ok([Trim(current)] + rest.value)
  {
  }

  lemma SplitAtDot(rest: string, current: string, tail: Result<seq<string>, ParseError>)
    requires SplitFrom(rest, "", false) == tail
    ensures SplitFrom("." + rest, current, false) ==
            if Trim(current) == "" then Err(InvalidIdentifier)
            else if tail.Err? then tail else Ok([Trim(current)] + tail.value)
  {
    var s := "." + rest;
    assert s[0] == '.' && s[1..] == rest;
    DotStep(s, current);
  }

  lemma SplitAtEnd(current: string)
    ensures SplitFrom("", current, false) == if Trim(current) == "" then Err(InvalidIdentifier) else Ok([Trim(current)])
  {
  }

  lemma SplitTwo(first: string, second: string, namespace: string, tableName: string)
    requires SplitFrom(first + ("." + second), "", false) == SplitFrom("." + second, namespace, false)
    requires SplitFrom(second, "", false) == SplitFrom("", tableName, false)
    ensures SplitFrom(first + ("." + second), "", false) == TrimmedParts(Trim(namespace), Trim(tableName))
  {
    SplitAtEnd(tableName);
    SplitAtDot(second, namespace, SplitFrom("", tableName, false));
    assert [Trim(namespace)] + [Trim(tableName)] == [Trim(namespace), Trim(tableName)];
  }

  lemma ToSqlShape(q: QualifiedTableRef)
    ensures ToSql(q) == FormatIdent(q.namespace) + ("." + FormatIdent(q.tableName))
  {
  }

  lemma SplitPrinted(q: QualifiedTableRef)
    ensures SplitFrom(ToSql(q), "", false) == TrimmedParts(Trim(q.namespace), Trim(q.tableName))
  {
    var first, second := FormatIdent(q.namespace), FormatIdent(q.tableName);
    ToSqlShape(q);
    assert SplitFrom(first + ("." + second), "", false) == SplitFrom("." + second, q.namespace, false) by {
      ScanPrinted(q.namespace, "." + second);
    }
    assert SplitFrom(second, "", false) == SplitFrom("", q.tableName, false) by {
      assert second + "" == second;
      ScanPrinted(q.tableName, "");
    }
    SplitTwo(first, second, q.namespace, q.tableName);
  }

  lemma ParseOfSplit(s: string, first: string, second: string)
    requires s != "" && TrimSqlTarget(s) == s && SplitFrom(s, "", false) == TrimmedParts(first, second)
    ensures ParseQualified(s) ==
            if first == "" || second == "" then Err(InvalidIdentifier) else Ok(QualifiedTableRef(first, second))
  {
    assert ParseTarget(s) == TargetOfParts(TrimmedParts(first, second));
  }

  /** Printing and parsing again trims each name, and fails exactly when a name has nothing else. */
  lemma ParsePrinted(q: QualifiedTableRef)
    ensures ParseQualified(ToSql(q)) ==
            if Trim(q.namespace) == "" || Trim(q.tableName) == "" then Err(InvalidIdentifier)
            else Ok(QualifiedTableRef(Trim(q.namespace), Trim(q.tableName)))
  {
    PrintedNeedsNoTrim(q);
    SplitPrinted(q);
    ParseOfSplit(ToSql(q), Trim(q.namespace), Trim(q.tableName));
  }

  predicate IsName(s: string) {
    s != "" && Trimmed(s, IsSpace)
  }

  /** The round trip is exact for the names a user can type, and for no others. */
  lemma PrintParseRoundTrip(q: QualifiedTableRef)
    ensures ParseQualified(ToSql(q)) == Ok(q) <==> IsName(q.namespace) && IsName(q.tableName)
  {
    ParsePrinted(q);
    NamesAreKept(q.namespace);
    NamesAreKept(q.tableName);
    SamePair(ParseQualified(ToSql(q)), Trim(q.namespace), Trim(q.tableName), q);
  }

  lemma NamesAreKept(s: string)
    ensures Trim(s) != "" && Trim(s) == s <==> IsName(s)
  {
    TrimByFixes(s, IsSpace);
  }

  lemma SamePair(parsed: Result<QualifiedTableRef, ParseError>, first: string, second: string, q: QualifiedTableRef)
    requires parsed ==
             if first == "" || second == "" then Err(InvalidIdentifier) else Ok(QualifiedTableRef(first, second))
    ensures parsed == Ok(q) <==> first != "" && second != "" && first == q.namespace && second == q.tableName
  {
  }

  lemma {:induction false} PartsAreNames(s: string, current: string, inQuotes: bool)
    requires SplitFrom(s, current, inQuotes).Ok?
    ensures var parts := SplitFrom(s, current, inQuotes).value; forall k :: 0 <= k < |parts| ==> IsName(parts[k])
    decreases |s|
  {
    TrimByIsTrimmed(current, IsSpace);
    if s == "" {
    } else if s[0] == '"' {
      if inQuotes && |s| > 1 && s[1] == '"' {
        PartsAreNames(s[2..], current + "\"", inQuotes);
      } else {
        PartsAreNames(s[1..], current, !inQuotes);
      }
    } else if s[0] == '.' && !inQuotes {
      PartsAreNames(s[1..], "", false);
    } else {
      PartsAreNames(s[1..], current + [s[0]], inQuotes);
    }
  }

  lemma NamedParts(parts: Result<seq<string>, ParseError>)
    requires parts.Ok? ==> forall k :: 0 <= k < |parts.value| ==> IsName(parts.value[k])
    ensures var target := TargetOfParts(parts);
            target.Ok? ==>
              && IsName(target.value.tableName)
              && (target.value.namespace.Some? ==> IsName(target.value.namespace.value))
  {
  }

  lemma TargetIsNamed(input: string)
    requires ParseTarget(input).Ok?
    ensures var target := ParseTarget(input).value;
            IsName(target.tableName) && (target.namespace.Some? ==> IsName(target.namespace.value))
  {
    var trimmed := TrimSqlTarget(input);
    PartsAreNames(trimmed, "", false);
    NamedParts(SplitFrom(trimmed, "", false));
  }

  /** Whatever spelling was accepted, printing and parsing again gives the same reference. */
  lemma ParseIsStable(input: string)
    requires ParseQualified(input).Ok?
    ensures ParseQualified(ToSql(ParseQualified(input).value)) == ParseQualified(input)
  {
    TargetIsNamed(input);
    PrintParseRoundTrip(ParseQualified(input).value);
  }

  /** An unqualified target, qualified with a namespace the user could type, survives the trip as well. */
  lemma QualifiedTargetSurvives(input: string, defaultNamespace: string)
    requires ParseTarget(input).Ok? && IsName(defaultNamespace)
    ensures var q := Qualify(ParseTarget(input).value, defaultNamespace); ParseQualified(ToSql(q)) == Ok(q)
  {
    TargetIsNamed(input);
    PrintParseRoundTrip(Qualify(ParseTarget(input).value, defaultNamespace));
  }

  // ---------------------------------------------------------------------------------------------
  // Names as users write them
  // ---------------------------------------------------------------------------------------------

  predicate AllSemicolons(s: string) {
    forall k :: 0 <= k < |s| ==> s[k] == ';'
  }

  /** A target with white space around it and semicolons after it. */
  function Decorated(before: string, target: string, inner: string, semicolons: string, after: string): string {
    before + (target + inner + semicolons) + after
  }

  lemma ThreeTrims(input: string, a: string, b: string, c: string)
    requires Trim(input) == a && TrimEnd(a, IsSemicolon) == b && Trim(b) == c
    ensures TrimSqlTarget(input) == c
  {
  }

  lemma SpacesAreStripped(before: string, target: string, after: string)
    requires AllSpaces(before) && AllSpaces(after)
    requires target != "" && Trimmed(target, IsSpace) && target[|target| - 1] != ';'
    ensures TrimSqlTarget(before + target + after) == target
  {
    TrimByIs(before, target, after, IsSpace);
    TrimEndFixes(target, IsSemicolon);
    TrimByFixes(target, IsSpace);
    ThreeTrims(before + target + after, target, target, target);
  }

  lemma SemicolonsAreStripped(before: string, target: string, inner: string, semicolons: string, after: string)
    requires AllSpaces(before) && AllSpaces(inner) && AllSpaces(after) && AllSemicolons(semicolons) && semicolons != ""
    requires target != "" && Trimmed(target, IsSpace) && target[|target| - 1] != ';'
    ensures TrimSqlTarget(Decorated(before, target, inner, semicolons, after)) == target
  {
    var s := target + inner;
    assert s[0] == target[0];
    OuterSpacesGo(before, s, semicolons, after, target[0]);
    SemicolonsGo(target, inner, semicolons);
    InnerSpacesGo(target, inner);
    ThreeTrims(before + (s + semicolons) + after, s + semicolons, s, target);
  }

  lemma SemicolonsGo(target: string, inner: string, semicolons: string)
    requires target != "" && target[|target| - 1] != ';' && AllSpaces(inner) && AllSemicolons(semicolons)
    ensures TrimEnd((target + inner) + semicolons, IsSemicolon) == target + inner
  {
    EndOfTarget(target, inner);
    TrimEndIs(target + inner, semicolons, IsSemicolon);
  }

  lemma OuterSpacesGo(before: string, s: string, semicolons: string, after: string, first: char)
    requires AllSpaces(before) && AllSpaces(after) && AllSemicolons(semicolons) && semicolons != ""
    requires s != "" && s[0] == first && !IsSpace(first)
    ensures Trim(before + (s + semicolons) + after) == s + semicolons
  {
    var core := s + semicolons;
    assert core[0] == first && core[|core| - 1] == semicolons[|semicolons| - 1];
    TrimByIs(before, core, after, IsSpace);
  }

  lemma InnerSpacesGo(target: string, inner: string)
    requires AllSpaces(inner) && Trimmed(target, IsSpace)
    ensures Trim(target + inner) == target
  {
    assert target + inner == "" + target + inner;
    TrimByIs("", target, inner, IsSpace);
  }

  /** All of the decoration is stripped, and nothing of the target. */
  lemma DecorationIsStripped(before: string, target: string, inner: string, semicolons: string, after: string)
    requires AllSpaces(before) && AllSpaces(inner) && AllSpaces(after) && AllSemicolons(semicolons)
    requires target != "" && Trimmed(target, IsSpace) && target[|target| - 1] != ';'
    ensures TrimSqlTarget(Decorated(before, target, inner, semicolons, after)) == target
  {
    if semicolons == "" {
      assert Decorated(before, target, inner, semicolons, after) == before + target + (inner + after);
      SpacesAreStripped(before, target, inner + after);
    } else {
      SemicolonsAreStripped(before, target, inner, semicolons, after);
    }
  }

  lemma EndOfTarget(target: string, inner: string)
    requires target != "" && target[|target| - 1] != ';' && AllSpaces(inner)
    ensures (target + inner)[|target + inner| - 1] != ';'
  {
    if inner != "" {
      assert (target + inner)[|target + inner| - 1] == inner[|inner| - 1];
    }
  }

  lemma PrintedIsBare(q: QualifiedTableRef)
    ensures var s := ToSql(q); s != "" && Trimmed(s, IsSpace) && s[|s| - 1] != ';'
  {
    var first, second := FormatIdent(q.namespace), FormatIdent(q.tableName);
    PrintedEnds(q.namespace);
    PrintedEnds(q.tableName);
    ToSqlShape(q);
    assert ToSql(q)[0] == first[0] && ToSql(q)[|ToSql(q)| - 1] == second[|second| - 1];
  }

  /** A printed name with all that around it is parsed as the name. */
  lemma DecoratedNameParses(q: QualifiedTableRef, before: string, inner: string, semicolons: string, after: string)
    requires AllSpaces(before) && AllSpaces(inner) && AllSpaces(after) && AllSemicolons(semicolons)
    requires IsName(q.namespace) && IsName(q.tableName)
    ensures ParseQualified(Decorated(before, ToSql(q), inner, semicolons, after)) == Ok(q)
  {
    PrintedIsBare(q);
    DecorationIsStripped(before, ToSql(q), inner, semicolons, after);
    PrintedNeedsNoTrim(q);
    PrintParseRoundTrip(q);
  }

  /** Nothing but decoration names no table. */
  lemma NothingIsNoTarget(before: string, semicolons: string, after: string)
    requires AllSpaces(before) && AllSpaces(after) && AllSemicolons(semicolons)
    ensures ParseTarget(before + semicolons + after) == Err(TableNameRequired)
  {
    TrimByIs(before, semicolons, after, IsSpace);
    assert semicolons == "" + semicolons;
    TrimEndIs("", semicolons, IsSemicolon);
    TrimByFixes("", IsSpace);
  }

  lemma SplitOne(name: string)
    requires IsName(name)
    ensures SplitFrom(FormatIdent(name), "", false) == Ok([name])
  {
    assert FormatIdent(name) + "" == FormatIdent(name);
    ScanPrinted(name, "");
    SplitAtEnd(name);
    NamesAreKept(name);
  }

  /** A single printed name is a table without a namespace, which a qualified reference refuses. */
  lemma UnqualifiedParses(name: string)
    requires IsName(name)
    ensures ParseTarget(FormatIdent(name)) == Ok(TableTarget(None, name))
    ensures ParseQualified(FormatIdent(name)) == Err(NamespaceRequired)
  {
    PrintedEnds(name);
    NothingToTrim(FormatIdent(name));
    SplitOne(name);
  }

  lemma ThreeNamesAreBare(a: string, q: QualifiedTableRef)
    ensures TrimSqlTarget(FormatIdent(a) + ("." + ToSql(q))) == FormatIdent(a) + ("." + ToSql(q))
  {
    var s, last := FormatIdent(a) + ("." + ToSql(q)), FormatIdent(q.tableName);
    PrintedEnds(a);
    PrintedEnds(q.tableName);
    ToSqlShape(q);
    assert s[0] == FormatIdent(a)[0] && s[|s| - 1] == last[|last| - 1];
    NothingToTrim(s);
  }

  lemma ThreeNamesSplit(a: string, q: QualifiedTableRef)
    requires IsName(a) && IsName(q.namespace) && IsName(q.tableName)
    ensures SplitFrom(FormatIdent(a) + ("." + ToSql(q)), "", false) == Ok([a] + [q.namespace, q.tableName])
  {
    ScanPrinted(a, "." + ToSql(q));
    NamesAreKept(a);
    assert SplitFrom(ToSql(q), "", false) == Ok([q.namespace, q.tableName]) by {
      SplitPrinted(q);
      NamesAreKept(q.namespace);
      NamesAreKept(q.tableName);
    }
    SplitAtDot(ToSql(q), a, Ok([q.namespace, q.tableName]));
  }

  /** Three printed names are too many. */
  lemma ThreeNamesAreRefused(a: string, q: QualifiedTableRef)
    requires IsName(a) && IsName(q.namespace) && IsName(q.tableName)
    ensures ParseTarget(FormatIdent(a) + ("." + ToSql(q))) == Err(TooManyParts)
  {
    ThreeNamesAreBare(a, q);
    ThreeNamesSplit(a, q);
    PrintedEnds(a);
    assert |[a] + [q.namespace, q.tableName]| == 3;
  }

  /** A quote that is never closed is refused, whatever follows it. */
  lemma UnclosedQuoteIsRefused(value: string)
    ensures SplitFrom("\"" + EscapeQuotes(value), "", false) == Err(UnterminatedQuote)
  {
    var s := "\"" + EscapeQuotes(value);
    assert s[0] == '"' && s[1..] == EscapeQuotes(value);
    assert EscapeQuotes(value) + "" == EscapeQuotes(value);
    ScanQuoted(value, "", "");
  }

  /** White space around unquoted names is dropped, also next to the dot. */
  lemma UnquotedNamesSplit(first: string, second: string)
    requires '"' !in first && '.' !in first && '"' !in second && '.' !in second
    ensures SplitFrom(first + ("." + second), "", false) == TrimmedParts(Trim(first), Trim(second))
  {
    assert "" + first == first && "" + second == second && second + "" == second;
    ScanWord(first, "." + second, "");
    ScanWord(second, "", "");
    SplitTwo(first, second, first, second);
  }

  /** Quotes need not stand at the ends of a name: what is in them is taken as it is and the rest with it. */
  lemma QuotesInsideAName(head: string, value: string, tail: string)
    requires '"' !in head && '.' !in head && '"' !in tail && '.' !in tail
    ensures SplitFrom(head + ("\"" + (EscapeQuotes(value) + ("\"" + tail))), "", false) ==
            SplitFrom("", head + value + tail, false)
  {
    var closing := "\"" + tail;
    var opening := "\"" + (EscapeQuotes(value) + closing);
    assert "" + head == head && tail + "" == tail;
    ScanWord(head, opening, "");
    assert opening[0] == '"' && opening[1..] == EscapeQuotes(value) + closing;
    ScanQuoted(value, closing, head);
    ClosingQuote(tail, head + value);
    ScanWord(tail, "", head + value);
  }

  // ---------------------------------------------------------------------------------------------
  // Every name a user can write
  // ---------------------------------------------------------------------------------------------

  /** A name is written in pieces, with quotes around them or without. */
  datatype Piece =
    | Plain(text: string)
    | Quoted(text: string)

  /** A plain piece has no quote and no dot; between two quoted pieces there is a plain one. */
  ghost predicate ArePieces(pieces: seq<Piece>) {
    && (forall k :: 0 <= k < |pieces| && pieces[k].Plain? ==>
          pieces[k].text != "" && '"' !in pieces[k].text && '.' !in pieces[k].text)
    && (forall k :: 0 < k < |pieces| ==> !(pieces[k - 1].Quoted? && pieces[k].Quoted?))
  }

  function Written(piece: Piece): string {
    if piece.Plain? then piece.text else "\"" + (EscapeQuotes(piece.text) + "\"")
  }

  function WrittenAll(pieces: seq<Piece>): string {
    if pieces == [] then "" else Written(pieces[0]) + WrittenAll(pieces[1..])
  }

  function Meant(pieces: seq<Piece>): string {
    if pieces == [] then "" else pieces[0].text + Meant(pieces[1..])
  }

  lemma ScanPiece(piece: Piece, rest: string, current: string)
    requires piece.Plain? ==> '"' !in piece.text && '.' !in piece.text
    requires piece.Quoted? ==> rest == "" || rest[0] != '"'
    ensures SplitFrom(Written(piece) + rest, current, false) == SplitFrom(rest, current + piece.text, false)
  {
    if piece.Plain? {
      ScanWord(piece.text, rest, current);
    } else {
      var closing := "\"" + rest;
      var s := "\"" + (EscapeQuotes(piece.text) + closing);
      assert Written(piece) + rest == s;
      assert s[0] == '"' && s[1..] == EscapeQuotes(piece.text) + closing;
      ScanQuoted(piece.text, closing, current);
      ClosingQuote(rest, current + piece.text);
    }
  }

  lemma TailArePieces(pieces: seq<Piece>)
    requires pieces != [] && ArePieces(pieces)
    ensures ArePieces(pieces[1..])
    ensures pieces[0].Quoted? && |pieces| > 1 ==>
              WrittenAll(pieces[1..]) != "" && WrittenAll(pieces[1..])[0] != '"'
  {
    var tail := pieces[1..];
    forall k | 0 < k < |tail| ensures !(tail[k - 1].Quoted? && tail[k].Quoted?) {
      assert tail[k - 1] == pieces[k] && tail[k] == pieces[k + 1];
    }
    if pieces[0].Quoted? && |pieces| > 1 {
      assert pieces[1].Plain? && pieces[1].text[0] in pieces[1].text;
      assert WrittenAll(tail)[0] == pieces[1].text[0];
    }
  }

  lemma {:induction false} ScanPieces(pieces: seq<Piece>, rest: string, current: string)
    requires ArePieces(pieces) && (rest == "" || rest[0] == '.')
    ensures SplitFrom(WrittenAll(pieces) + rest, current, false) == SplitFrom(rest, current + Meant(pieces), false)
    decreases |pieces|
  {
    if pieces == [] {
      assert "" + rest == rest && current + "" == current;
    } else {
      var after := WrittenAll(pieces[1..]) + rest;
      TailArePieces(pieces);
      Regroup(Written(pieces[0]), WrittenAll(pieces[1..]), rest);
      ScanPiece(pieces[0], after, current);
      ScanPieces(pieces[1..], rest, current + pieces[0].text);
      Regroup(current, pieces[0].text, Meant(pieces[1..]));
    }
  }

  /** A text that can be the core of what a user writes. */
  predicate IsTarget(s: string) {
    s != "" && Trimmed(s, IsSpace) && s[|s| - 1] != ';'
  }

  /** `text` is scanned as `value`, up to a dot or the end. */
  ghost predicate Scans(text: string, rest: string, value: string) {
    SplitFrom(text + rest, "", false) == SplitFrom(rest, value, false)
  }

  lemma PiecesScan(pieces: seq<Piece>, rest: string)
    requires ArePieces(pieces) && (rest == "" || rest[0] == '.')
    ensures Scans(WrittenAll(pieces), rest, Meant(pieces))
  {
    assert "" + Meant(pieces) == Meant(pieces);
    ScanPieces(pieces, rest, "");
  }

  lemma OneScanned(text: string, value: string)
    requires text != "" && Scans(text, "", value)
    ensures TargetOfTrimmed(text) ==
            if Trim(value) == "" then Err(InvalidIdentifier) else Ok(TableTarget(None, Trim(value)))
  {
    assert text + "" == text;
    SplitAtEnd(value);
  }

  lemma TwoScanned(first: string, second: string, namespace: string, tableName: string)
    requires Scans(first, "." + second, namespace) && Scans(second, "", tableName)
    ensures TargetOfTrimmed(first + ("." + second)) ==
            if Trim(namespace) == "" || Trim(tableName) == "" then Err(InvalidIdentifier)
            else Ok(TableTarget(Some(Trim(namespace)), Trim(tableName)))
  {
    assert second + "" == second && first + ("." + second) != "";
    SplitTwo(first, second, namespace, tableName);
  }

  lemma MoreScanned(first: string, second: string, rest: string, a: string, b: string)
    requires Scans(first, "." + (second + ("." + rest)), a) && Scans(second, "." + rest, b)
    ensures var more := SplitFrom(rest, "", false);
            TargetOfTrimmed(first + ("." + (second + ("." + rest)))) ==
            if Trim(a) == "" || Trim(b) == "" then Err(InvalidIdentifier)
            else if more.Err? then Err(more.error) else Err(TooManyParts)
  {
    var tail, more := second + ("." + rest), SplitFrom(rest, "", false);
    assert first + ("." + tail) != "";
    SplitAtDot(rest, b, more);
    SplitAtDot(tail, a, SplitFrom(tail, "", false));
    SomeParts(rest, "", false);
  }

  lemma {:induction false} SomeParts(s: string, current: string, inQuotes: bool)
    ensures SplitFrom(s, current, inQuotes).Ok? ==> SplitFrom(s, current, inQuotes).value != []
    decreases |s|
  {
    if s != "" {
      if s[0] == '"' && inQuotes && |s| > 1 && s[1] == '"' {
        SomeParts(s[2..], current + "\"", inQuotes);
      } else if s[0] == '"' {
        SomeParts(s[1..], current, !inQuotes);
      } else if s[0] != '.' || inQuotes {
        SomeParts(s[1..], current + [s[0]], inQuotes);
      }
    }
  }

  /** What is written as one name, in any pieces and with anything around it that is stripped, is a table. */
  lemma OneNameParses(name: seq<Piece>, before: string, inner: string, semicolons: string, after: string)
    requires AllSpaces(before) && AllSpaces(inner) && AllSpaces(after) && AllSemicolons(semicolons)
    requires ArePieces(name) && IsTarget(WrittenAll(name))
    ensures ParseTarget(Decorated(before, WrittenAll(name), inner, semicolons, after)) ==
            if Trim(Meant(name)) == "" then Err(InvalidIdentifier) else Ok(TableTarget(None, Trim(Meant(name))))
  {
    DecorationIsStripped(before, WrittenAll(name), inner, semicolons, after);
    PiecesScan(name, "");
    OneScanned(WrittenAll(name), Meant(name));
  }

  /** Two names with a dot between them are a namespace and a table; neither may be blank. */
  lemma TwoNamesParse(first: seq<Piece>, second: seq<Piece>, before: string, inner: string, semicolons: string,
                      after: string)
    requires AllSpaces(before) && AllSpaces(inner) && AllSpaces(after) && AllSemicolons(semicolons)
    requires ArePieces(first) && ArePieces(second) && IsTarget(WrittenAll(first) + ("." + WrittenAll(second)))
    ensures ParseTarget(Decorated(before, WrittenAll(first) + ("." + WrittenAll(second)), inner, semicolons, after)) ==
            if Trim(Meant(first)) == "" || Trim(Meant(second)) == "" then Err(InvalidIdentifier)
            else Ok(TableTarget(Some(Trim(Meant(first))), Trim(Meant(second))))
  {
    DecorationIsStripped(before, WrittenAll(first) + ("." + WrittenAll(second)), inner, semicolons, after);
    PiecesScan(first, "." + WrittenAll(second));
    PiecesScan(second, "");
    TwoScanned(WrittenAll(first), WrittenAll(second), Meant(first), Meant(second));
  }

  /** More names than two are refused, whatever follows; a blank name or an open quote is reported instead. */
  lemma MoreNamesAreRefused(first: seq<Piece>, second: seq<Piece>, rest: string, before: string, inner: string,
                            semicolons: string, after: string)
    requires AllSpaces(before) && AllSpaces(inner) && AllSpaces(after) && AllSemicolons(semicolons)
    requires ArePieces(first) && ArePieces(second)
    requires IsTarget(WrittenAll(first) + ("." + (WrittenAll(second) + ("." + rest))))
    ensures var target := WrittenAll(first) + ("." + (WrittenAll(second) + ("." + rest)));
            var more := SplitFrom(rest, "", false);
            ParseTarget(Decorated(before, target, inner, semicolons, after)) ==
            if Trim(Meant(first)) == "" || Trim(Meant(second)) == "" then Err(InvalidIdentifier)
            else if more.Err? then Err(more.error) else Err(TooManyParts)
  {
    var tail := WrittenAll(second) + ("." + rest);
    DecorationIsStripped(before, WrittenAll(first) + ("." + tail), inner, semicolons, after);
    PiecesScan(first, "." + tail);
    PiecesScan(second, "." + rest);
    MoreScanned(WrittenAll(first), WrittenAll(second), rest, Meant(first), Meant(second));
  }

  /** A single name without quotes, such as `_events` or `my-table`, is a table as it stands. */
  lemma BareNameParses(name: string)
    requires IsName(name) && '"' !in name && '.' !in name && name[|name| - 1] != ';'
    ensures ParseTarget(name) == Ok(TableTarget(None, name))
    ensures ParseQualified(name) == Err(NamespaceRequired)
  {
    assert name + "" == name && "" + name == name && "" + name + "" == name;
    SpacesAreStripped("", name, "");
    ScanWord(name, "", "");
    SplitAtEnd(name);
    NamesAreKept(name);
  }

  predicate IsLetter(c: char) {
    'a' <= c <= 'z' || 'A' <= c <= 'Z'
  }

  predicate IsWord(value: string) {
    && value != "" && IsLetter(value[0])
    && forall k :: 1 <= k < |value| ==> IsLetter(value[k]) || value[k] in "0123456789" || value[k] == '_'
  }

  lemma SimpleIsWord(value: string)
    ensures IsSimple(value) <==> IsWord(value)
  {
    forall k | 0 <= k < |value| ensures value[k] in "0123456789" <==> '0' <= value[k] <= '9' {
      DigitChars(value[k]);
    }
  }

  /** Letters, digits and underscores after a letter are printed as they are, everything else in quotes. */
  lemma PrintedPlainExactly(value: string)
    ensures FormatIdent(value) == value <==> IsWord(value)
    ensures !IsWord(value) ==>
              FormatIdent(value)[0] == '"' && FormatIdent(value)[|FormatIdent(value)| - 1] == '"'
  {
    SimpleIsWord(value);
    EscapeGrows(value);
  }

  /** The namespace of the target wins over the default. */
  lemma QualifyKeepsTarget(target: TableTarget, defaultNamespace: string)
    ensures var q := Qualify(target, defaultNamespace);
            && q.tableName == target.tableName
            && (target.namespace.Some? ==> q.namespace == target.namespace.value)
            && (target.namespace.None? ==> q.namespace == defaultNamespace)
  {
  }
}
