/** Strings as the source handles them: trimming, searching, splitting and joining. */
module Text {
  import opened Wrappers

  /** Characters with the Unicode property White_Space. */
  predicate IsSpace(c: char) {
    var v := c as int;
    || 0x09 <= v <= 0x0D || v == 0x20 || v == 0x85 || v == 0xA0 || v == 0x1680
    || 0x2000 <= v <= 0x200A || v == 0x2028 || v == 0x2029 || v == 0x202F || v == 0x205F || v == 0x3000
  }

  function Repeat(c: char, n: nat): (r: string)
    ensures |r| == n && forall k :: 0 <= k < n ==> r[k] == c
  {
    seq(n, _ => c)
  }

  lemma SpacesExactly(c: char)
    ensures IsSpace(c) <==>
            || c in "\t\n\r \U{0B}\U{0C}\U{85}\U{A0}\U{1680}\U{2028}\U{2029}\U{202F}\U{205F}\U{3000}"
            || c in "\U{2000}\U{2001}\U{2002}\U{2003}\U{2004}\U{2005}\U{2006}\U{2007}\U{2008}\U{2009}\U{200A}"
  {
  }

  function TrimStart(s: string, drop: char -> bool): (r: string)
    ensures r == "" || !drop(r[0])
    ensures |r| <= |s| && r == s[|s| - |r|..]
  {
    if s != "" && drop(s[0]) then TrimStart(s[1..], drop) else s
  }

  function TrimEnd(s: string, drop: char -> bool): (r: string)
    ensures r == "" || !drop(r[|r| - 1])
    ensures r <= s
  {
    if s != "" && drop(s[|s| - 1]) then TrimEnd(s[..|s| - 1], drop) else s
  }

  function TrimBy(s: string, drop: char -> bool): string {
    TrimEnd(TrimStart(s, drop), drop)
  }

  function Trim(s: string): string {
    TrimBy(s, IsSpace)
  }

  /** Nothing to trim at either end. */
  predicate Trimmed(s: string, drop: char -> bool) {
    s == "" || (!drop(s[0]) && !drop(s[|s| - 1]))
  }

  lemma TrimByIsTrimmed(s: string, drop: char -> bool)
    ensures Trimmed(TrimBy(s, drop), drop)
  {
    var t := TrimStart(s, drop);
    var r := TrimEnd(t, drop);
    assert r != "" ==> r[0] == t[0];
  }

  predicate AllDropped(s: string, drop: char -> bool) {
    forall k :: 0 <= k < |s| ==> drop(s[k])
  }

  predicate AllSpaces(s: string) {
    forall k :: 0 <= k < |s| ==> IsSpace(s[k])
  }

  lemma {:induction false} TrimStartIs(before: string, rest: string, drop: char -> bool)
    requires AllDropped(before, drop) && (rest == "" || !drop(rest[0]))
    ensures TrimStart(before + rest, drop) == rest
    decreases |before|
  {
    if before == "" {
      assert before + rest == rest;
    } else {
      assert (before + rest)[0] == before[0] && (before + rest)[1..] == before[1..] + rest;
      TrimStartIs(before[1..], rest, drop);
    }
  }

  lemma {:induction false} TrimEndIs(rest: string, after: string, drop: char -> bool)
    requires AllDropped(after, drop) && (rest == "" || !drop(rest[|rest| - 1]))
    ensures TrimEnd(rest + after, drop) == rest
    decreases |after|
  {
    if after == "" {
      assert rest + after == rest;
    } else {
      var s, n := rest + after, |after| - 1;
      assert s[|s| - 1] == after[n] && s[..|s| - 1] == rest + after[..n];
      TrimEndIs(rest, after[..n], drop);
    }
  }

  /** Trimming removes just what is to be dropped at both ends. */
  lemma TrimByIs(before: string, core: string, after: string, drop: char -> bool)
    requires AllDropped(before, drop) && AllDropped(after, drop) && Trimmed(core, drop)
    ensures TrimBy(before + core + after, drop) == core
  {
    if core == "" {
      assert before + core + after == (before + after) + "";
      TrimStartIs(before + after, "", drop);
    } else {
      Regroup(before, core, after);
      assert (core + after)[0] == core[0];
      TrimStartIs(before, core + after, drop);
      TrimEndIs(core, after, drop);
    }
  }

  lemma {:induction false} TrimStartDrops(s: string, drop: char -> bool)
    ensures AllDropped(s[..|s| - |TrimStart(s, drop)|], drop)
  {
    if s != "" && drop(s[0]) {
      TrimStartDrops(s[1..], drop);
      var n := |s| - |TrimStart(s, drop)|;
      forall k | 0 <= k < n ensures drop(s[k]) {
        assert k > 0 ==> s[k] == s[1..][..n - 1][k - 1];
      }
    }
  }

  lemma {:induction false} TrimEndDrops(s: string, drop: char -> bool)
    ensures AllDropped(s[|TrimEnd(s, drop)|..], drop)
  {
    if s != "" && drop(s[|s| - 1]) {
      var front, n := s[..|s| - 1], |TrimEnd(s, drop)|;
      TrimEndDrops(front, drop);
      forall k | n <= k < |s| ensures drop(s[k]) {
        assert k < |s| - 1 ==> s[k] == front[n..][k - n];
      }
    }
  }

  lemma TrimByParts(s: string, drop: char -> bool) returns (before: string, after: string)
    ensures s == before + TrimBy(s, drop) + after
    ensures AllDropped(before, drop) && AllDropped(after, drop) && Trimmed(TrimBy(s, drop), drop)
  {
    TrimByIsTrimmed(s, drop);
    var at, n := TrimBySlice(s, drop);
    CutTwice(s, at, n);
    before, after := s[..at], s[at..][n..];
  }

  lemma TrimBySlice(s: string, drop: char -> bool) returns (at: nat, n: nat)
    ensures at <= |s| && n <= |s[at..]| && TrimBy(s, drop) == s[at..][..n]
    ensures AllDropped(s[..at], drop) && AllDropped(s[at..][n..], drop)
  {
    var t := TrimStart(s, drop);
    at, n := |s| - |t|, |TrimEnd(t, drop)|;
    TrimStartDrops(s, drop);
    TrimEndDrops(t, drop);
  }

  lemma CutTwice(s: string, at: nat, n: nat)
    requires at <= |s| && n <= |s[at..]|
    ensures s == s[..at] + s[at..][..n] + s[at..][n..]
  {
  }

  /** The white space a keyboard gives. */
  lemma AsciiSpaces(c: char)
    requires c as int < 0x80
    ensures IsSpace(c) <==> c in " \t\n\r" || c as int == 11 || c as int == 12
  {
    assert " \t\n\r" == [' ', '\t', '\n', '\r'];
  }

  lemma TrimByFixes(s: string, drop: char -> bool)
    ensures TrimBy(s, drop) == s <==> Trimmed(s, drop)
  {
    TrimByIsTrimmed(s, drop);
  }

  lemma TrimEndFixes(s: string, drop: char -> bool)
    ensures TrimEnd(s, drop) == s <==> s == "" || !drop(s[|s| - 1])
  {
  }

  /** The first `n` texts of `row`, with `missing` for those it does not have. */
  function Filled(row: seq<string>, n: nat, missing: string): (r: seq<string>)
    ensures |r| == n && forall k :: 0 <= k < n ==> r[k] == if k < |row| then row[k] else missing
  {
    if |row| >= n then row[..n] else row + seq(n - |row|, _ => missing)
  }

  /** Upper-case ASCII letters made lower-case. */
  function Lower(s: string): string {
    if s == "" then ""
    else [if 'A' <= s[0] <= 'Z' then (s[0] as int + 32) as char else s[0]] + Lower(s[1..])
  }

  lemma {:induction false} LowerAt(s: string, k: nat)
    requires k < |s|
    ensures |Lower(s)| == |s|
    ensures Lower(s)[k] == if 'A' <= s[k] <= 'Z' then (s[k] as int + 32) as char else s[k]
  {
    if |s| > 1 {
      LowerAt(s[1..], if k == 0 then 0 else k - 1);
    }
  }

  lemma {:induction false} LowerKeepsLength(s: string)
    ensures |Lower(s)| == |s|
  {
    if s != "" {
      LowerKeepsLength(s[1..]);
    }
  }

  /** The same character, or the upper-case form of the letter `d`. */
  predicate SameLetter(c: char, d: char) {
    c == d || ('A' <= c <= 'Z' && c as int + 32 == d as int)
  }

  /** From place `i` on, `s` has `word` in some mixture of upper and lower case. */
  predicate HasAt(s: string, i: int, word: string) {
    0 <= i && i + |word| <= |s| && forall j :: 0 <= j < |word| ==> SameLetter(s[i + j], word[j])
  }

  predicate IsLowerCase(word: string) {
    forall j :: 0 <= j < |word| ==> !('A' <= word[j] <= 'Z')
  }

  lemma LowerHasAt(s: string, i: int, word: string)
    requires IsLowerCase(word) && 0 <= i <= |s|
    ensures |Lower(s)| == |s|
    ensures word <= Lower(s)[i..] <==> HasAt(s, i, word)
  {
    LowerKeepsLength(s);
    if i + |word| <= |s| {
      forall j | 0 <= j < |word| ensures Lower(s)[i..][j] == word[j] <==> SameLetter(s[i + j], word[j]) {
        LowerAt(s, i + j);
      }
      if HasAt(s, i, word) {
        assert Lower(s)[i..][..|word|] == word;
      }
    }
  }

  predicate Contains(s: string, part: string) {
    exists i :: 0 <= i <= |s| && part <= s[i..]
  }

  /** Position of the first occurrence of `part`. */
  function Find(s: string, part: string): (r: Option<nat>)
    ensures r.Some? ==> r.value + |part| <= |s| && s[r.value..r.value + |part|] == part
  {
    if part <= s then Some(0)
    else if s == "" then None
    else
      var r := Find(s[1..], part);
      if r.Some? then Some(r.value + 1) else None
  }

  function Split(s: string, delimiter: string): (parts: seq<string>)
    requires delimiter != ""
    ensures parts != []
  {
    var at := Find(s, delimiter);
    if at.None? then [s]
    else [s[..at.value]] + Split(s[at.value + |delimiter|..], delimiter)
  }

  function Join(parts: seq<string>, delimiter: string): string {
    if parts == [] then ""
    else if |parts| == 1 then parts[0]
    else parts[0] + delimiter + Join(parts[1..], delimiter)
  }

  lemma {:induction false} JoinLast(parts: seq<string>, last: string, delimiter: string)
    requires parts != []
    ensures Join(parts + [last], delimiter) == Join(parts, delimiter) + delimiter + last
  {
    var all := parts + [last];
    assert all[1..] == parts[1..] + [last];
    if |parts| == 1 {
      assert parts[1..] + [last] == [last];
    } else {
      JoinLast(parts[1..], last, delimiter);
      var rest := Join(parts[1..], delimiter);
      assert parts[0] + delimiter + (rest + delimiter + last) == parts[0] + delimiter + rest + delimiter + last;
    }
  }

  lemma {:induction false} FindAfter(head: string, part: string, rest: string)
    requires part != "" && part[0] !in head
    ensures Find(head + part + rest, part) == Some(|head|)
  {
    var s := head + part + rest;
    if head == "" {
      assert s == part + rest;
    } else {
      assert s[0] == head[0] && s[1..] == head[1..] + part + rest;
      FindLater(s, part);
      FindAfter(head[1..], part, rest);
    }
  }

  lemma FindLater(s: string, part: string)
    requires s != "" && part != "" && s[0] != part[0]
    ensures Find(s, part) == var r := Find(s[1..], part); if r.Some? then Some(r.value + 1) else None
  {
    assert !(part <= s);
  }

  lemma {:induction false} FindNowhere(s: string, part: string)
    requires part != "" && part[0] !in s
    ensures Find(s, part) == None
  {
    if s != "" {
      FindNowhere(s[1..], part);
    }
  }

  /** Splitting undoes joining when no part contains the first character of the delimiter. */
  lemma {:induction false} SplitUndoesJoin(parts: seq<string>, delimiter: string)
    requires delimiter != "" && parts != []
    requires forall k :: 0 <= k < |parts| ==> delimiter[0] !in parts[k]
    ensures Split(Join(parts, delimiter), delimiter) == parts
  {
    if |parts| == 1 {
      FindNowhere(parts[0], delimiter);
    } else {
      var rest := Join(parts[1..], delimiter);
      var s := parts[0] + delimiter + rest;
      FindAfter(parts[0], delimiter, rest);
      assert s[..|parts[0]|] == parts[0];
      assert s[|parts[0]| + |delimiter|..] == rest;
      SplitUndoesJoin(parts[1..], delimiter);
    }
  }

  /** Every double quote doubled. */
  function EscapeQuotes(value: string): string {
    if value == "" then ""
    else (if value[0] == '"' then "\"\"" else [value[0]]) + EscapeQuotes(value[1..])
  }

  lemma Regroup(a: string, b: string, c: string)
    ensures (a + b) + c == a + (b + c)
  {
  }

  lemma EscapeQuotesCons(value: string, tail: string)
    requires value != ""
    ensures value[0] == '"' ==> EscapeQuotes(value) + tail == "\"\"" + (EscapeQuotes(value[1..]) + tail)
    ensures value[0] != '"' ==> EscapeQuotes(value) + tail == [value[0]] + (EscapeQuotes(value[1..]) + tail)
  {
    var head := if value[0] == '"' then "\"\"" else [value[0]];
    Regroup(head, EscapeQuotes(value[1..]), tail);
  }

  lemma {:induction false} EscapeGrows(s: string)
    ensures |EscapeQuotes(s)| >= |s|
  {
    if s != "" {
      EscapeGrows(s[1..]);
    }
  }

  lemma DigitChars(c: char)
    ensures c in "0123456789" <==> '0' <= c <= '9'
  {
    if '0' <= c <= '9' {
      assert "0123456789"[c as int - '0' as int] == c;
    }
  }
}
