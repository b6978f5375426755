/**
 Command history: commands are kept in one file, each in base64 so that newlines and delimiters in a command do not
 matter, and only the newest `max` of them.
 */
module History {
  import opened Wrappers
  import opened Text
  import opened HistoryPolicy
  import Utf8
  import Base64

  const DELIMITER := "\n---ENTRY---\n"

  // ---------------------------------------------------------------------------------------------
  // The file format
  // ---------------------------------------------------------------------------------------------

  /** The last `max` entries, or all of them. */
  function Newest(entries: seq<string>, max: nat): (r: seq<string>)
    ensures |r| <= max && |r| <= |entries| && (|r| == max || |r| == |entries|)
    ensures forall k :: 0 <= k < |r| ==> r[k] == entries[|entries| - |r| + k]
  {
    if |entries| > max then entries[|entries| - max..] else entries
  }

  function Without(h: seq<string>, command: string): seq<string> {
    if h == [] then []
    else if h[0] == command then Without(h[1..], command)
    else [h[0]] + Without(h[1..], command)
  }

  function NonEmpty(entries: seq<string>): seq<string> {
    Without(entries, "")
  }

  function EncodeEntry(entry: string): string {
    Base64.Encode(Utf8.Encode(entry))
  }

  function EncodeAll(entries: seq<string>): seq<string> {
    if entries == [] then [] else [EncodeEntry(entries[0])] + EncodeAll(entries[1..])
  }

  /** What `save` writes. */
  function SavedText(entries: seq<string>, max: nat): string {
    Join(EncodeAll(Newest(entries, max)), DELIMITER)
  }

  /** One stored entry; blank and undecodable ones are skipped. */
  function DecodeEntry(part: string): Option<string> {
    if Trim(part) == "" then None
    else
      var bytes := Base64.Decode(Trim(part));
      if bytes.None? then None else Utf8.Decode(bytes.value)
  }

  /** What a part adds to the list. */
  function Decoded(part: string): seq<string> {
    if DecodeEntry(part).Some? then [DecodeEntry(part).value] else []
  }

  function DecodeAll(parts: seq<string>): seq<string> {
    if parts == [] then [] else Decoded(parts[0]) + DecodeAll(parts[1..])
  }

  function ParseEntries(text: string): seq<string> {
    DecodeAll(Split(text, DELIMITER))
  }

  /** What `load` returns for the bytes of the file, or for no file. */
  function Loaded(file: Option<Bytes>, max: nat): Result<seq<string>, string> {
    if file.None? then Ok([])
    else
      var text := Utf8.Decode(file.value);
      if text.None? then Err("Failed to read history file") else Ok(Newest(ParseEntries(text.value), max))
  }

  // ---------------------------------------------------------------------------------------------
  // Loading undoes saving
  // ---------------------------------------------------------------------------------------------

  /** The encoding of an entry has nothing to trim and cannot touch a delimiter. */
  lemma EncodedEntryIsPlain(entry: string)
    ensures DELIMITER[0] !in EncodeEntry(entry)
    ensures Trim(EncodeEntry(entry)) == EncodeEntry(entry)
    ensures EncodeEntry(entry) == "" <==> entry == ""
  {
    var bytes, text := Utf8.Encode(entry), EncodeEntry(entry);
    Base64.EncodeAlphabet(bytes);
    assert forall c :: c in text ==> !IsSpace(c);
    TrimByFixes(text, IsSpace);
    Base64.EncodeNonEmpty(bytes);
    assert entry != "" ==> bytes == Utf8.EncodeChar(entry[0]) + Utf8.Encode(entry[1..]);
  }

  lemma DecodeEncodedEntry(entry: string)
    ensures DecodeEntry(EncodeEntry(entry)) == if entry == "" then None else Some(entry)
  {
    EncodedEntryIsPlain(entry);
    Base64.DecodeUndoesEncode(Utf8.Encode(entry));
    Utf8.DecodeUndoesEncode(entry);
  }

  lemma {:induction false} DecodeEncodedAll(entries: seq<string>)
    ensures DecodeAll(EncodeAll(entries)) == NonEmpty(entries)
  {
    if entries != [] {
      DecodeEncodedEntry(entries[0]);
      DecodeEncodedAll(entries[1..]);
      assert EncodeAll(entries)[1..] == EncodeAll(entries[1..]);
    }
  }

  lemma NoDelimiterInside(entry: string)
    ensures DELIMITER[0] !in EncodeEntry(entry)
  {
    EncodedEntryIsPlain(entry);
  }

  lemma {:induction false} EncodedAllArePlain(entries: seq<string>)
    ensures |EncodeAll(entries)| == |entries|
    ensures forall k :: 0 <= k < |entries| ==> DELIMITER[0] !in EncodeAll(entries)[k]
  {
    if entries != [] {
      NoDelimiterInside(entries[0]);
      EncodedAllArePlain(entries[1..]);
    }
  }

  lemma ParseUndoesSave(entries: seq<string>, max: nat)
    ensures ParseEntries(SavedText(entries, max)) == NonEmpty(Newest(entries, max))
  {
    var kept := Newest(entries, max);
    if kept == [] {
      FindNowhere("", DELIMITER);
      assert Split("", DELIMITER) == [""];
      assert Trim("") == "" && [""][1..] == [];
    } else {
      EncodedAllArePlain(kept);
      SplitUndoesJoin(EncodeAll(kept), DELIMITER);
      DecodeEncodedAll(kept);
    }
  }

  /**
   A file written under one limit and read under another: the last of its entries are loaded, as many as the new
   limit allows, empty ones left out, whatever characters they hold.
   */
  lemma LoadKeepsNewest(entries: seq<string>, saved: nat, max: nat)
    ensures var kept := NonEmpty(Newest(entries, saved));
            Loaded(Some(Utf8.Encode(SavedText(entries, saved))), max) ==
            Ok(if |kept| > max then kept[|kept| - max..] else kept)
  {
    Utf8.DecodeUndoesEncode(SavedText(entries, saved));
    ParseUndoesSave(entries, saved);
  }

  /** After saving, loading gives the newest `max` entries, empty ones left out. */
  lemma LoadUndoesSave(entries: seq<string>, max: nat)
    ensures Loaded(Some(Utf8.Encode(SavedText(entries, max))), max) == Ok(NonEmpty(Newest(entries, max)))
  {
    LoadKeepsNewest(entries, max, max);
    WithoutKeepsOthers(Newest(entries, max), "");
  }

  lemma EncodedIsPlainText(entry: string)
    requires entry != ""
    ensures IsPlainText(EncodeEntry(entry))
  {
    var bytes, text := Utf8.Encode(entry), EncodeEntry(entry);
    Base64.EncodeAlphabet(bytes);
    Base64.EncodeNonEmpty(bytes);
    assert bytes == Utf8.EncodeChar(entry[0]) + Utf8.Encode(entry[1..]);
    assert forall c :: c in text ==> !IsSpace(c);
    assert text[0] in text && text[|text| - 1] in text;
  }

  lemma DecodeTrimmed(part: string, text: string)
    requires Trim(part) == text && Trim(text) == text
    ensures DecodeEntry(part) == DecodeEntry(text)
  {
  }

  /** White space around a stored entry does no harm. */
  lemma PaddedEntryIsRead(before: string, entry: string, after: string)
    requires AllSpaces(before) && AllSpaces(after) && entry != ""
    ensures DecodeEntry(before + EncodeEntry(entry) + after) == Some(entry)
  {
    EncodedEntryIsPlain(entry);
    EncodedIsPlainText(entry);
    TrimAround(before, EncodeEntry(entry), after);
    DecodeEncodedEntry(entry);
    DecodeTrimmed(before + EncodeEntry(entry) + after, EncodeEntry(entry));
  }

  // ---------------------------------------------------------------------------------------------
  // The text of the file
  // ---------------------------------------------------------------------------------------------

  lemma {:induction false} EncodeAllLast(entries: seq<string>, e: string)
    ensures EncodeAll(entries + [e]) == EncodeAll(entries) + [EncodeEntry(e)]
  {
    if entries == [] {
      assert entries + [e] == [e] && [e][1..] == [];
    } else {
      assert (entries + [e])[1..] == entries[1..] + [e];
      EncodeAllLast(entries[1..], e);
    }
  }

  /** The file of no entry is empty, that of one is its base64; each further one follows a line of its own. */
  lemma SavedTextRules(entries: seq<string>, e: string, max: nat)
    requires |entries| < max
    ensures SavedText([], max) == ""
    ensures SavedText([e], max) == Base64.Encode(Utf8.Encode(e))
    ensures entries != [] ==>
              SavedText(entries + [e], max)
              == SavedText(entries, max) + "\n---ENTRY---\n" + Base64.Encode(Utf8.Encode(e))
  {
    assert Newest([e], max) == [e] && [e][1..] == [];
    assert EncodeAll([e]) == [EncodeEntry(e)];
    assert Newest(entries + [e], max) == entries + [e] && Newest(entries, max) == entries;
    EncodeAllLast(entries, e);
    if entries != [] {
      JoinLast(EncodeAll(entries), EncodeEntry(e), DELIMITER);
    }
  }

  lemma Assoc(x: seq<string>, y: seq<string>, z: seq<string>)
    ensures (x + y) + z == x + (y + z)
  {
  }

  lemma {:induction false} DecodeAllConcat(a: seq<string>, b: seq<string>)
    ensures DecodeAll(a + b) == DecodeAll(a) + DecodeAll(b)
  {
    if a == [] {
      assert a + b == b;
    } else {
      assert (a + b)[0] == a[0] && (a + b)[1..] == a[1..] + b;
      DecodeAllConcat(a[1..], b);
      Assoc(Decoded(a[0]), DecodeAll(a[1..]), DecodeAll(b));
    }
  }

  /** Not the base64 of any text but the empty one. */
  ghost predicate IsDamaged(part: string) {
    forall e :: e != "" ==> Trim(part) != Base64.Encode(Utf8.Encode(e))
  }

  lemma DecodedIsEncoding(part: string)
    requires DecodeEntry(part).Some?
    ensures var e := DecodeEntry(part).value; e != "" && Trim(part) == Base64.Encode(Utf8.Encode(e))
  {
    var text := Trim(part);
    var bytes, e := Base64.Decode(text).value, DecodeEntry(part).value;
    Base64.DecodesExactly(text, bytes);
    Utf8.DecodesExactly(bytes, e);
    Base64.DecodedNonEmpty(text);
  }

  /** A part that is no entry is passed over, and those before and after it are read all the same. */
  lemma DamageIsSkipped(before: seq<string>, part: string, after: seq<string>)
    requires IsDamaged(part)
    ensures DecodeAll(before + ([part] + after)) == DecodeAll(before) + DecodeAll(after)
  {
    if DecodeEntry(part).Some? {
      DecodedIsEncoding(part);
      assert false;
    }
    DecodeAllConcat(before, [part] + after);
    assert ([part] + after)[1..] == after;
    assert [] + DecodeAll(after) == DecodeAll(after);
  }

  /** A file of parts without line breaks is read part by part. */
  lemma FileIsReadByParts(parts: seq<string>)
    requires parts != [] && forall k :: 0 <= k < |parts| ==> '\n' !in parts[k]
    ensures ParseEntries(Join(parts, "\n---ENTRY---\n")) == DecodeAll(parts)
  {
    SplitUndoesJoin(parts, DELIMITER);
  }

  lemma {:induction false} DecodedAreNonEmpty(parts: seq<string>)
    ensures "" !in DecodeAll(parts)
  {
    if parts != [] {
      DecodedAreNonEmpty(parts[1..]);
      if DecodeEntry(parts[0]).Some? {
        Base64.DecodedNonEmpty(Trim(parts[0]));
      }
    }
  }

  // ---------------------------------------------------------------------------------------------
  // Operations on the loaded list
  // ---------------------------------------------------------------------------------------------

  datatype Op =
    | Append(command: string)
    | MoveToEnd(command: string)
    | Clear

  predicate Skipped(h: seq<string>, command: string) {
    !ShouldPersist(command) || (h != [] && h[|h| - 1] == command)
  }

  function Pushed(h: seq<string>, command: string, max: nat): seq<string> {
    NonEmpty(Newest(h + [command], max))
  }

  /** The list seen by the next load. */
  function Apply(h: seq<string>, op: Op, max: nat): seq<string> {
    match op
    case Append(c) => if Skipped(h, c) then h else Pushed(h, c, max)
    case MoveToEnd(c) => Pushed(Without(h, c), c, max)
    case Clear => []
  }

  function Run(h: seq<string>, ops: seq<Op>, max: nat): seq<string>
    decreases |ops|
  {
    if ops == [] then h else Run(Apply(h, ops[0], max), ops[1..], max)
  }

  // ---------------------------------------------------------------------------------------------
  // What every run keeps
  // ---------------------------------------------------------------------------------------------

  /** What `load` can return: no empty entry, and no more than `max`. */
  ghost predicate IsLoaded(h: seq<string>, max: nat) {
    "" !in h && |h| <= max
  }

  lemma ParsedAreLoaded(text: string, max: nat)
    ensures IsLoaded(Newest(ParseEntries(text), max), max)
  {
    DecodedAreNonEmpty(Split(text, DELIMITER));
  }

  lemma {:induction false} WithoutKeepsOthers(h: seq<string>, c: string)
    ensures c !in Without(h, c) && |Without(h, c)| <= |h|
    ensures c !in h ==> Without(h, c) == h
    ensures c in h ==> |Without(h, c)| < |h|
    ensures forall e :: e in Without(h, c) <==> e in h && e != c
  {
    if h != [] {
      WithoutKeepsOthers(h[1..], c);
      assert h == [h[0]] + h[1..];
    }
  }

  /** What is left stands in its old order: entry k of the rest stood at place `at[k]`, and the places rise. */
  lemma {:induction false} WithoutKeepsOrder(h: seq<string>, c: string) returns (at: seq<nat>)
    ensures |at| == |Without(h, c)|
    ensures forall k :: 0 <= k < |at| ==> at[k] < |h| && Without(h, c)[k] == h[at[k]]
    ensures forall j, k :: 0 <= j < k < |at| ==> at[j] < at[k]
    ensures forall i :: 0 <= i < |h| && h[i] != c ==> i in at
  {
    at := [];
    if h != [] {
      var last := |h| - 1;
      at := WithoutKeepsOrder(h[..last], c);
      assert h == h[..last] + [h[last]];
      WithoutLast(h[..last], h[last], c);
      if h[last] != c {
        at := at + [last];
      }
    }
  }

  lemma {:induction false} WithoutLast(h: seq<string>, e: string, c: string)
    ensures Without(h + [e], c) == Without(h, c) + (if e == c then [] else [e])
  {
    if h == [] {
      assert h + [e] == [e] && [e][1..] == [];
    } else {
      assert (h + [e])[1..] == h[1..] + [e];
      WithoutLast(h[1..], e, c);
    }
  }

  lemma PushedIsLoaded(h: seq<string>, c: string, max: nat)
    ensures IsLoaded(Pushed(h, c, max), max)
    ensures forall e :: e in Pushed(h, c, max) ==> e in h || e == c
  {
    WithoutKeepsOthers(Newest(h + [c], max), "");
  }

  lemma ApplyKeepsLoaded(h: seq<string>, op: Op, max: nat)
    requires IsLoaded(h, max)
    ensures IsLoaded(Apply(h, op, max), max)
    ensures forall e :: e in Apply(h, op, max) ==> e in h || (!op.Clear? && e == op.command)
  {
    match op
    case Append(c) =>
      PushedIsLoaded(h, c, max);
    case MoveToEnd(c) =>
      WithoutKeepsOthers(h, c);
      PushedIsLoaded(Without(h, c), c, max);
    case Clear =>
  }

  lemma PushedIsExact(h: seq<string>, c: string, max: nat)
    requires IsLoaded(h, max) && max >= 1
    ensures Pushed(h, c, max) == (if |h| == max then h[1..] else h) + (if c == "" then [] else [c])
  {
    var kept := if |h| == max then h[1..] else h;
    assert Newest(h + [c], max) == kept + [c];
    WithoutLast(kept, c, "");
    WithoutKeepsOthers(kept, "");
  }

  /**
   Moving a command to the end leaves it there once, after the others in their old order (see `WithoutKeepsOrder`);
   only the single oldest other entry can be lost. An empty command is dropped by the next load, yet costs the same.
   */
  lemma MoveToEndIsExact(h: seq<string>, c: string, max: nat)
    requires IsLoaded(h, max) && max >= 1
    ensures var others := Without(h, c);
            Apply(h, MoveToEnd(c), max)
            == (if |h| == max && c !in h then others[1..] else others) + (if c == "" then [] else [c])
    ensures c !in Without(h, c)
  {
    WithoutKeepsOthers(h, c);
    PushedIsExact(Without(h, c), c, max);
  }

  lemma PersistedIsNonEmpty(c: string)
    requires ShouldPersist(c)
    ensures c != ""
  {
    assert Trim("") == "";
  }

  lemma StorableIsNonEmpty(c: string)
    requires Storable(c)
    ensures c != ""
  {
    StorableExactly(c);
    PersistedIsNonEmpty(c);
  }

  lemma SkippedExactly(h: seq<string>, c: string)
    ensures Skipped(h, c) <==> !Storable(c) || (h != [] && h[|h| - 1] == c)
  {
    StorableExactly(c);
  }

  /** An append adds its command at the end and loses at most the oldest entry, or changes nothing. */
  lemma AppendIsExact(h: seq<string>, c: string, max: nat)
    requires IsLoaded(h, max) && max >= 1
    ensures Apply(h, Append(c), max) ==
            if !Storable(c) || (h != [] && h[|h| - 1] == c) then h else (if |h| == max then h[1..] else h) + [c]
  {
    StorableExactly(c);
    if !Skipped(h, c) {
      PersistedIsNonEmpty(c);
      PushedIsExact(h, c, max);
    }
  }

  ghost predicate NeighboursDiffer(h: seq<string>) {
    forall k :: 0 <= k < |h| - 1 ==> h[k] != h[k + 1]
  }

  lemma AppendKeepsNeighbours(h: seq<string>, c: string, max: nat)
    requires IsLoaded(h, max) && NeighboursDiffer(h)
    ensures NeighboursDiffer(Apply(h, Append(c), max))
  {
    if !Skipped(h, c) {
      PushKeepsNeighbours(h, c, max);
    }
  }

  lemma PushKeepsNeighbours(h: seq<string>, c: string, max: nat)
    requires IsLoaded(h, max) && NeighboursDiffer(h) && (h != [] ==> h[|h| - 1] != c)
    ensures NeighboursDiffer(Pushed(h, c, max))
  {
    if max == 0 {
      PushedIsLoaded(h, c, max);
    } else {
      var kept := if |h| == max then h[1..] else h;
      PushedIsExact(h, c, max);
      LastDecides(kept, c);
      assert kept + [] == kept;
    }
  }

  lemma LastDecides(h: seq<string>, c: string)
    ensures NeighboursDiffer(h + [c]) <==> NeighboursDiffer(h) && (h != [] ==> h[|h| - 1] != c)
  {
    var all := h + [c];
    if NeighboursDiffer(all) {
      forall k | 0 <= k < |h| - 1 ensures h[k] != h[k + 1] {
        assert all[k] != all[k + 1];
      }
      assert h != [] ==> all[|h| - 1] != all[|h|];
    }
  }

  /** Somewhere `c` stands alone between two equal entries. */
  predicate JoinsAt(h: seq<string>, c: string, i: int) {
    0 < i < |h| - 1 && h[i] == c && h[i - 1] == h[i + 1]
  }

  ghost predicate Joins(h: seq<string>, c: string) {
    exists i :: JoinsAt(h, c, i)
  }

  lemma {:induction false} LastOfWithout(h: seq<string>, c: string)
    requires h != [] && h[|h| - 1] != c
    ensures Without(h, c) != [] && Without(h, c)[|Without(h, c)| - 1] == h[|h| - 1]
  {
    var last := |h| - 1;
    assert h == h[..last] + [h[last]];
    WithoutLast(h[..last], h[last], c);
  }

  /** With different neighbours, one more entry at the end joins exactly when it repeats the one before a last `c`. */
  lemma JoinsAtEnd(h: seq<string>, e: string, c: string)
    requires NeighboursDiffer(h + [e])
    ensures Joins(h + [e], c) <==>
            Joins(h, c) || (|h| >= 2 && h[|h| - 1] == c && h[|h| - 2] == e)
  {
    var all := h + [e];
    if Joins(all, c) {
      var i :| JoinsAt(all, c, i);
      assert i < |h| - 1 ==> JoinsAt(h, c, i);
    }
    if Joins(h, c) {
      var i :| JoinsAt(h, c, i);
      assert JoinsAt(all, c, i);
    }
    if |h| >= 2 && h[|h| - 1] == c && h[|h| - 2] == e {
      assert JoinsAt(all, c, |h| - 1);
    }
  }

  /** The last entry other than `c`, where no two `c` stand side by side. */
  lemma LastOther(h: seq<string>, c: string)
    requires NeighboursDiffer(h) && h != [] && h[|h| - 1] == c
    ensures if |h| == 1 then Without(h, c) == []
            else Without(h, c) != [] && Without(h, c)[|Without(h, c)| - 1] == h[|h| - 2]
  {
    var last := |h| - 1;
    assert h == h[..last] + [c];
    WithoutLast(h[..last], c, c);
    if |h| > 1 {
      assert h[last - 1] != h[last];
      LastOfWithout(h[..last], c);
    }
  }

  lemma {:induction false} WithoutJoins(h: seq<string>, c: string)
    requires NeighboursDiffer(h)
    ensures NeighboursDiffer(Without(h, c)) <==> !Joins(h, c)
  {
    if h != [] {
      var last := |h| - 1;
      var front, e := h[..last], h[last];
      assert h == front + [e];
      LastDecides(front, e);
      WithoutJoins(front, c);
      WithoutLast(front, e, c);
      JoinsAtEnd(front, e, c);
      if e != c {
        LastDecides(Without(front, c), e);
        if front != [] {
          if front[|front| - 1] == c {
            LastOther(front, c);
          } else {
            LastOfWithout(front, c);
          }
        }
      } else {
        assert Without(front, c) + [] == Without(front, c);
      }
    }
  }

  lemma TailDiffers(h: seq<string>)
    requires h != [] && NeighboursDiffer(h)
    ensures NeighboursDiffer(h[1..])
  {
    forall k | 0 <= k < |h[1..]| - 1 ensures h[1..][k] != h[1..][k + 1] {
      assert h[k + 1] != h[k + 2];
    }
  }

  lemma PushedDiffers(h: seq<string>, c: string)
    requires c !in h
    ensures NeighboursDiffer(h + (if c == "" then [] else [c])) <==> NeighboursDiffer(h)
  {
    LastDecides(h, c);
    assert h + [] == h;
    assert h != [] ==> h[|h| - 1] in h;
  }

  /** A move keeps neighbours different exactly when its command stands nowhere between two equal entries. */
  lemma MoveKeepsNeighboursExactly(h: seq<string>, c: string, max: nat)
    requires IsLoaded(h, max) && NeighboursDiffer(h)
    ensures NeighboursDiffer(Apply(h, MoveToEnd(c), max)) <==> !Joins(h, c)
  {
    if max == 0 {
      ApplyKeepsLoaded(h, MoveToEnd(c), max);
    } else {
      MoveToEndIsExact(h, c, max);
      WithoutKeepsOthers(h, c);
      WithoutJoins(h, c);
      var others := Without(h, c);
      if |h| == max && c !in h {
        TailDiffers(h);
        PushedDiffers(h[1..], c);
      } else {
        PushedDiffers(others, c);
      }
    }
  }

  /** No move of the run joins. */
  ghost predicate NoJoins(h: seq<string>, ops: seq<Op>, max: nat)
    decreases |ops|
  {
    ops != [] ==>
      && !(ops[0].MoveToEnd? && Joins(h, ops[0].command))
      && NoJoins(Apply(h, ops[0], max), ops[1..], max)
  }

  ghost predicate AlwaysDiffer(h: seq<string>, ops: seq<Op>, max: nat)
    decreases |ops|
  {
    NeighboursDiffer(h) && (ops != [] ==> AlwaysDiffer(Apply(h, ops[0], max), ops[1..], max))
  }

  lemma StepKeepsNeighboursExactly(h: seq<string>, op: Op, max: nat)
    requires IsLoaded(h, max) && NeighboursDiffer(h)
    ensures NeighboursDiffer(Apply(h, op, max)) <==> !(op.MoveToEnd? && Joins(h, op.command))
  {
    match op
    case Append(c) => AppendKeepsNeighbours(h, c, max);
    case MoveToEnd(c) => MoveKeepsNeighboursExactly(h, c, max);
    case Clear =>
  }

  /** All lists of a run have different neighbours if and only if none of its moves joins. */
  lemma {:induction false} NeighboursDifferExactly(h: seq<string>, ops: seq<Op>, max: nat)
    requires IsLoaded(h, max) && NeighboursDiffer(h)
    ensures AlwaysDiffer(h, ops, max) <==> NoJoins(h, ops, max)
    decreases |ops|
  {
    if ops != [] {
      ApplyKeepsLoaded(h, ops[0], max);
      StepKeepsNeighboursExactly(h, ops[0], max);
      if NeighboursDiffer(Apply(h, ops[0], max)) {
        NeighboursDifferExactly(Apply(h, ops[0], max), ops[1..], max);
      }
    }
  }

  predicate NoMoves(ops: seq<Op>) {
    forall k :: 0 <= k < |ops| ==> !ops[k].MoveToEnd?
  }

  lemma {:induction false} RunsWithoutMovesJoinNothing(h: seq<string>, ops: seq<Op>, max: nat)
    requires NoMoves(ops)
    ensures NoJoins(h, ops, max)
    decreases |ops|
  {
    if ops != [] {
      RunsWithoutMovesJoinNothing(Apply(h, ops[0], max), ops[1..], max);
    }
  }

  /** From any loaded list: the length bound always, different neighbours as long as no move joins. */
  lemma {:induction false} RunKeeps(h: seq<string>, ops: seq<Op>, max: nat)
    requires IsLoaded(h, max)
    ensures IsLoaded(Run(h, ops, max), max)
    ensures NeighboursDiffer(h) && NoJoins(h, ops, max) ==> NeighboursDiffer(Run(h, ops, max))
    decreases |ops|
  {
    if ops != [] {
      ApplyKeepsLoaded(h, ops[0], max);
      if NeighboursDiffer(h) {
        StepKeepsNeighboursExactly(h, ops[0], max);
      }
      RunKeeps(Apply(h, ops[0], max), ops[1..], max);
    }
  }

  lemma AppendNew(h: seq<string>, c: string, max: nat)
    requires IsLoaded(h, max) && |h| < max && Storable(c) && (h != [] ==> h[|h| - 1] != c)
    ensures Apply(h, Append(c), max) == h + [c]
  {
    AppendIsExact(h, c, max);
  }

  lemma MovedOut(a: string, b: string, max: nat)
    requires a != b && a != "" && b != "" && max >= 3
    ensures Apply([a, b, a], MoveToEnd(b), max) == [a, a, b]
  {
    var h := [a, b, a];
    assert h == ([a] + [b]) + [a];
    WithoutLast([a] + [b], a, b);
    WithoutLast([a], b, b);
    assert Without([a], b) == [a];
    MoveToEndIsExact(h, b, max);
  }

  lemma AppendedInTurn(a: string, b: string, max: nat)
    requires a != b && Storable(a) && Storable(b) && max >= 3
    ensures Apply([], Append(a), max) == [a]
    ensures Apply([a], Append(b), max) == [a, b]
    ensures Apply([a, b], Append(a), max) == [a, b, a]
  {
    StorableIsNonEmpty(a);
    StorableIsNonEmpty(b);
    AppendNew([], a, max);
    AppendNew([a], b, max);
    AppendNew([a, b], a, max);
  }

  /** A run that fails: two commands, appended in turn, then the one in the middle moved. */
  lemma MoveCanJoinEqualNeighbours(a: string, b: string, max: nat)
    requires a != b && Storable(a) && Storable(b) && max >= 3
    ensures Run([], [Append(a), Append(b), Append(a), MoveToEnd(b)], max) == [a, a, b]
    ensures !NeighboursDiffer([a, a, b])
  {
    AppendedInTurn(a, b, max);
    StorableIsNonEmpty(a);
    StorableIsNonEmpty(b);
    MovedOut(a, b, max);
    FourSteps([], [Append(a), Append(b), Append(a), MoveToEnd(b)], max);
    assert [a, a, b][0] == [a, a, b][1];
  }

  lemma FourSteps(h: seq<string>, ops: seq<Op>, max: nat)
    requires |ops| == 4
    ensures Run(h, ops, max) == Apply(Apply(Apply(Apply(h, ops[0], max), ops[1], max), ops[2], max), ops[3], max)
  {
    assert ops[1..][1..] == ops[2..] && ops[2..][1..] == ops[3..] && ops[3..][1..] == [];
    var h1 := Apply(h, ops[0], max);
    var h2 := Apply(h1, ops[1], max);
    var h3 := Apply(h2, ops[2], max);
    assert Run(h3, ops[3..], max) == Apply(h3, ops[3], max);
    assert Run(h2, ops[2..], max) == Run(h3, ops[3..], max);
    assert Run(h1, ops[1..], max) == Run(h2, ops[2..], max);
  }

  /** Every command moved by hand was stored already or may be stored. */
  ghost predicate MovesAreStored(h: seq<string>, ops: seq<Op>, max: nat)
    decreases |ops|
  {
    ops != [] ==>
      && (ops[0].MoveToEnd? ==> ops[0].command in h || Storable(ops[0].command))
      && MovesAreStored(Apply(h, ops[0], max), ops[1..], max)
  }

  /** Then no command with a secret in it is ever on disk, however long the run. */
  lemma {:induction false} NothingSensitiveStored(h: seq<string>, ops: seq<Op>, max: nat)
    requires IsLoaded(h, max) && MovesAreStored(h, ops, max)
    requires forall e :: e in h ==> Storable(e)
    ensures forall e :: e in Run(h, ops, max) ==> Storable(e)
    decreases |ops|
  {
    if ops != [] {
      ApplyKeepsLoaded(h, ops[0], max);
      forall e | e in Apply(h, ops[0], max) ensures Storable(e) {
        if e !in h {
          assert e == ops[0].command;
          StorableExactly(e);
        }
      }
      NothingSensitiveStored(Apply(h, ops[0], max), ops[1..], max);
    }
  }

  // ---------------------------------------------------------------------------------------------
  // The history file
  // ---------------------------------------------------------------------------------------------

  method Retain(history: seq<string>, command: string) returns (kept: seq<string>)
    ensures kept == Without(history, command)
  {
    kept := [];
    assert history[0..] == history;
    for i := 0 to |history|
      invariant kept + Without(history[i..], command) == Without(history, command)
    {
      assert history[i..][1..] == history[i + 1..];
      if history[i] != command {
        var rest := Without(history[i + 1..], command);
        assert kept + ([history[i]] + rest) == kept + [history[i]] + rest;
        kept := kept + [history[i]];
      }
    }
  }

  /** The checks an append makes before it writes. */
  method Skips(history: seq<string>, command: string) returns (skip: bool)
    ensures skip == Skipped(history, command)
  {
    if Trim(command) == "" {
      return true;
    }
    if !ShouldPersist(command) {
      return true;
    }
    skip := history != [] && history[|history| - 1] == command;
  }

  class CommandHistory {
    const max: nat
    var file: Option<Bytes>

    ghost function Entries(): Result<seq<string>, string>
      reads this
    {
      Loaded(file, max)
    }

    constructor (max: nat)
      ensures this.max == max && file == None
    {
      this.max, this.file := max, None;
    }

    method Load() returns (r: Result<seq<string>, string>)
      ensures r == Loaded(file, max)
      ensures r.Ok? ==> IsLoaded(r.value, max)
    {
      if file.None? {
        return Ok([]);
      }
      var text := Utf8.Decode(file.value);
      if text.None? {
        return Err("Failed to read history file");
      }
      ParsedAreLoaded(text.value, max);
      r := Ok(Newest(ParseEntries(text.value), max));
    }

    /** `refused` stands for a failure of the atomic write, which leaves the file as it was. */
    method Save(history: seq<string>, refused: bool) returns (ok: bool)
      modifies this
      ensures ok == !refused
      ensures if ok then Entries() == Ok(NonEmpty(Newest(history, max))) else file == old(file)
      ensures ok ==> file == Some(Utf8.Encode(SavedText(history, max)))
    {
      ok := !refused;
      if ok {
        file := Some(Utf8.Encode(SavedText(history, max)));
        LoadUndoesSave(history, max);
      }
    }

    method Append(command: string, refused: bool) returns (ok: bool)
      modifies this
      ensures ok <==> old(Entries()).Ok? && (Skipped(old(Entries()).value, command) || !refused)
      ensures !ok || Skipped(old(Entries()).value, command) ==> file == old(file)
      ensures ok ==> Entries() == Ok(Apply(old(Entries()).value, Op.Append(command), max))
      ensures !Storable(command) ==> file == old(file)
      ensures ok && Storable(command) && max >= 1 ==>
                var h := old(Entries()).value;
                Entries() == if h != [] && h[|h| - 1] == command then Ok(h)
                             else Ok((if |h| == max then h[1..] else h) + [command])
    {
      var loaded := Load();
      if loaded.Err? {
        return false;
      }
      var history := loaded.value;
      SkippedExactly(history, command);
      if max >= 1 {
        AppendIsExact(history, command, max);
      }
      var skip := Skips(history, command);
      if skip {
        return true;
      }
      ok := Save(history + [command], refused);
    }

    method DeduplicateAndMoveToEnd(command: string, refused: bool) returns (ok: bool)
      modifies this
      ensures ok <==> old(Entries()).Ok? && !refused
      ensures !ok ==> file == old(file)
      ensures ok ==> Entries() == Ok(Apply(old(Entries()).value, MoveToEnd(command), max))
    {
      var loaded := Load();
      if loaded.Err? {
        return false;
      }
      var history := loaded.value;
      var kept := Retain(history, command);
      ok := Save(kept + [command], refused);
    }

    /** `refused` stands for a failure to remove the file. */
    method ClearHistory(refused: bool) returns (ok: bool)
      modifies this
      ensures ok <==> old(file).None? || !refused
      ensures if ok then file == None && Entries() == Ok([]) else file == old(file)
      ensures ok && old(Entries()).Ok? ==> Entries() == Ok(Apply(old(Entries()).value, Clear, max))
    {
      ok := true;
      if file.Some? {
        if refused {
          return false;
        }
        file := None;
      }
    }
  }
}
