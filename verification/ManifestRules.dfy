/**
 What ends up in the version manifest, in plain words: the fields of an entry, which version counts as published,
 what an archived release says, and how stable a version is called.
 */
module ManifestRules {
  import opened Wrappers
  import opened Text
  import opened Manifest

  // ---------------------------------------------------------------------------------------------
  // Entries
  // ---------------------------------------------------------------------------------------------

  predicate IsManaged(key: string) {
    || key == "version" || key == "published" || key == "compatible_core" || key == "protocol" || key == "depends_on"
  }

  /** The dependencies of a package, as an object of texts. */
  ghost predicate ListsDependencies(json: Json, dependsOn: map<string, string>) {
    && json.Obj? && json.fields.Keys == dependsOn.Keys
    && forall k :: k in dependsOn ==> json.fields[k] == Str(dependsOn[k])
  }

  /** The entry has the package's own data, the protocol, and of the old entry all that is not managed. */
  ghost predicate IsEntryOf(entry: Entry, old_: Entry, p: Package) {
    && "version" in entry && entry["version"] == Str(p.version)
    && "compatible_core" in entry && entry["compatible_core"] == Str(p.compatibleCore)
    && "protocol" in entry && entry["protocol"] == Str("v1")
    && "published" in entry && entry["published"].Str?
    && ("depends_on" in entry <==> p.dependsOn != map[])
    && ("depends_on" in entry ==> ListsDependencies(entry["depends_on"], p.dependsOn))
    && forall k :: !IsManaged(k) ==> (k in entry <==> k in old_) && (k in entry ==> entry[k] == old_[k])
  }

  lemma ManagedKeys(key: string)
    ensures key in MANAGED_KEYS <==> IsManaged(key)
  {
  }

  lemma EntryHasFields(old_: Entry, p: Package)
    ensures IsEntryOf(Rebuilt(old_, p), old_, p)
  {
    var entry := Rebuilt(old_, p);
    EntryForFields(PublishedOr(old_, p.version), ExtraFields(old_), p);
    forall k ensures k in MANAGED_KEYS <==> IsManaged(k) {
      ManagedKeys(k);
    }
    assert "depends_on" !in ExtraFields(old_) && "protocol" !in ExtraFields(old_);
    assert "compatible_core" !in ExtraFields(old_);
    forall k | !IsManaged(k) ensures (k in entry <==> k in old_) && (k in entry ==> entry[k] == old_[k]) {
      assert k in ExtraFields(old_) <==> k in old_;
    }
  }

  // ---------------------------------------------------------------------------------------------
  // The published version
  // ---------------------------------------------------------------------------------------------

  /** `text` is what is left of `s` without the white space around it, and that is something. */
  ghost predicate IsCore(s: string, text: string) {
    text != "" && Trimmed(text, IsStripSpace) && exists before, after :: Surrounds(before, text, after, s)
  }

  predicate Surrounds(before: string, text: string, after: string, s: string) {
    s == before + text + after && AllDropped(before, IsStripSpace) && AllDropped(after, IsStripSpace)
  }

  lemma StripExactly(s: string, text: string)
    ensures text != "" && Strip(s) == text <==> IsCore(s, text)
  {
    if IsCore(s, text) {
      var before, after :| Surrounds(before, text, after, s);
      TrimByIs(before, text, after, IsStripSpace);
    }
    if text != "" && Strip(s) == text {
      var before, after := TrimByParts(s, IsStripSpace);
      assert Surrounds(before, text, after, s);
    }
  }

  /** The entry has `text` under `key`, white space around it aside. */
  ghost predicate HasText(entry: Entry, key: string, text: string) {
    key in entry && entry[key].Str? && IsCore(entry[key].s, text)
  }

  lemma UsableExactly(entry: Entry, key: string, text: string)
    ensures UsableText(entry, key) == Some(text) <==> HasText(entry, key, text)
  {
    if key in entry && entry[key].Str? {
      StripExactly(entry[key].s, text);
    }
  }

  ghost predicate HasNoText(entry: Entry, key: string) {
    forall text :: !HasText(entry, key, text)
  }

  lemma UnusableExactly(entry: Entry, key: string)
    ensures UsableText(entry, key) == None <==> HasNoText(entry, key)
  {
    if UsableText(entry, key).Some? {
      UsableExactly(entry, key, UsableText(entry, key).value);
    }
    forall text | HasText(entry, key, text) ensures UsableText(entry, key) == Some(text) {
      UsableExactly(entry, key, text);
    }
  }

  /** A sync keeps the published version on record, or else the version on record, or else takes the new version. */
  lemma PublishedRules(old_: Entry, p: Package, text: string)
    ensures var published := Rebuilt(old_, p)["published"];
            && (HasText(old_, "published", text) ==> published == Str(text))
            && (HasNoText(old_, "published") && HasText(old_, "version", text) ==> published == Str(text))
            && (HasNoText(old_, "published") && HasNoText(old_, "version") ==> published == Str(p.version))
  {
    EntryForFields(PublishedOr(old_, p.version), ExtraFields(old_), p);
    UsableExactly(old_, "published", text);
    UsableExactly(old_, "version", text);
    UnusableExactly(old_, "published");
    UnusableExactly(old_, "version");
  }

  // ---------------------------------------------------------------------------------------------
  // Marking
  // ---------------------------------------------------------------------------------------------

  /** The text a mark puts on record: the version given, or without one the version in the entry. */
  ghost predicate IsMark(entry: Entry, version: Option<string>, text: string) {
    if version.Some? && version.value != "" then IsCore(version.value, text) else HasText(entry, "version", text)
  }

  lemma MarkTextExactly(entry: Entry, version: Option<string>, text: string)
    ensures MarkText(entry, version) == Some(text) <==> IsMark(entry, version, text)
  {
    if version.Some? && version.value != "" {
      StripExactly(version.value, text);
    } else {
      UsableExactly(entry, "version", text);
    }
  }

  ghost predicate CanMark(record: map<string, Json>, name: string, version: Option<string>) {
    name in record && record[name].Obj? && exists text :: IsMark(record[name].fields, version, text)
  }

  lemma MarkOneExactly(record: map<string, Json>, name: string, version: Option<string>)
    ensures MarkOne(record, name, version).Some? <==> CanMark(record, name, version)
  {
    if name in record && record[name].Obj? {
      var entry := record[name].fields;
      if MarkText(entry, version).Some? {
        MarkTextExactly(entry, version, MarkText(entry, version).value);
      }
      forall text | IsMark(entry, version, text) ensures MarkText(entry, version) == Some(text) {
        MarkTextExactly(entry, version, text);
      }
    }
  }

  lemma MarkTextStays(entry: Entry, version: Option<string>, text: string)
    ensures MarkText(entry["published" := Str(text)], version) == MarkText(entry, version)
  {
    assert "published"[0] != "version"[0];
  }

  lemma MarkOneStaysPossible(record: map<string, Json>, name: string, version: Option<string>, other: string)
    requires MarkOne(record, name, version).Some?
    ensures MarkOne(MarkOne(record, name, version).value, other, version).Some? <==>
            MarkOne(record, other, version).Some?
  {
    var entry, next := record[name].fields, MarkOne(record, name, version).value;
    var text := MarkText(entry, version);
    if other == name {
      MarkTextStays(entry, version, text.value);
      assert next[name].fields == entry["published" := Str(text.value)];
    } else {
      assert other in next <==> other in record;
      assert other in record ==> next[other] == record[other];
    }
  }

  lemma {:induction false} MarkAllIsEachPossible(record: map<string, Json>, names: seq<string>,
                                                 version: Option<string>)
    ensures MarkAll(record, names, version).Some? <==>
            forall k :: 0 <= k < |names| ==> MarkOne(record, names[k], version).Some?
    decreases |names|
  {
    if names != [] && MarkOne(record, names[0], version).Some? {
      var next := MarkOne(record, names[0], version).value;
      MarkAllIsEachPossible(next, names[1..], version);
      forall k | 1 <= k < |names|
        ensures MarkOne(next, names[1..][k - 1], version).Some? <==> MarkOne(record, names[k], version).Some?
      {
        MarkOneStaysPossible(record, names[0], version, names[k]);
      }
    }
  }

  /** Marking succeeds exactly when every selected package exists and has a text to mark it with. */
  lemma MarkSucceedsExactly(record: map<string, Json>, names: seq<string>, version: Option<string>)
    ensures MarkAll(record, names, version).Some? <==>
            forall k :: 0 <= k < |names| ==> CanMark(record, names[k], version)
  {
    MarkAllIsEachPossible(record, names, version);
    forall k | 0 <= k < |names|
      ensures MarkOne(record, names[k], version).Some? <==> CanMark(record, names[k], version)
    {
      MarkOneExactly(record, names[k], version);
    }
  }

  function Published(entry: Entry, text: string): Json {
    Obj(entry["published" := Str(text)])
  }

  lemma MarkIsKept(entry: Entry, version: Option<string>, text: string)
    requires IsMark(entry, version, text)
    ensures IsMark(Published(entry, text).fields, version, text)
    ensures Published(Published(entry, text).fields, text) == Published(entry, text)
  {
    var once := entry["published" := Str(text)];
    assert once["published" := Str(text)] == once;
  }

  lemma MarkedOnce(record: map<string, Json>, name: string, version: Option<string>, text: string)
    requires name in record && record[name].Obj? && IsMark(record[name].fields, version, text)
    ensures MarkOne(record, name, version) == Some(record[name := Published(record[name].fields, text)])
  {
    MarkTextExactly(record[name].fields, version, text);
  }

  /** Of a marked entry only the published version changes. */
  lemma {:induction false} MarkedEntry(record: map<string, Json>, names: seq<string>, version: Option<string>,
                                       name: string, text: string)
    requires MarkAll(record, names, version).Some? && name in names
    requires name in record && record[name].Obj? && IsMark(record[name].fields, version, text)
    ensures var marked := MarkAll(record, names, version).value;
            name in marked && marked[name] == Published(record[name].fields, text)
    decreases |names|
  {
    var next := MarkOne(record, names[0], version).value;
    assert MarkAll(record, names, version) == MarkAll(next, names[1..], version);
    if names[0] == name {
      MarkedOnce(record, name, version, text);
      MarkIsKept(record[name].fields, version, text);
      if name !in names[1..] {
        MarkAllKeepsOthers(next, names[1..], version, name);
      } else {
        MarkedEntry(next, names[1..], version, name, text);
      }
    } else {
      assert next[name] == record[name];
      MarkedEntry(next, names[1..], version, name, text);
    }
  }

  /** The manifest has an object under `group`, and every selected package in it can be marked. */
  ghost predicate CanMarkGroup(m: Manifest, group: string, selected: seq<string>, version: Option<string>) {
    && group in m.packages && m.packages[group].Obj?
    && forall k :: 0 <= k < |selected| ==> CanMark(m.packages[group].fields, selected[k], version)
  }

  /** A mark succeeds exactly if that is so, and a mark that fails leaves the manifest as it is. */
  lemma MarkPublishedExactly(m: Manifest, group: string, selected: seq<string>, version: Option<string>)
    ensures MarkPublished(m, group, selected, version).Some? <==> CanMarkGroup(m, group, selected, version)
    ensures !CanMarkGroup(m, group, selected, version) ==> Apply(Some(m), Mark(group, selected, version)) == Some(m)
    ensures Apply(None, Mark(group, selected, version)) == None
  {
    if group in m.packages && m.packages[group].Obj? {
      MarkSucceedsExactly(m.packages[group].fields, selected, version);
    }
  }

  /** The entry of `name` in `group` of the manifest is `entry`. */
  predicate HasEntry(m: Manifest, group: string, name: string, entry: Json) {
    group in m.packages && m.packages[group].Obj? && name in m.packages[group].fields
    && m.packages[group].fields[name] == entry
  }

  /** Each selected package then has the text it was to be marked with as its published version, and on record. */
  lemma MarkReachesSelected(m: Manifest, group: string, selected: seq<string>, version: Option<string>, name: string,
                            entry: Entry, text: string)
    requires CanMarkGroup(m, group, selected, version) && name in selected
    requires HasEntry(m, group, name, Obj(entry)) && IsMark(entry, version, text)
    ensures var m' := Apply(Some(m), Mark(group, selected, version));
            && m' == MarkPublished(m, group, selected, version) && m'.Some?
            && HasEntry(m'.value, group, name, Obj(entry["published" := Str(text)]))
            && OnRecord(m', group, name) == Some(text)
  {
    MarkPublishedExactly(m, group, selected, version);
    MarkedEntry(m.packages[group].fields, selected, version, name, text);
    PublishedIsOnRecord(entry, version, text);
  }

  /** A mark has nothing left to strip. */
  lemma MarkIsStripped(entry: Entry, version: Option<string>, text: string)
    requires IsMark(entry, version, text)
    ensures text != "" && Strip(text) == text
  {
    if version.Some? && version.value != "" {
      StripExactly(version.value, text);
      StripTwice(version.value);
    } else {
      UsableExactly(entry, "version", text);
      StripTwice(entry["version"].s);
    }
  }

  lemma PublishedIsOnRecord(entry: Entry, version: Option<string>, text: string)
    requires IsMark(entry, version, text)
    ensures RecordedVersion(entry["published" := Str(text)]) == Some(text)
  {
    MarkIsStripped(entry, version, text);
    assert UsableText(entry["published" := Str(text)], "published") == Some(text);
  }

  /** Every other package of the group keeps its entry, and none is added. */
  lemma MarkSparesOthers(m: Manifest, group: string, selected: seq<string>, version: Option<string>, name: string,
                         entry: Json)
    requires CanMarkGroup(m, group, selected, version) && name !in selected
    ensures var m' := Apply(Some(m), Mark(group, selected, version));
            m'.Some? && (HasEntry(m'.value, group, name, entry) <==> HasEntry(m, group, name, entry))
  {
    MarkPublishedExactly(m, group, selected, version);
    MarkAllKeepsOthers(m.packages[group].fields, selected, version, name);
  }

  /** Nothing else of the manifest changes. */
  lemma MarkTouchesOneGroup(m: Manifest, group: string, selected: seq<string>, version: Option<string>)
    requires MarkPublished(m, group, selected, version).Some?
    ensures var m' := MarkPublished(m, group, selected, version).value;
            && m'.latest == m.latest && m'.archived == m.archived
            && m'.packages - {group} == m.packages - {group}
  {
  }

  // ---------------------------------------------------------------------------------------------
  // Releases
  // ---------------------------------------------------------------------------------------------

  /** The release that a newer core version replaces. */
  ghost predicate IsArchiveOf(entry: Entry, latest: Channel, core: string, today: string) {
    && entry.Keys == {"core", "protocol", "released_at", "stability"}
    && entry["core"] == Str(core) && entry["released_at"] == Str(today)
    && entry["protocol"] == Str(if latest.protocol.Some? then latest.protocol.value else "v1")
    && entry["stability"] == Str(if latest.stability.Some? then latest.stability.value else VersionStability(core))
  }

  /** The latest core of `m` goes to the archive when `core` takes its place. */
  ghost predicate IsReplaced(m: Manifest, core: string) {
    && m.latest.core.Some? && m.latest.core.value != "" && m.latest.core.value != core
    && !exists k :: 0 <= k < |m.archived| && "core" in m.archived[k]
                   && m.archived[k]["core"] == Str(m.latest.core.value)
  }

  lemma ArchiveRules(m: Manifest, core: string, today: string)
    ensures var archived := AppendArchived(Some(m), core, today);
            if IsReplaced(m, core) then
              && |archived| == |m.archived| + 1 && archived[..|m.archived|] == m.archived
              && IsArchiveOf(archived[|m.archived|], m.latest, m.latest.core.value, today)
            else archived == m.archived
  {
  }

  /** A sync names the new core version as the latest and archives the old one, once, if it is another. */
  lemma SyncRules(m: Manifest, files: Files, today: string)
    requires files.consistent
    ensures var m' := Build(Some(m), files, today).value;
            && m'.latest == Channel(Some(files.core), Some("v1"), Some(VersionStability(files.core)))
            && m'.packages.Keys == files.packages.Keys
            && if IsReplaced(m, files.core) then
                 && |m'.archived| == |m.archived| + 1 && m'.archived[..|m.archived|] == m.archived
                 && IsArchiveOf(m'.archived[|m.archived|], m.latest, m.latest.core.value, today)
               else m'.archived == m.archived
  {
    ArchiveRules(m, files.core, today);
  }

  /** A sync is refused, and changes nothing, exactly if the files disagree; the first one archives nothing. */
  lemma SyncIsWritten(existing: Option<Manifest>, files: Files, today: string)
    ensures Build(existing, files, today).Ok? <==> files.consistent
    ensures Apply(existing, Sync(files, today)) ==
            if files.consistent then Some(Build(existing, files, today).value) else existing
    ensures files.consistent && existing.None? ==>
              var m := Build(existing, files, today).value;
              && m.latest == Channel(Some(files.core), Some("v1"), Some(VersionStability(files.core)))
              && m.packages.Keys == files.packages.Keys && m.archived == []
  {
  }

  /** Steps are taken one after the other. */
  lemma RunRules(e: Option<Manifest>, step: Step, steps: seq<Step>)
    ensures Run(e, []) == e && Run(e, [step] + steps) == Run(Apply(e, step), steps)
  {
    assert ([step] + steps)[1..] == steps;
  }

  /** Each package of the files has its entry, built on the one before. */
  lemma SyncedEntry(existing: Option<Manifest>, files: Files, today: string, group: string, name: string)
    requires files.consistent && group in files.packages && name in files.packages[group]
    ensures var packages := Build(existing, files, today).value.packages;
            && group in packages && packages[group].Obj? && packages[group].fields.Keys == files.packages[group].Keys
            && packages[group].fields[name].Obj?
            && IsEntryOf(packages[group].fields[name].fields, ExistingEntry(existing, group, name),
                         files.packages[group][name])
  {
    EntryHasFields(ExistingEntry(existing, group, name), files.packages[group][name]);
  }

  lemma EntryFound(m: Manifest, group: string, name: string)
    ensures group in m.packages && m.packages[group].Obj? && name in m.packages[group].fields
            && m.packages[group].fields[name].Obj? ==>
              ExistingEntry(Some(m), group, name) == m.packages[group].fields[name].fields
    ensures ExistingEntry(None, group, name) == map[]
  {
  }

  // ---------------------------------------------------------------------------------------------
  // Stability
  // ---------------------------------------------------------------------------------------------

  predicate IsDigits(s: string) {
    forall k :: 0 <= k < |s| ==> s[k] in "0123456789"
  }

  /** What a label of letters, without the number after it, says about a version. */
  ghost predicate Says(letters: string, stability: string) {
    if HasAt(letters, 0, "alpha") then stability == "alpha"
    else if HasAt(letters, 0, "beta") then stability == "beta"
    else if HasAt(letters, 0, "rc") then stability == "rc"
    else if letters == "" then stability == "pre-release"
    else |stability| == |letters| && HasAt(letters, 0, stability) && IsLowerCase(stability)
  }

  lemma LowerOfDigits(letters: string, digits: string)
    requires IsDigits(digits)
    ensures Lower(letters + digits) == Lower(letters) + digits
  {
    LowerKeepsLength(letters);
    LowerKeepsLength(letters + digits);
    forall k | 0 <= k < |letters + digits| ensures Lower(letters + digits)[k] == (Lower(letters) + digits)[k] {
      LowerAt(letters + digits, k);
      if k < |letters| {
        LowerAt(letters, k);
      } else {
        DigitChars(digits[k - |letters|]);
      }
    }
  }

  lemma LowerWithoutNumber(letters: string, digits: string)
    requires IsDigits(digits) && (letters == "" || letters[|letters| - 1] !in "0123456789")
    ensures TrimEnd(Lower(letters + digits), IsDigit) == Lower(letters)
  {
    LowerOfDigits(letters, digits);
    LowerKeepsLength(letters);
    if letters != "" {
      LowerAt(letters, |letters| - 1);
      DigitChars(letters[|letters| - 1]);
    }
    forall k | 0 <= k < |digits| ensures IsDigit(digits[k]) {
      DigitChars(digits[k]);
    }
    TrimEndIs(Lower(letters), digits, IsDigit);
  }

  lemma LowerSays(letters: string)
    ensures |Lower(letters)| == |letters| && IsLowerCase(Lower(letters)) && HasAt(letters, 0, Lower(letters))
    ensures "alpha" <= Lower(letters) <==> HasAt(letters, 0, "alpha")
    ensures "beta" <= Lower(letters) <==> HasAt(letters, 0, "beta")
    ensures "rc" <= Lower(letters) <==> HasAt(letters, 0, "rc")
  {
    LowerKeepsLength(letters);
    forall j | 0 <= j < |letters|
      ensures SameLetter(letters[j], Lower(letters)[j]) && !('A' <= Lower(letters)[j] <= 'Z')
    {
      LowerAt(letters, j);
    }
    assert Lower(letters)[0..] == Lower(letters);
    LowerHasAt(letters, 0, "alpha");
    LowerHasAt(letters, 0, "beta");
    LowerHasAt(letters, 0, "rc");
  }

  lemma LabelFollowsDash(core: string, tail: string)
    requires '-' !in core
    ensures VersionStability(core + "-" + tail) ==
            LabelStability(TrimEnd(Lower(Split(tail, ".")[0]), IsDigit))
  {
    var version := core + "-" + tail;
    FindAfter(core, "-", tail);
    assert version[|core| + 1..] == tail && version[|core|] == '-';
  }

  lemma LabelIsLetters(core: string, letters: string, digits: string, rest: string)
    requires '-' !in core && '.' !in letters && IsDigits(digits) && (rest == "" || rest[0] == '.')
    requires letters == "" || letters[|letters| - 1] !in "0123456789"
    ensures VersionStability(core + "-" + (letters + digits + rest)) == LabelStability(Lower(letters))
  {
    LabelFollowsDash(core, letters + digits + rest);
    forall k | 0 <= k < |digits| ensures digits[k] != '.' {
      DigitChars(digits[k]);
    }
    FirstPart(letters + digits, rest);
    LowerWithoutNumber(letters, digits);
  }

  /** Without a dash a version is stable; otherwise the letters after the first dash decide. */
  lemma StabilityRules(core: string, letters: string, digits: string, rest: string)
    requires '-' !in core && '.' !in letters && IsDigits(digits) && (rest == "" || rest[0] == '.')
    requires letters == "" || letters[|letters| - 1] !in "0123456789"
    ensures VersionStability(core) == if core == "main" then "dev" else "stable"
    ensures Says(letters, VersionStability(core + "-" + (letters + digits + rest)))
  {
    FindNowhere(core, "-");
    LabelIsLetters(core, letters, digits, rest);
    LowerSays(letters);
  }

  lemma FirstPart(tag: string, rest: string)
    requires '.' !in tag && (rest == "" || rest[0] == '.')
    ensures Split(tag + rest, ".")[0] == tag
  {
    if rest == "" {
      assert tag + rest == tag;
      FindNowhere(tag, ".");
    } else {
      var whole := tag + "." + rest[1..];
      assert tag + rest == whole;
      FindAfter(tag, ".", rest[1..]);
      assert Split(whole, ".")[0] == whole[..|tag|];
    }
  }
}
