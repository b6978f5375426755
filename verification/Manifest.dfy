/** The root version manifest: regenerated from the package files, keeping what only the manifest knows. */
module Manifest {
  import opened Wrappers
  import opened Text

  datatype Json =
    | Null
    | Bool(b: bool)
    | Num(n: int)
    | Str(s: string)
    | Arr(items: seq<Json>)
    | Obj(fields: map<string, Json>)

  type Entry = map<string, Json>

  const PROTOCOL := "v1"
  const MANAGED_KEYS := {"version", "published", "compatible_core", "protocol", "depends_on"}

  datatype Channel = Channel(core: Option<string>, protocol: Option<string>, stability: Option<string>)

  /** The parts of the manifest that depend on its previous contents. */
  datatype Manifest = Manifest(latest: Channel, archived: seq<Entry>, packages: map<string, Json>)

  /** What a package file says about one package. */
  datatype Package = Package(version: string, compatibleCore: string, dependsOn: map<string, string>)

  /** `consistent` says that the version files agree with each other. */
  datatype Files = Files(core: string, consistent: bool, packages: map<string, map<string, Package>>)

  predicate IsStripSpace(c: char) {
    IsSpace(c) || 0x1C <= c as int <= 0x1F
  }

  lemma StripSpacesExactly(c: char)
    ensures IsStripSpace(c) <==> IsSpace(c) || c in "\U{1C}\U{1D}\U{1E}\U{1F}"
  {
  }

  function Strip(s: string): string {
    TrimBy(s, IsStripSpace)
  }

  predicate IsDigit(c: char) {
    '0' <= c <= '9'
  }

  function VersionStability(version: string): string {
    if version == "main" then "dev"
    else
      var dash := Find(version, "-");
      if dash.None? then "stable"
      else LabelStability(TrimEnd(Lower(Split(version[dash.value + 1..], ".")[0]), IsDigit))
  }

  function LabelStability(tag: string): string {
    if "alpha" <= tag then "alpha"
    else if "beta" <= tag then "beta"
    else if "rc" <= tag then "rc"
    else if tag == "" then "pre-release"
    else tag
  }

  // ---------------------------------------------------------------------------------------------
  // Building
  // ---------------------------------------------------------------------------------------------

  function ExistingEntry(existing: Option<Manifest>, group: string, name: string): Entry {
    if existing.None? || group !in existing.value.packages || !existing.value.packages[group].Obj? then map[]
    else
      var record := existing.value.packages[group].fields;
      if name in record && record[name].Obj? then record[name].fields else map[]
  }

  function UsableText(entry: Entry, key: string): Option<string> {
    if key in entry && entry[key].Str? && Strip(entry[key].s) != "" then Some(Strip(entry[key].s)) else None
  }

  /** The published version on record, or else the version on record. */
  function RecordedVersion(entry: Entry): Option<string> {
    if UsableText(entry, "published").Some? then UsableText(entry, "published") else UsableText(entry, "version")
  }

  function PublishedOr(entry: Entry, current: string): string {
    var recorded := RecordedVersion(entry);
    if recorded.Some? then recorded.value else current
  }

  function ExtraFields(entry: Entry): Entry {
    entry - MANAGED_KEYS
  }

  function DependsOn(dependsOn: map<string, string>): Json {
    Obj(map k | k in dependsOn :: Str(dependsOn[k]))
  }

  function EntryFor(published: string, extra: Entry, p: Package): Entry {
    map["version" := Str(p.version),
        "published" := Str(published),
        "compatible_core" := Str(p.compatibleCore),
        "protocol" := Str(PROTOCOL)]
    + extra
    + (if p.dependsOn != map[] then map["depends_on" := DependsOn(p.dependsOn)] else map[])
  }

  /** A new entry for a package on top of the old one. */
  function Rebuilt(entry: Entry, p: Package): Entry {
    EntryFor(PublishedOr(entry, p.version), ExtraFields(entry), p)
  }

  function BuildEntry(existing: Option<Manifest>, group: string, name: string, p: Package): Entry {
    Rebuilt(ExistingEntry(existing, group, name), p)
  }

  predicate HasCore(entry: Entry, core: string) {
    "core" in entry && entry["core"] == Str(core)
  }

  predicate IsArchived(archived: seq<Entry>, core: string) {
    exists k :: 0 <= k < |archived| && HasCore(archived[k], core)
  }

  function OrElse(text: Option<string>, default: string): string {
    if text.Some? then text.value else default
  }

  function ArchivedRelease(latest: Channel, core: string, today: string): Entry {
    map["core" := Str(core),
        "protocol" := Str(OrElse(latest.protocol, PROTOCOL)),
        "released_at" := Str(today),
        "stability" := Str(OrElse(latest.stability, VersionStability(core)))]
  }

  function AppendArchived(existing: Option<Manifest>, core: string, today: string): seq<Entry> {
    if existing.None? then []
    else
      var m := existing.value;
      if m.latest.core.None? || m.latest.core.value == "" || m.latest.core.value == core then m.archived
      else if IsArchived(m.archived, m.latest.core.value) then m.archived
      else m.archived + [ArchivedRelease(m.latest, m.latest.core.value, today)]
  }

  function BuildEntries(existing: Option<Manifest>, group: string, packages: map<string, Package>): map<string, Entry> {
    map name | name in packages :: BuildEntry(existing, group, name, packages[name])
  }

  function Record(entries: map<string, Entry>): Json {
    Obj(map name | name in entries :: Obj(entries[name]))
  }

  function BuildGroup(existing: Option<Manifest>, group: string, packages: map<string, Package>): Json {
    Record(BuildEntries(existing, group, packages))
  }

  function Build(existing: Option<Manifest>, files: Files, today: string): Result<Manifest, string> {
    if !files.consistent then Err("version sync error")
    else
      Ok(Manifest(
           Channel(Some(files.core), Some(PROTOCOL), Some(VersionStability(files.core))),
           AppendArchived(existing, files.core, today),
           map group | group in files.packages :: BuildGroup(existing, group, files.packages[group])))
  }

  // ---------------------------------------------------------------------------------------------
  // Syncing twice
  // ---------------------------------------------------------------------------------------------

  /** The old entry has a version on record, or the new version has no whitespace to strip (or nothing else). */
  predicate Settles(entry: Entry, version: string) {
    RecordedVersion(entry).Some? || Strip(version) == "" || Strip(version) == version
  }

  ghost predicate AllSettle(existing: Option<Manifest>, files: Files) {
    forall group :: group in files.packages ==> GroupSettles(existing, group, files.packages[group])
  }

  lemma StripTwice(s: string)
    ensures Strip(Strip(s)) == Strip(s)
  {
    TrimByIsTrimmed(s, IsStripSpace);
    TrimByFixes(Strip(s), IsStripSpace);
  }

  lemma EntryForFields(published: string, extra: Entry, p: Package)
    requires extra.Keys !! MANAGED_KEYS
    ensures var entry := EntryFor(published, extra, p);
            && "version" in entry && entry["version"] == Str(p.version)
            && "published" in entry && entry["published"] == Str(published)
  {
    assert "version" in MANAGED_KEYS && "published" in MANAGED_KEYS;
  }

  lemma EntryForExtra(published: string, extra: Entry, p: Package)
    requires extra.Keys !! MANAGED_KEYS
    ensures ExtraFields(EntryFor(published, extra, p)) == extra
  {
    var entry := EntryFor(published, extra, p);
    assert forall k :: k in extra ==> k !in MANAGED_KEYS && k != "depends_on";
    assert ExtraFields(entry).Keys == extra.Keys;
  }

  /** What the next sync reads as the published version of an entry. */
  function NextPublished(published: string, version: string): string {
    if Strip(published) != "" then Strip(published)
    else if Strip(version) != "" then Strip(version)
    else version
  }

  lemma RecordedInEntry(published: string, extra: Entry, p: Package)
    requires extra.Keys !! MANAGED_KEYS
    ensures PublishedOr(EntryFor(published, extra, p), p.version) == NextPublished(published, p.version)
  {
    EntryForFields(published, extra, p);
    PublishedOfFields(EntryFor(published, extra, p), published, p.version);
  }

  lemma PublishedOfFields(entry: Entry, published: string, version: string)
    requires "version" in entry && entry["version"] == Str(version)
    requires "published" in entry && entry["published"] == Str(published)
    ensures PublishedOr(entry, version) == NextPublished(published, version)
  {
  }

  lemma EntryForInjective(a: string, b: string, extra: Entry, p: Package)
    requires extra.Keys !! MANAGED_KEYS
    ensures EntryFor(a, extra, p) == EntryFor(b, extra, p) <==> a == b
  {
    EntryForFields(a, extra, p);
    EntryForFields(b, extra, p);
  }

  lemma RecordIsStripped(entry: Entry)
    requires RecordedVersion(entry).Some?
    ensures var r := RecordedVersion(entry).value; r != "" && Strip(r) == r
  {
    StripTwice(if UsableText(entry, "published").Some? then entry["published"].s else entry["version"].s);
  }

  lemma PublishedRepeats(entry: Entry, version: string)
    ensures var published := PublishedOr(entry, version);
            NextPublished(published, version) == published <==> Settles(entry, version)
  {
    StripTwice(version);
    if RecordedVersion(entry).Some? {
      RecordIsStripped(entry);
    }
  }

  /** Building an entry on top of itself repeats it exactly when the published version is settled. */
  lemma EntryRepeats(entry: Entry, p: Package)
    ensures Rebuilt(Rebuilt(entry, p), p) == Rebuilt(entry, p) <==> Settles(entry, p.version)
  {
    var extra, published := ExtraFields(entry), PublishedOr(entry, p.version);
    var next := NextPublished(published, p.version);
    assert Rebuilt(Rebuilt(entry, p), p) == EntryFor(next, extra, p) by {
      EntryForExtra(published, extra, p);
      RecordedInEntry(published, extra, p);
    }
    EntryForInjective(next, published, extra, p);
    PublishedRepeats(entry, p.version);
  }

  lemma BuiltIsExisting(existing: Option<Manifest>, files: Files, today: string, group: string, name: string)
    requires files.consistent && group in files.packages && name in files.packages[group]
    ensures ExistingEntry(Some(Build(existing, files, today).value), group, name)
            == BuildEntry(existing, group, name, files.packages[group][name])
  {
  }

  ghost predicate GroupSettles(existing: Option<Manifest>, group: string, packages: map<string, Package>) {
    forall name :: name in packages ==> Settles(ExistingEntry(existing, group, name), packages[name].version)
  }

  lemma GroupRepeats(existing: Option<Manifest>, m: Option<Manifest>, group: string, packages: map<string, Package>)
    requires forall name :: name in packages ==>
               ExistingEntry(m, group, name) == BuildEntry(existing, group, name, packages[name])
    ensures BuildGroup(m, group, packages) == BuildGroup(existing, group, packages)
            <==> GroupSettles(existing, group, packages)
  {
    var again, first := BuildEntries(m, group, packages), BuildEntries(existing, group, packages);
    forall name | name in packages
      ensures again[name] == first[name] <==> Settles(ExistingEntry(existing, group, name), packages[name].version)
    {
      EntryRepeats(ExistingEntry(existing, group, name), packages[name]);
    }
    RecordIsInjective(again, first);
  }

  lemma RecordIsInjective(a: map<string, Entry>, b: map<string, Entry>)
    requires a.Keys == b.Keys
    ensures Record(a) == Record(b) <==> forall name :: name in a ==> a[name] == b[name]
  {
    if forall name :: name in a ==> a[name] == b[name] {
      assert a == b;
    } else {
      var name :| name in a && a[name] != b[name];
      assert Record(a).fields[name] != Record(b).fields[name];
    }
  }

  /**
   Syncing is idempotent, so that verifying passes right after a sync, if and only if every package that has no
   version on record yet has a version without surrounding whitespace (or a blank one).
   */
  lemma SyncIsIdempotent(existing: Option<Manifest>, files: Files, today: string, later: string)
    requires files.consistent
    ensures Build(Some(Build(existing, files, today).value), files, later) == Build(existing, files, today)
            <==> AllSettle(existing, files)
  {
    var m := Build(existing, files, today).value;
    var again := Build(Some(m), files, later).value;
    assert again.archived == m.archived && again.latest == m.latest;
    forall group | group in files.packages
      ensures again.packages[group] == m.packages[group] <==> GroupSettles(existing, group, files.packages[group])
    {
      forall name | name in files.packages[group]
        ensures ExistingEntry(Some(m), group, name) == BuildEntry(existing, group, name, files.packages[group][name])
      {
        BuiltIsExisting(existing, files, today, group, name);
      }
      GroupRepeats(existing, Some(m), group, files.packages[group]);
    }
    if AllSettle(existing, files) {
      assert again.packages == m.packages;
    }
  }

  /** The condition is needed: a padded version that is new to the manifest is stripped by the second sync. */
  lemma PaddedVersionDoesNotSettle(files: Files, today: string, group: string, name: string)
    requires files.consistent && group in files.packages && name in files.packages[group]
    requires var version := files.packages[group][name].version; Strip(version) != "" && Strip(version) != version
    ensures Build(Some(Build(None, files, today).value), files, today) != Build(None, files, today)
  {
    SyncIsIdempotent(None, files, today, today);
    assert !Settles(ExistingEntry(None, group, name), files.packages[group][name].version);
  }

  // ---------------------------------------------------------------------------------------------
  // Marking packages as published
  // ---------------------------------------------------------------------------------------------

  /** The version a package is to be marked with: the one given, or else the one in its entry. */
  function MarkText(entry: Entry, version: Option<string>): Option<string> {
    var text := if version.Some? && version.value != "" then version
                else if "version" in entry && entry["version"].Str? then Some(entry["version"].s)
                else None;
    if text.Some? && Strip(text.value) != "" then Some(Strip(text.value)) else None
  }

  function MarkOne(record: map<string, Json>, name: string, version: Option<string>): Option<map<string, Json>> {
    if name !in record || !record[name].Obj? || MarkText(record[name].fields, version).None? then None
    else
      var entry := record[name].fields;
      Some(record[name := Obj(entry["published" := Str(MarkText(entry, version).value)])])
  }

  function MarkAll(record: map<string, Json>, names: seq<string>, version: Option<string>): Option<map<string, Json>>
    decreases |names|
  {
    if names == [] then Some(record)
    else
      var marked := MarkOne(record, names[0], version);
      if marked.None? then None else MarkAll(marked.value, names[1..], version)
  }

  /** `selected` are the names given, or all names of the group if none was given; one failure changes nothing. */
  function MarkPublished(m: Manifest, group: string, selected: seq<string>, version: Option<string>): Option<Manifest> {
    if group !in m.packages || !m.packages[group].Obj? then None
    else
      var marked := MarkAll(m.packages[group].fields, selected, version);
      if marked.None? then None else Some(m.(packages := m.packages[group := Obj(marked.value)]))
  }

  /** The loop over the selected names. */
  method MarkSelected(record: map<string, Json>, selected: seq<string>, version: Option<string>)
    returns (r: Option<map<string, Json>>)
    ensures r == MarkAll(record, selected, version)
  {
    var packages := record;
    assert selected[0..] == selected;
    for i := 0 to |selected|
      invariant MarkAll(packages, selected[i..], version) == MarkAll(record, selected, version)
    {
      assert selected[i..][1..] == selected[i + 1..];
      var name := selected[i];
      if name !in packages || !packages[name].Obj? {
        return None;
      }
      var entry := packages[name].fields;
      var text := MarkText(entry, version);
      if text.None? {
        return None;
      }
      packages := packages[name := Obj(entry["published" := Str(text.value)])];
    }
    r := Some(packages);
  }

  lemma {:induction false} MarkAllKeepsOthers(record: map<string, Json>, names: seq<string>, version: Option<string>,
                                              other: string)
    requires MarkAll(record, names, version).Some? && other !in names
    ensures other in MarkAll(record, names, version).value <==> other in record
    ensures other in record ==> MarkAll(record, names, version).value[other] == record[other]
    decreases |names|
  {
    if names != [] {
      MarkAllKeepsOthers(MarkOne(record, names[0], version).value, names[1..], version, other);
    }
  }

  /** Marking with a given version puts that version on record, for every selected package. */
  lemma {:induction false} MarkAllPublishes(record: map<string, Json>, names: seq<string>, version: string,
                                            name: string)
    requires version != "" && MarkAll(record, names, Some(version)).Some? && name in names
    ensures var marked := MarkAll(record, names, Some(version)).value;
            name in marked && marked[name].Obj? && UsableText(marked[name].fields, "published") == Some(Strip(version))
    decreases |names|
  {
    StripTwice(version);
    var next := MarkOne(record, names[0], Some(version)).value;
    if name in names[1..] {
      MarkAllPublishes(next, names[1..], version, name);
    } else {
      MarkAllKeepsOthers(next, names[1..], Some(version), name);
    }
  }

  // ---------------------------------------------------------------------------------------------
  // Runs of syncs and marks
  // ---------------------------------------------------------------------------------------------

  datatype Step =
    | Sync(files: Files, today: string)
    | Mark(group: string, selected: seq<string>, version: Option<string>)

  /** A step that fails leaves the file alone. */
  function Apply(e: Option<Manifest>, step: Step): Option<Manifest> {
    match step
    case Sync(files, today) =>
      var built := Build(e, files, today);
      if built.Ok? then Some(built.value) else e
    case Mark(group, selected, version) =>
      if e.None? then None
      else
        var marked := MarkPublished(e.value, group, selected, version);
        if marked.Some? then marked else e
  }

  function Run(e: Option<Manifest>, steps: seq<Step>): Option<Manifest>
    decreases |steps|
  {
    if steps == [] then e else Run(Apply(e, steps[0]), steps[1..])
  }

  function OnRecord(e: Option<Manifest>, group: string, name: string): Option<string> {
    RecordedVersion(ExistingEntry(e, group, name))
  }

  /** The step keeps the package in the files and does not mark it. */
  predicate Retains(step: Step, group: string, name: string) {
    match step
    case Sync(files, _) => files.consistent ==> group in files.packages && name in files.packages[group]
    case Mark(g, selected, _) => g != group || name !in selected
  }

  lemma RebuiltKeepsRecord(entry: Entry, p: Package)
    requires RecordedVersion(entry).Some?
    ensures RecordedVersion(Rebuilt(entry, p)) == RecordedVersion(entry)
  {
    RecordIsStripped(entry);
    EntryForFields(PublishedOr(entry, p.version), ExtraFields(entry), p);
  }

  lemma SyncKeepsRecord(e: Option<Manifest>, files: Files, today: string, group: string, name: string)
    requires OnRecord(e, group, name).Some? && Retains(Sync(files, today), group, name)
    ensures OnRecord(Apply(e, Sync(files, today)), group, name) == OnRecord(e, group, name)
  {
    if files.consistent {
      BuiltIsExisting(e, files, today, group, name);
      RebuiltKeepsRecord(ExistingEntry(e, group, name), files.packages[group][name]);
    }
  }

  lemma MarkKeepsRecord(e: Option<Manifest>, g: string, selected: seq<string>, version: Option<string>, group: string,
                        name: string)
    requires g != group || name !in selected
    ensures OnRecord(Apply(e, Mark(g, selected, version)), group, name) == OnRecord(e, group, name)
  {
    if e.Some? && MarkPublished(e.value, g, selected, version).Some? && g == group {
      MarkAllKeepsOthers(e.value.packages[g].fields, selected, version, name);
    }
  }

  /** Over any run, the version on record of a package that stays in the files changes only by marking it. */
  lemma {:induction false} RecordChangesOnlyByMark(e: Option<Manifest>, steps: seq<Step>, group: string, name: string)
    requires OnRecord(e, group, name).Some?
    requires forall k :: 0 <= k < |steps| ==> Retains(steps[k], group, name)
    ensures OnRecord(Run(e, steps), group, name) == OnRecord(e, group, name)
    decreases |steps|
  {
    if steps != [] {
      assert Retains(steps[0], group, name);
      match steps[0] {
        case Sync(files, today) => SyncKeepsRecord(e, files, today, group, name);
        case Mark(g, selected, version) => MarkKeepsRecord(e, g, selected, version, group, name);
      }
      RecordChangesOnlyByMark(Apply(e, steps[0]), steps[1..], group, name);
    }
  }

  /** No two archived releases of one core version. */
  ghost predicate UniqueCores(archived: seq<Entry>) {
    forall i, j, core :: 0 <= i < j < |archived| && HasCore(archived[i], core) ==> !HasCore(archived[j], core)
  }

  lemma StepKeepsArchive(m: Manifest, step: Step)
    ensures Apply(Some(m), step).Some?
    ensures var m' := Apply(Some(m), step).value;
            && m.archived <= m'.archived
            && (UniqueCores(m.archived) ==> UniqueCores(m'.archived))
            && (m.latest.core.Some? && m.latest.core.value != "" && m'.latest.core != m.latest.core ==>
                  IsArchived(m'.archived, m.latest.core.value))
  {
    if step.Sync? && step.files.consistent {
      var m' := Apply(Some(m), step).value;
      if m'.archived != m.archived {
        var core := m.latest.core.value;
        var last := m'.archived[|m.archived|];
        assert HasCore(last, core);
        forall i, c | 0 <= i < |m.archived| && HasCore(m.archived[i], c) ensures !HasCore(last, c) {
          assert c != core;
        }
      }
    }
  }

  lemma {:induction false} RunKeepsArchive(m: Manifest, steps: seq<Step>)
    ensures Run(Some(m), steps).Some?
    ensures m.archived <= Run(Some(m), steps).value.archived
    ensures UniqueCores(m.archived) ==> UniqueCores(Run(Some(m), steps).value.archived)
    decreases |steps|
  {
    if steps != [] {
      StepKeepsArchive(m, steps[0]);
      RunKeepsArchive(Apply(Some(m), steps[0]).value, steps[1..]);
    }
  }

  /** A core version that a step replaces is archived from then on, only once if the archive had no duplicates. */
  lemma ReplacedCoreStaysArchived(m: Manifest, step: Step, after: seq<Step>)
    requires UniqueCores(m.archived)
    requires m.latest.core.Some? && m.latest.core.value != ""
    requires Apply(Some(m), step).value.latest.core != m.latest.core
    ensures var final := Run(Apply(Some(m), step), after);
            final.Some? && IsArchived(final.value.archived, m.latest.core.value) && UniqueCores(final.value.archived)
  {
    StepKeepsArchive(m, step);
    var m1 := Apply(Some(m), step).value;
    RunKeepsArchive(m1, after);
    var k :| 0 <= k < |m1.archived| && HasCore(m1.archived[k], m.latest.core.value);
    assert Run(Some(m1), after).value.archived[k] == m1.archived[k];
  }
}
