/**
 Replacing the installed executable. The disk is a map from file names to bytes that any system call may refuse to
 change; it records every state it passes through, so a statement about all recorded states is a statement about a
 crash at any moment, also in the middle of a copy.
 */
module SelfUpdate {

  import opened Wrappers

  type Name = string
  type Files = map<Name, Bytes>

  const REPLACE_RETRY_ATTEMPTS := 10

  function Sibling(exe: Name, pid: string, suffix: string): Name {
    exe + "." + pid + suffix
  }

  function OldPath(exe: Name, pid: string): Name {
    Sibling(exe, pid, ".kalam-old")
  }

  function StagingPath(exe: Name, pid: string): Name {
    Sibling(exe, pid, ".kalam-new")
  }

  predicate EndsWith(s: string, suffix: string) {
    |s| >= |suffix| && s[|s| - |suffix|..] == suffix
  }

  /** What the cleanup of stale artifacts deletes. */
  predicate IsArtifact(exe: Name, name: Name) {
    exe + "." <= name && (EndsWith(name, ".kalam-old") || EndsWith(name, ".kalam-new"))
  }

  lemma SiblingsAreDistinctArtifacts(exe: Name, pid: string)
    ensures exe != OldPath(exe, pid) && exe != StagingPath(exe, pid) && OldPath(exe, pid) != StagingPath(exe, pid)
    ensures IsArtifact(exe, OldPath(exe, pid)) && IsArtifact(exe, StagingPath(exe, pid)) && !IsArtifact(exe, exe)
    ensures OldPath(exe, pid) == exe + "." + pid + ".kalam-old"
    ensures StagingPath(exe, pid) == exe + "." + pid + ".kalam-new"
  {
    var old_, new_ := OldPath(exe, pid), StagingPath(exe, pid);
    assert old_[|old_| - 1] == 'd' && new_[|new_| - 1] == 'w';
    assert exe + "." <= old_ && exe + "." <= new_;
    assert |exe| < |exe + "."|;
  }

  /** Artifacts are the names that go on after the program's with a dot and end in one of the two suffixes. */
  lemma ArtifactsExactly(exe: Name, name: Name)
    ensures IsArtifact(exe, name) <==>
            exists rest :: name == exe + rest && rest != "" && rest[0] == '.'
                           && (EndsWith(rest, ".kalam-old") || EndsWith(rest, ".kalam-new"))
  {
    if exe + "." <= name {
      var rest := name[|exe|..];
      assert name == exe + rest && rest[0] == '.';
      assert name[..|exe| + 1] == exe + ".";
      EndsAfter(exe, rest, ".kalam-old");
      EndsAfter(exe, rest, ".kalam-new");
    }
    forall rest | name == exe + rest && rest != "" && rest[0] == '.'
                  && (EndsWith(rest, ".kalam-old") || EndsWith(rest, ".kalam-new"))
      ensures IsArtifact(exe, name)
    {
      EndsAfter(exe, rest, ".kalam-old");
      EndsAfter(exe, rest, ".kalam-new");
    }
  }

  /** A suffix of ten characters whose one dot is its first cannot begin before `rest`, which has that dot first. */
  lemma EndsAfter(exe: Name, rest: string, suffix: string)
    requires rest != "" && rest[0] == '.' && suffix != "" && '.' !in suffix[1..]
    ensures EndsWith(exe + rest, suffix) <==> EndsWith(rest, suffix)
  {
    var s := exe + rest;
    if EndsWith(s, suffix) {
      forall i | |s| - |suffix| < i < |s| ensures s[i] != '.' {
        assert s[i] == suffix[1..][i - (|s| - |suffix|) - 1];
      }
      assert s[|exe|] == '.';
    }
    if |rest| >= |suffix| {
      assert s[|s| - |suffix|..] == rest[|rest| - |suffix|..];
    }
  }

  /** Names of different processes differ. */
  lemma SiblingsOfProcesses(exe: Name, p: string, q: string)
    ensures OldPath(exe, p) == OldPath(exe, q) <==> p == q
    ensures StagingPath(exe, p) == StagingPath(exe, q) <==> p == q
  {
    SiblingInjective(exe, p, q, ".kalam-old");
    SiblingInjective(exe, p, q, ".kalam-new");
  }

  lemma SiblingInjective(exe: Name, p: string, q: string, suffix: string)
    ensures Sibling(exe, p, suffix) == Sibling(exe, q, suffix) <==> p == q
  {
    var a, b, n := Sibling(exe, p, suffix), Sibling(exe, q, suffix), |exe| + 1;
    assert a[n..n + |p|] == p && b[n..n + |q|] == q;
  }

  predicate Holds(files: Files, name: Name, bytes: Bytes) {
    name in files && files[name] == bytes
  }

  /** Nothing at `name` differs between the two. */
  predicate SameAt(a: Files, b: Files, name: Name) {
    (name in a <==> name in b) && (name in a ==> a[name] == b[name])
  }

  /** The old program is in place, or next to a place that is empty. */
  predicate OldKept(files: Files, exe: Name, aside: Name, oldBytes: Bytes) {
    Holds(files, exe, oldBytes) || (exe !in files && Holds(files, aside, oldBytes))
  }

  /** `b` has what `a` has, except perhaps at `name`. */
  ghost predicate SameExcept(a: Files, b: Files, name: Name) {
    a - {name} == b - {name}
  }

  /** `b` has what `a` has, except perhaps under these names. */
  ghost predicate SameElsewhere(a: Files, b: Files, names: set<Name>) {
    forall k :: k !in names ==> SameAt(a, b, k)
  }

  lemma SameExceptLookup(a: Files, b: Files, name: Name)
    requires SameExcept(a, b, name)
    ensures forall k :: k != name ==> (k in a <==> k in b) && (k in a ==> a[k] == b[k])
    ensures name in a ==> a == b[name := a[name]]
  {
    forall k | k != name ensures (k in a <==> k in b) && (k in a ==> a[k] == b[k]) {
      assert k in a <==> k in a - {name};
      assert k in b <==> k in b - {name};
      if k in a {
        assert (a - {name})[k] == a[k] && (b - {name})[k] == b[k];
      }
    }
  }

  /** From place `start` on, the trace shows the first 0, 1, ... bytes of the copy, up to `size`, one by one. */
  ghost predicate ShowsPieces(trace: seq<Files>, start: nat, before: Files, from: Name, to: Name, size: nat) {
    && from in before && size <= |before[from]| && start + size < |trace|
    && forall n :: 0 <= n <= size ==> trace[start + n] == before[to := before[from][..n]]
  }

  lemma OneMorePiece(trace: seq<Files>, start: nat, before: Files, from: Name, to: Name, size: nat)
    requires ShowsPieces(trace, start, before, from, to, size) && size < |before[from]|
    requires |trace| == start + size + 1
    ensures ShowsPieces(trace + [before[to := before[from][..size + 1]]], start, before, from, to, size + 1)
  {
  }

  class Disk {
    var files: Files
    var calls: nat
    ghost var trace: seq<Files>
    /** Whether the n-th request is refused, and how many bytes it can write before that. */
    const refused: nat -> bool
    const room: nat -> nat

    ghost predicate Valid()
      reads this
    {
      trace != [] && trace[|trace| - 1] == files
    }

    constructor (files: Files, refused: nat -> bool, room: nat -> nat)
      ensures Valid() && this.files == files && trace == [files] && calls == 0
      ensures this.refused == refused && this.room == room
    {
      this.files, this.calls, this.trace := files, 0, [files];
      this.refused, this.room := refused, room;
    }

    /** One request that moves the disk to `next`, unless it is refused or impossible. */
    method Request(possible: bool, next: Files) returns (ok: bool)
      requires Valid()
      modifies this
      ensures Valid() && calls == old(calls) + 1
      ensures ok == (possible && !refused(old(calls)))
      ensures files == (if ok then next else old(files))
      ensures trace == old(trace) + [files]
    {
      ok := possible && !refused(calls);
      if ok {
        files := next;
      }
      calls := calls + 1;
      trace := trace + [files];
    }

    method Remove(name: Name) returns (ok: bool)
      requires Valid()
      modifies this
      ensures Valid() && calls == old(calls) + 1 && trace == old(trace) + [files]
      ensures ok == (name in old(files) && !refused(old(calls)))
      ensures files == (if ok then old(files) - {name} else old(files))
    {
      ok := Request(name in files, files - {name});
    }

    method Rename(from: Name, to: Name) returns (ok: bool)
      requires Valid() && from != to
      modifies this
      ensures Valid() && calls == old(calls) + 1 && trace == old(trace) + [files]
      ensures ok == (from in old(files) && !refused(old(calls)))
      ensures files == (if ok then (old(files) - {from})[to := old(files)[from]] else old(files))
    {
      ok := Request(from in files, if from in files then (files - {from})[to := files[from]] else files);
    }

    /** All attempts of a retried request that begins as request number `first` are refused. */
    ghost predicate AllRefused(first: nat) {
      forall n :: first <= n < first + 10 ==> refused(n)
    }

    /** Some retried request among requests number `from` to `to` was refused every time. */
    ghost predicate Outage(from: nat, to: nat) {
      exists first :: from <= first && first + 10 <= to && AllRefused(first)
    }

    /** A retried request that begins as request number `first` is granted as the one before number `end`. */
    ghost predicate Granted(first: nat, end: nat) {
      && first < end <= first + 10 && !refused(end - 1)
      && forall n :: first <= n < end - 1 ==> refused(n)
    }

    lemma GrantedOnce(first: nat, a: nat, b: nat)
      requires Granted(first, a) && Granted(first, b)
      ensures a == b
    {
    }

    lemma NeverGranted(first: nat)
      requires AllRefused(first)
      ensures forall end :: !Granted(first, end)
    {
    }

    ghost predicate SomeRefused(from: nat, to: nat) {
      exists n :: from <= n < to && refused(n)
    }

    lemma OutageRefuses(from: nat, to: nat)
      requires Outage(from, to)
      ensures SomeRefused(from, to)
    {
      var first :| from <= first && first + 10 <= to && AllRefused(first);
      assert refused(first);
    }

    /** Up to ten attempts; between refused attempts nothing changes. */
    method RetryRename(from: Name, to: Name) returns (ok: bool)
      requires Valid() && from != to
      modifies this
      ensures Valid()
      ensures ok ==> from in old(files) && files == (old(files) - {from})[to := old(files)[from]]
      ensures ok <==> from in old(files) && !AllRefused(old(calls))
      ensures !ok ==> files == old(files)
      ensures old(calls) < calls <= old(calls) + REPLACE_RETRY_ATTEMPTS
      ensures !ok ==> calls == old(calls) + REPLACE_RETRY_ATTEMPTS
      ensures ok ==> Granted(old(calls), calls)
      ensures old(trace) <= trace
      ensures |old(trace)| < |trace|
      ensures forall k :: |old(trace)| <= k < |trace| - 1 ==> trace[k] == old(files)
    {
      ok := false;
      var attempt := 0;
      while attempt < REPLACE_RETRY_ATTEMPTS
        invariant 0 <= attempt <= REPLACE_RETRY_ATTEMPTS && Valid() && calls == old(calls) + attempt
        invariant files == old(files) && old(trace) <= trace && |trace| == |old(trace)| + attempt
        invariant forall k :: |old(trace)| <= k < |trace| ==> trace[k] == old(files)
        invariant from !in files || forall n :: old(calls) <= n < calls ==> refused(n)
      {
        ok := Rename(from, to);
        if ok {
          return;
        }
        attempt := attempt + 1;
      }
      ok := false;
    }

    /** A copy first empties its destination and then fills it piece by piece. */
    method Copy(from: Name, to: Name) returns (ok: bool)
      requires Valid() && from != to
      modifies this
      ensures Valid()
      ensures calls == old(calls) + 1
      ensures ok <==> from in old(files) && !refused(old(calls)) && |old(files)[from]| <= room(old(calls))
      ensures ok ==> files == old(files)[to := old(files)[from]]
      ensures SameExcept(files, old(files), to)
      ensures old(trace) <= trace
      ensures forall k :: |old(trace)| <= k < |trace| ==> SameExcept(trace[k], old(files), to)
      ensures from in old(files) && !refused(old(calls)) ==>
                ShowsPieces(trace, |old(trace)|, old(files), from, to,
                            if ok then |old(files)[from]| else room(old(calls)))
    {
      var limit := room(calls);
      ok := Request(from in files, files[to := []]);
      if !ok {
        return;
      }
      while |files[to]| < |files[from]|
        invariant Valid() && from in files && to in files && old(trace) <= trace && calls == old(calls) + 1
        invariant from in old(files) && |files[to]| <= |old(files)[from]| && |files[to]| <= limit
        invariant files == old(files)[to := old(files)[from][..|files[to]|]]
        invariant forall k :: |old(trace)| <= k < |trace| ==> SameExcept(trace[k], old(files), to)
        invariant |trace| == |old(trace)| + 1 + |files[to]|
        invariant ShowsPieces(trace, |old(trace)|, old(files), from, to, |files[to]|)
        decreases |files[from]| - |files[to]|
      {
        if |files[to]| >= limit {
          return false;
        }
        OneMorePiece(trace, |old(trace)|, old(files), from, to, |files[to]|);
        files := files[to := files[from][..|files[to]| + 1]];
        assert files == old(files)[to := old(files)[from][..|files[to]|]];
        trace := trace + [files];
      }
      assert files[to] == files[from];
      SameExceptLookup(files, old(files), to);
    }

    /**
     A copy that also makes sure of the directory and, on Unix, of the mode of the new file: three requests, of
     which only the second one changes files.
     */
    method CopyExecutable(from: Name, to: Name, unix: bool) returns (ok: bool)
      requires Valid() && from != to
      modifies this
      ensures Valid() && old(calls) < calls
      ensures ok <==> CopySucceeds(old(files), old(calls), from, unix)
      ensures ok ==> calls == old(calls) + (if unix then 3 else 2) && files == old(files)[to := old(files)[from]]
      ensures SameExcept(files, old(files), to)
      ensures old(trace) <= trace
      ensures forall k :: |old(trace)| <= k < |trace| ==> SameExcept(trace[k], old(files), to)
      ensures !ok ==> CopyFails(old(files), old(calls), calls, from)
      ensures !unix ==> calls == old(calls) + if refused(old(calls)) then 1 else 2
    {
      ok := Request(true, files);
      if !ok {
        assert refused(old(calls));
        return;
      }
      ok := Copy(from, to);
      if !ok {
        assert from in old(files) && |old(files)[from]| <= room(old(calls) + 1) ==> refused(old(calls) + 1);
        return;
      }
      if unix {
        ok := Request(true, files);
        assert !ok ==> refused(old(calls) + 2);
      }
    }

    ghost predicate CopySucceeds(files: Files, first: nat, from: Name, unix: bool) {
      && !refused(first)
      && from in files && !refused(first + 1) && |files[from]| <= room(first + 1)
      && (unix ==> !refused(first + 2))
    }

    /** Why a copy failed that made the requests from number `first` to `end`. */
    ghost predicate CopyFails(files: Files, first: nat, end: nat, from: Name) {
      from !in files || SomeRefused(first, end) || room(first + 1) < |files[from]|
    }

    ghost predicate OldKeptSince(from: nat, exe: Name, aside: Name, oldBytes: Bytes)
      reads this
    {
      forall k :: from <= k < |trace| ==> OldKept(trace[k], exe, aside, oldBytes)
    }

    /** Since the trace had length `from`: the old program is kept until the new one is in place for good. */
    ghost predicate SwitchesOnce(from: nat, exe: Name, aside: Name, oldBytes: Bytes, newBytes: Bytes)
      reads this
    {
      forall k :: from <= k < |trace| ==>
        || OldKept(trace[k], exe, aside, oldBytes)
        || forall j :: k <= j < |trace| ==> Holds(trace[j], exe, newBytes)
    }

    method MoveAside(exe: Name, aside: Name, staging: Name) returns (ok: bool)
      requires Valid() && exe != aside && exe != staging && aside != staging
      modifies this
      ensures Valid() && old(trace) <= trace
      ensures SameElsewhere(files, old(files), {exe, aside, staging})
      ensures staging in files ==> SomeRefused(old(calls), calls)
      ensures !ok && aside in files ==> SomeRefused(old(calls), calls)
      ensures exe !in old(files) ==> !ok && files.Keys <= old(files).Keys
      ensures exe in old(files) ==> OldKeptSince(|old(trace)|, exe, aside, old(files)[exe])
      ensures ok ==> exe !in files && exe in old(files) && Holds(files, aside, old(files)[exe])
      ensures !ok && exe in old(files) ==> Holds(files, exe, old(files)[exe]) && Outage(old(calls), calls)
      ensures old(calls) <= calls
      ensures ok <==> exe in old(files) && !AllRefused(old(calls) + 2)
      ensures ok ==> Granted(old(calls) + 2, calls)
    {
      var asideGone := Remove(aside);
      assert aside in files ==> !asideGone && refused(old(calls));
      ghost var second := calls;
      var stagingGone := Remove(staging);
      assert staging in files ==> !stagingGone && refused(second);
      ok := RetryRename(exe, aside);
    }

    method RollBack(exe: Name, aside: Name, staging: Name, stagingFirst: bool, ghost oldBytes: Bytes)
      requires Valid() && exe != aside && exe != staging && aside != staging
      requires exe !in files && Holds(files, aside, oldBytes)
      modifies this
      ensures Valid() && old(trace) <= trace
      ensures OldKeptSince(|old(trace)|, exe, aside, oldBytes)
      ensures Holds(files, exe, oldBytes) <==> !AllRefused(old(calls) + if stagingFirst then 1 else 0)
      ensures AllRefused(old(calls) + if stagingFirst then 1 else 0) ==> Outage(old(calls), calls)
      ensures old(calls) < calls
      ensures SameElsewhere(files, old(files), {exe, aside, staging})
      ensures staging in files || aside in files ==> SomeRefused(old(calls), calls)
    {
      if stagingFirst {
        var gone := Remove(staging);
        assert staging in files ==> !gone && refused(old(calls));
      }
      ghost var first := calls;
      var back := RetryRename(aside, exe);
      assert !back ==> refused(first);
      if !stagingFirst {
        ghost var last := calls;
        var gone := Remove(staging);
        assert staging in files ==> !gone && refused(last);
      }
    }

    /** The copy next to the empty path; if it fails, the old program goes back. */
    method CopyOrRollBack(exe: Name, aside: Name, staging: Name, newBinary: Name, ghost oldBytes: Bytes)
      returns (ok: bool)
      requires Valid() && exe != aside && exe != staging && aside != staging
      requires newBinary != exe && newBinary != aside && newBinary != staging
      requires exe !in files && Holds(files, aside, oldBytes)
      modifies this
      ensures Valid() && old(trace) <= trace && old(calls) + 1 < calls
      ensures OldKeptSince(|old(trace)|, exe, aside, oldBytes)
      ensures ok <==> CopySucceeds(old(files), old(calls), newBinary, false)
      ensures ok ==> calls == old(calls) + 2 && files == old(files)[staging := old(files)[newBinary]]
      ensures !ok ==> (Holds(files, exe, oldBytes) <==> !AllRefused(old(calls) + if refused(old(calls)) then 1 else 2))
      ensures !ok ==> Holds(files, exe, oldBytes) || Outage(old(calls), calls)
      ensures !ok ==> CopyFails(old(files), old(calls), calls, newBinary)
      ensures SameElsewhere(files, old(files), {exe, aside, staging})
      ensures !ok && (staging in files || aside in files) ==> SomeRefused(old(calls), calls)
    {
      ok := CopyExecutable(newBinary, staging, false);
      forall k | |old(trace)| <= k < |trace| ensures OldKept(trace[k], exe, aside, oldBytes) {
        SameExceptLookup(trace[k], old(files), staging);
      }
      SameExceptLookup(files, old(files), staging);
      if !ok {
        RollBack(exe, aside, staging, false, oldBytes);
      }
    }

    /** The rename of the copy to the empty path; if it fails, the old program goes back. */
    method RenameIn(exe: Name, aside: Name, staging: Name, ghost oldBytes: Bytes) returns (ok: bool)
      requires Valid() && exe != aside && exe != staging && aside != staging
      requires exe !in files && Holds(files, aside, oldBytes) && staging in files
      modifies this
      ensures Valid() && old(trace) <= trace && old(calls) < calls
      ensures ok <==> !AllRefused(old(calls))
      ensures ok ==> Holds(files, exe, old(files)[staging])
      ensures ok ==> SwitchesOnce(|old(trace)|, exe, aside, oldBytes, old(files)[staging])
      ensures !ok ==> (Holds(files, exe, oldBytes) <==> !AllRefused(old(calls) + 11))
      ensures !ok ==> OldKeptSince(|old(trace)|, exe, aside, oldBytes)
      ensures !ok ==> Holds(files, exe, oldBytes) || Outage(old(calls), calls)
      ensures !ok ==> SomeRefused(old(calls), calls)
      ensures SameElsewhere(files, old(files), {exe, aside, staging})
      ensures staging in files || aside in files ==> SomeRefused(old(calls), calls)
      ensures ok ==> staging !in files
    {
      ok := RetryRename(staging, exe);
      if ok {
        ghost var last := calls;
        var gone := Remove(aside);
        assert aside in files ==> !gone && refused(last);
      } else {
        assert refused(old(calls));
        RollBack(exe, aside, staging, true, oldBytes);
      }
    }

    method InstallCopy(exe: Name, aside: Name, staging: Name, newBinary: Name, ghost oldBytes: Bytes) returns (ok: bool)
      requires Valid() && exe != aside && exe != staging && aside != staging
      requires newBinary != exe && newBinary != aside && newBinary != staging
      requires exe !in files && Holds(files, aside, oldBytes)
      modifies this
      ensures Valid() && old(trace) <= trace && old(calls) + 1 < calls
      ensures ok <==> CopySucceeds(old(files), old(calls), newBinary, false) && !AllRefused(old(calls) + 2)
      ensures ok ==> Holds(files, exe, old(files)[newBinary])
      ensures ok ==> SwitchesOnce(|old(trace)|, exe, aside, oldBytes, old(files)[newBinary])
      ensures !ok ==> OldKeptSince(|old(trace)|, exe, aside, oldBytes)
      ensures !ok ==> Holds(files, exe, oldBytes) || Outage(old(calls), calls)
      ensures !ok ==> CopyFails(old(files), old(calls), calls, newBinary)
      ensures SameElsewhere(files, old(files), {exe, aside, staging})
      ensures staging in files || aside in files ==> SomeRefused(old(calls), calls)
      ensures ok ==> staging !in files
    {
      ok := CopyOrRollBack(exe, aside, staging, newBinary, oldBytes);
      if ok {
        ok := RenameIn(exe, aside, staging, oldBytes);
      }
    }

    /** Why a replacement failed that made the requests from number `first` to `end`. */
    ghost predicate ReplacementFails(files: Files, first: nat, end: nat, exe: Name, newBinary: Name) {
      || exe !in files || newBinary !in files || SomeRefused(first, end)
      || exists n :: first <= n < end && room(n) < |files[newBinary]|
    }

    /**
     The requests from number `first` on, as they are granted, let the replacement succeed: on Windows two removals
     that may fail, the retried move aside, the copy and the retried rename, on Unix the copy and the rename.
     */
    ghost predicate ReplaceSucceeds(files: Files, first: nat, exe: Name, newBinary: Name, windows: bool) {
      if windows then exe in files && exists end :: InstallSucceeds(files, first, end, newBinary)
      else CopySucceeds(files, first, newBinary, true) && !refused(first + 3)
    }

    ghost predicate InstallSucceeds(files: Files, first: nat, end: nat, newBinary: Name) {
      Granted(first + 2, end) && CopySucceeds(files, end, newBinary, false) && !AllRefused(end + 2)
    }

    /** Windows: move the running program aside, copy the new one next to it, rename it in, else roll back. */
    method ReplaceByRenamingAside(exe: Name, newBinary: Name, pid: string) returns (ok: bool)
      requires Valid() && newBinary != exe && !IsArtifact(exe, newBinary)
      modifies this
      ensures Valid() && old(trace) <= trace && old(calls) <= calls
      ensures ok <==> ReplaceSucceeds(old(files), old(calls), exe, newBinary, true)
      ensures exe !in old(files) ==> !ok && files.Keys <= old(files).Keys
      ensures ok ==> newBinary in old(files) && Holds(files, exe, old(files)[newBinary])
      ensures ok ==> SwitchesOnce(|old(trace)|, exe, OldPath(exe, pid), old(files)[exe], old(files)[newBinary])
      ensures !ok && exe in old(files) ==>
                OldKeptSince(|old(trace)|, exe, OldPath(exe, pid), old(files)[exe])
                && OldKept(files, exe, OldPath(exe, pid), old(files)[exe])
      ensures !ok && exe in old(files) ==> Holds(files, exe, old(files)[exe]) || Outage(old(calls), calls)
      ensures !ok ==> ReplacementFails(old(files), old(calls), calls, exe, newBinary)
      ensures SameElsewhere(files, old(files), {exe, OldPath(exe, pid), StagingPath(exe, pid)})
      ensures StagingPath(exe, pid) in files || OldPath(exe, pid) in files ==> SomeRefused(old(calls), calls)
      ensures ok ==> StagingPath(exe, pid) !in files
    {
      SiblingsAreDistinctArtifacts(exe, pid);
      var aside, staging := OldPath(exe, pid), StagingPath(exe, pid);
      ok := MoveAside(exe, aside, staging);
      assert SameAt(files, old(files), newBinary);
      if ok {
        ghost var first := calls;
        ok := InstallCopy(exe, aside, staging, newBinary, old(files)[exe]);
        assert old(calls) <= first + 1 < calls;
        assert ok <==> InstallSucceeds(old(files), old(calls), first, newBinary);
        forall end | InstallSucceeds(old(files), old(calls), end, newBinary) ensures end == first {
          GrantedOnce(old(calls) + 2, first, end);
        }
      } else if exe in old(files) {
        OutageRefuses(old(calls), calls);
        NeverGranted(old(calls) + 2);
      }
    }

    /** The path is as it was in `before`, or holds the complete new program. */
    ghost predicate OldOrNew(files: Files, before: Files, exe: Name, newBinary: Name) {
      || SameAt(files, before, exe)
      || (newBinary in before && Holds(files, exe, before[newBinary]))
    }

    ghost predicate OldOrNewSince(from: nat, before: Files, exe: Name, newBinary: Name)
      reads this
    {
      forall k :: from <= k < |trace| ==> OldOrNew(trace[k], before, exe, newBinary)
    }

    method CopyBeside(ghost exe: Name, newBinary: Name, staging: Name) returns (ok: bool)
      requires Valid() && exe != staging && newBinary != staging
      modifies this
      ensures Valid() && old(trace) <= trace && old(calls) <= calls
      ensures ok <==> CopySucceeds(old(files), old(calls), newBinary, true)
      ensures ok ==> calls == old(calls) + 3 && Holds(files, staging, old(files)[newBinary])
      ensures SameAt(files, old(files), exe) && SameElsewhere(files, old(files), {staging})
      ensures forall k :: |old(trace)| <= k < |trace| ==> SameAt(trace[k], old(files), exe)
    {
      ok := CopyExecutable(newBinary, staging, true);
      forall k | |old(trace)| <= k < |trace| ensures SameAt(trace[k], old(files), exe) {
        SameExceptLookup(trace[k], old(files), staging);
      }
      SameExceptLookup(files, old(files), staging);
    }

    /** Unix: copy the new program next to the old one and rename it over. */
    method ReplaceByRenameOver(exe: Name, newBinary: Name, pid: string) returns (ok: bool)
      requires Valid() && newBinary != exe && !IsArtifact(exe, newBinary)
      modifies this
      ensures Valid() && old(trace) <= trace && old(calls) <= calls
      ensures ok <==> ReplaceSucceeds(old(files), old(calls), exe, newBinary, false)
      ensures ok ==> Holds(files, exe, old(files)[newBinary])
      ensures !ok ==> SameAt(files, old(files), exe)
      ensures OldOrNewSince(|old(trace)|, old(files), exe, newBinary)
      ensures SameElsewhere(files, old(files), {exe, StagingPath(exe, pid)})
      ensures ok ==> StagingPath(exe, pid) !in files
    {
      SiblingsAreDistinctArtifacts(exe, pid);
      var staging := StagingPath(exe, pid);
      ok := CopyBeside(exe, newBinary, staging);
      forall k | k !in {exe, staging} ensures SameAt(files, old(files), k) {
        assert k !in {staging};
      }
      if !ok {
        return false;
      }
      ghost var copied := files;
      ok := Rename(staging, exe);
      if !ok {
        var _ := Remove(staging);
      }
      forall k | k !in {exe, staging} ensures SameAt(files, old(files), k) {
        assert SameAt(copied, old(files), k);
      }
    }

    /** Only artifacts of the program differ between the two, and only by being gone from the first. */
    ghost predicate OnlyCleaned(files: Files, before: Files, exe: Name) {
      && (forall n :: n in files ==> n in before && files[n] == before[n])
      && (forall n :: n in before && !IsArtifact(exe, n) ==> n in files)
    }

    function CountArtifacts(exe: Name, listing: seq<Name>): nat {
      if listing == [] then 0
      else CountArtifacts(exe, listing[..|listing| - 1]) + if IsArtifact(exe, listing[|listing| - 1]) then 1 else 0
    }

    /** `listing` is the directory as the system lists it. A file that is refused deletion is left behind. */
    method CleanupStaleArtifacts(exe: Name, listing: seq<Name>)
      requires Valid()
      modifies this
      ensures Valid() && old(trace) <= trace && calls == old(calls) + CountArtifacts(exe, listing)
      ensures OnlyCleaned(files, old(files), exe)
      ensures !SomeRefused(old(calls), calls) ==> forall n :: n in listing && IsArtifact(exe, n) ==> n !in files
      ensures forall k :: |old(trace)| <= k < |trace| ==> OnlyCleaned(trace[k], old(files), exe)
    {
      for i := 0 to |listing|
        invariant Valid() && old(trace) <= trace && calls == old(calls) + CountArtifacts(exe, listing[..i])
        invariant OnlyCleaned(files, old(files), exe)
        invariant !SomeRefused(old(calls), calls) ==>
                    forall j :: 0 <= j < i && IsArtifact(exe, listing[j]) ==> listing[j] !in files
        invariant forall k :: |old(trace)| <= k < |trace| ==> OnlyCleaned(trace[k], old(files), exe)
      {
        assert listing[..i + 1][..i] == listing[..i];
        if IsArtifact(exe, listing[i]) {
          ghost var first := calls;
          var gone := Remove(listing[i]);
          assert !gone && listing[i] in files ==> refused(first);
        }
      }
      assert listing[..|listing|] == listing;
    }

    /** Nothing is in the way of the requests from number `first` on: all are granted and have room for `size` bytes. */
    ghost predicate AllGranted(first: nat, size: nat) {
      forall n :: n >= first ==> !refused(n) && room(n) >= size
    }

    lemma GrantedReplaceSucceeds(files: Files, first: nat, exe: Name, newBinary: Name, windows: bool)
      ensures newBinary in files && (windows ==> exe in files) && AllGranted(first, |files[newBinary]|) ==>
                ReplaceSucceeds(files, first, exe, newBinary, windows)
    {
      if windows && newBinary in files && exe in files && AllGranted(first, |files[newBinary]|) {
        assert !refused(first + 5);
        assert InstallSucceeds(files, first, first + 3, newBinary);
      }
    }

    lemma OthersStay(files: Files, cleaned: Files, before: Files, exe: Name, aside: Name, staging: Name)
      requires OnlyCleaned(cleaned, before, exe) && IsArtifact(exe, aside) && IsArtifact(exe, staging)
      requires SameElsewhere(files, cleaned, {exe, aside, staging}) || SameElsewhere(files, cleaned, {exe, staging})
      ensures forall k :: k != exe && !IsArtifact(exe, k) ==> SameAt(files, before, k)
    {
      forall k | k != exe && !IsArtifact(exe, k) ensures SameAt(files, before, k) {
        assert SameAt(files, cleaned, k) && SameAt(cleaned, before, k);
      }
    }

    /** The cleanup leaves alone what the replacement needs. */
    lemma SameSuccess(a: Files, b: Files, first: nat, exe: Name, newBinary: Name, windows: bool)
      requires OnlyCleaned(a, b, exe) && !IsArtifact(exe, exe) && !IsArtifact(exe, newBinary)
      ensures ReplaceSucceeds(a, first, exe, newBinary, windows) <==> ReplaceSucceeds(b, first, exe, newBinary, windows)
    {
      forall end ensures InstallSucceeds(a, first, end, newBinary) <==> InstallSucceeds(b, first, end, newBinary) {
      }
    }

    /**
     The whole replacement. On Windows it keeps a startable program if and only if there is one at the executable
     path when it begins: after a crash that left the program only next to its path, the cleanup deletes that copy.
     */
    method ReplaceInstalledBinary(exe: Name, newBinary: Name, pid: string, listing: seq<Name>, windows: bool)
      returns (ok: bool)
      requires Valid() && newBinary != exe && !IsArtifact(exe, newBinary)
      modifies this
      ensures Valid() && old(trace) <= trace
      ensures ok <==> ReplaceSucceeds(old(files), old(calls) + CountArtifacts(exe, listing), exe, newBinary, windows)
      ensures newBinary in old(files) && AllGranted(old(calls), |old(files)[newBinary]|) ==>
                ok || (windows && exe !in old(files))
      ensures ok ==> newBinary in old(files) && Holds(files, exe, old(files)[newBinary])
      ensures windows && ok ==>
                && exe in old(files)
                && SwitchesOnce(|old(trace)|, exe, OldPath(exe, pid), old(files)[exe], old(files)[newBinary])
      ensures windows && !ok && exe in old(files) ==>
                && OldKeptSince(|old(trace)|, exe, OldPath(exe, pid), old(files)[exe])
                && (Holds(files, exe, old(files)[exe]) || Outage(old(calls), calls))
      ensures windows && !ok ==> ReplacementFails(old(files), old(calls), calls, exe, newBinary)
      ensures windows && exe !in old(files) && (forall n: nat :: !refused(n))
              && (forall a :: a in old(files) && IsArtifact(exe, a) ==> a in listing) ==>
                !ok && exe !in files && forall a :: IsArtifact(exe, a) ==> a !in files
      ensures !windows ==> OldOrNewSince(|old(trace)|, old(files), exe, newBinary)
      ensures !windows && !ok ==> SameAt(files, old(files), exe)
      ensures forall k :: k != exe && !IsArtifact(exe, k) ==> SameAt(files, old(files), k)
      ensures ok && !SomeRefused(old(calls), calls) ==>
                forall a :: a in listing && IsArtifact(exe, a) ==> a !in files
    {
      SiblingsAreDistinctArtifacts(exe, pid);
      CleanupStaleArtifacts(exe, listing);
      ghost var cleaned, first := files, calls;
      SameSuccess(cleaned, old(files), first, exe, newBinary, windows);
      GrantedReplaceSucceeds(old(files), first, exe, newBinary, windows);
      if windows {
        ok := ReplaceByRenamingAside(exe, newBinary, pid);
      } else {
        ok := ReplaceByRenameOver(exe, newBinary, pid);
      }
      OthersStay(files, cleaned, old(files), exe, OldPath(exe, pid), StagingPath(exe, pid));
      forall a | a in listing && IsArtifact(exe, a) && ok && !SomeRefused(old(calls), calls) ensures a !in files {
        assert !SomeRefused(old(calls), first);
        assert a !in cleaned;
        assert a == StagingPath(exe, pid) || (windows && a == OldPath(exe, pid)) || SameAt(files, cleaned, a);
      }
    }
  }
}
