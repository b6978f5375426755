/** Names of staging files, and what a reader of a file remembers: shared by both ways of writing a file. */
module Staging {
  import opened Wrappers

  type Name = string
  type Inode = nat
  type Directory = map<Name, Inode>

  /** Position of the last dot of `name`, if any. */
  function LastDot(name: Name): (r: Option<nat>)
    ensures r.Some? ==> r.value < |name| && name[r.value] == '.' && '.' !in name[r.value + 1..]
    ensures r.None? ==> '.' !in name
  {
    if name == [] then None
    else if name[|name| - 1] == '.' then Some(|name| - 1)
    else
      var r := LastDot(name[..|name| - 1]);
      assert name == name[..|name| - 1] + [name[|name| - 1]];
      assert r.Some? ==> name[r.value + 1..] == name[..|name| - 1][r.value + 1..] + [name[|name| - 1]];
      r
  }

  /** A file name without its extension; a leading dot does not start one. */
  function Stem(name: Name): Name {
    var dot := LastDot(name);
    if dot.None? || dot.value == 0 then name else name[..dot.value]
  }

  /** `tag` stands for the process id and the random number drawn for one call. */
  function StagingName(dest: Name, tag: string): Name {
    Stem(dest) + ".kalam-" + tag + ".tmp"
  }

  lemma StagingIsNotDestination(dest: Name, tag: string)
    ensures StagingName(dest, tag) != dest
  {
    var staging, dot := StagingName(dest, tag), LastDot(dest);
    if dot.Some? && dot.value != 0 {
      var k := |Stem(dest)| + 7 + |tag|;
      assert staging[k] == '.';
      assert staging[dot.value + 1..][k - dot.value - 1] == '.';
    }
  }

  /** The staging file of a file with an extension has another in its place; without one, it is added. */
  lemma StagingNameForms(stem: Name, extension: string, tag: string)
    requires '.' !in extension
    ensures stem != "" ==> StagingName(stem + "." + extension, tag) == stem + ".kalam-" + tag + ".tmp"
    ensures StagingName("." + extension, tag) == "." + extension + ".kalam-" + tag + ".tmp"
    ensures StagingName(extension, tag) == extension + ".kalam-" + tag + ".tmp"
  {
    LastDotIs(stem, extension);
    LastDotIs("", extension);
    assert "" + "." + extension == "." + extension;
    assert (stem + "." + extension)[..|stem|] == stem;
    assert LastDot(extension) == None;
  }

  lemma {:induction false} LastDotIs(stem: Name, extension: string)
    requires '.' !in extension
    ensures LastDot(stem + "." + extension) == Some(|stem|)
    decreases |extension|
  {
    var name, n := stem + "." + extension, |extension| - 1;
    if extension == "" {
      assert name[|name| - 1] == '.';
    } else {
      assert name[|name| - 1] == extension[n] && name[..|name| - 1] == stem + "." + extension[..n];
      LastDotIs(stem, extension[..n]);
    }
  }

  /** Calls that draw different tags stage in different files. */
  lemma TagsKeepApart(dest: Name, a: string, b: string)
    ensures StagingName(dest, a) == StagingName(dest, b) <==> a == b
  {
    var x, y, n := StagingName(dest, a), StagingName(dest, b), |Stem(dest)| + 7;
    assert x[n..n + |a|] == a && y[n..n + |b|] == b;
  }

  /** No staging name of any of the destinations is itself a destination. */
  ghost predicate Separate(dests: set<Name>) {
    forall d, e, tag :: d in dests && e in dests ==> StagingName(d, tag) != e
  }

  /** A single destination is always apart from its own staging names. */
  lemma OneDestinationIsSeparate(d: Name)
    ensures Separate({d})
  {
    forall tag ensures StagingName(d, tag) != d {
      StagingIsNotDestination(d, tag);
    }
  }

  /** `atOpen` remembers the bytes of the file at the moment it was opened. */
  datatype Reader =
    | Reading(name: Name, inode: Inode, got: Bytes, atOpen: Option<Bytes>)
    | Finished(name: Name, bytes: Option<Bytes>, atOpen: Option<Bytes>)
}
