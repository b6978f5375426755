/** Ordering of release versions and the choice of the release asset to download. */
module Releases {
  import opened Wrappers
  import opened Text

  datatype SemVer = SemVer(major: nat, minor: nat, patch: nat, prerelease: seq<string>, raw: string)

  datatype Candidate = Candidate(tagName: string, assetName: string, assetUrl: string, version: Option<SemVer>)

  // ---------------------------------------------------------------------------------------------
  // Comparisons, with the sign convention of the source
  // ---------------------------------------------------------------------------------------------

  function Sign(x: int): int {
    if x > 0 then 1 else if x < 0 then -1 else 0
  }

  predicate IsNumeric(s: string) {
    s != "" && forall k :: 0 <= k < |s| ==> '0' <= s[k] <= '9'
  }

  function Value(s: string): nat
    requires forall k :: 0 <= k < |s| ==> '0' <= s[k] <= '9'
  {
    if s == "" then 0 else Value(s[..|s| - 1]) * 10 + (s[|s| - 1] as int - '0' as int)
  }

  /** Strings compare character by character, a prefix before what extends it. */
  function CompareText(l: string, r: string): int
    decreases |l|
  {
    if l == "" || r == "" then Sign(|l| - |r|)
    else if l[0] != r[0] then Sign(l[0] as int - r[0] as int)
    else CompareText(l[1..], r[1..])
  }

  function CompareIdentifier(l: string, r: string): int {
    if IsNumeric(l) && IsNumeric(r) then Sign(Value(l) - Value(r))
    else if IsNumeric(l) != IsNumeric(r) then if IsNumeric(l) then -1 else 1
    else CompareText(l, r)
  }

  function CompareIdentifiers(l: seq<string>, r: seq<string>): int
    decreases |l|
  {
    if l == [] || r == [] then Sign(|l| - |r|)
    else
      var first := CompareIdentifier(l[0], r[0]);
      if first != 0 then first else CompareIdentifiers(l[1..], r[1..])
  }

  function CompareCore(l: SemVer, r: SemVer): int {
    if l.major != r.major then Sign(l.major - r.major)
    else if l.minor != r.minor then Sign(l.minor - r.minor)
    else Sign(l.patch - r.patch)
  }

  function CompareSemVer(l: SemVer, r: SemVer): int {
    if CompareCore(l, r) != 0 then CompareCore(l, r)
    else if (l.prerelease != []) != (r.prerelease != []) then if l.prerelease != [] then -1 else 1
    else if l.prerelease == [] then 0
    else CompareIdentifiers(l.prerelease, r.prerelease)
  }

  function CompareCandidate(l: Candidate, r: Candidate): int {
    if l.version.Some? && r.version.Some? then CompareSemVer(l.version.value, r.version.value)
    else if l.version.Some? then 1
    else if r.version.Some? then -1
    else 0
  }

  /** The early-exit loop over pairs of identifiers. */
  method ComparePrereleases(l: seq<string>, r: seq<string>) returns (result: int)
    ensures result == CompareIdentifiers(l, r)
  {
    var k := 0;
    assert l[0..] == l && r[0..] == r;
    while k < |l| && k < |r|
      invariant 0 <= k <= |l| && k <= |r|
      invariant CompareIdentifiers(l[k..], r[k..]) == CompareIdentifiers(l, r)
    {
      assert l[k..][1..] == l[k + 1..] && r[k..][1..] == r[k + 1..];
      result := CompareIdentifier(l[k], r[k]);
      if result != 0 {
        return;
      }
      k := k + 1;
    }
    result := Sign(|l| - |r|);
  }

  // ---------------------------------------------------------------------------------------------
  // Precedence as section 11 of SemVer 2.0.0 words it
  // ---------------------------------------------------------------------------------------------

  /** The texts agree before place k, and there the first one ends or has the smaller character. */
  ghost predicate DivergesAt(l: string, r: string, k: int) {
    && 0 <= k <= |l| && k < |r| && l[..k] == r[..k]
    && (k == |l| || l[k] < r[k])
  }

  ghost predicate TextPrecedes(l: string, r: string) {
    exists k :: DivergesAt(l, r, k)
  }

  /** Identifiers that count as equal: the same number, or the same text. */
  predicate SameIdentifier(l: string, r: string) {
    if IsNumeric(l) && IsNumeric(r) then Value(l) == Value(r) else l == r
  }

  ghost predicate IdentifierPrecedes(l: string, r: string) {
    if IsNumeric(l) && IsNumeric(r) then Value(l) < Value(r)
    else if IsNumeric(l) || IsNumeric(r) then IsNumeric(l)
    else TextPrecedes(l, r)
  }

  ghost predicate SameUpTo(l: seq<string>, r: seq<string>, k: nat)
    requires k <= |l| && k <= |r|
  {
    forall i :: 0 <= i < k ==> SameIdentifier(l[i], r[i])
  }

  ghost predicate PrereleasePrecedes(l: seq<string>, r: seq<string>) {
    exists k: nat :: DecidedAt(l, r, k)
  }

  /** The lists agree before place k, and there the first one ends or has the lower identifier. */
  ghost predicate DecidedAt(l: seq<string>, r: seq<string>, k: nat) {
    && k <= |l| && k < |r| && SameUpTo(l, r, k)
    && (k == |l| || IdentifierPrecedes(l[k], r[k]))
  }

  ghost predicate CorePrecedes(l: SemVer, r: SemVer) {
    || l.major < r.major
    || (l.major == r.major && l.minor < r.minor)
    || (l.major == r.major && l.minor == r.minor && l.patch < r.patch)
  }

  predicate SameCore(l: SemVer, r: SemVer) {
    l.major == r.major && l.minor == r.minor && l.patch == r.patch
  }

  ghost predicate Precedes(l: SemVer, r: SemVer) {
    || CorePrecedes(l, r)
    || (SameCore(l, r) && l.prerelease != [] && r.prerelease == [])
    || (SameCore(l, r) && l.prerelease != [] && r.prerelease != [] && PrereleasePrecedes(l.prerelease, r.prerelease))
  }

  ghost predicate Equivalent(l: SemVer, r: SemVer) {
    SameCore(l, r) && |l.prerelease| == |r.prerelease| && SameUpTo(l.prerelease, r.prerelease, |l.prerelease|)
  }

  lemma DivergesInTail(l: string, r: string, k: nat)
    requires l != "" && r != "" && l[0] == r[0]
    ensures DivergesAt(l, r, k + 1) <==> DivergesAt(l[1..], r[1..], k)
  {
    if k < |l| && k < |r| {
      assert l[..k + 1] == [l[0]] + l[1..][..k] && r[..k + 1] == [r[0]] + r[1..][..k];
      assert l[1..][..k] == l[..k + 1][1..] && r[1..][..k] == r[..k + 1][1..];
    }
  }

  lemma PrecedesInTail(l: string, r: string)
    requires l != "" && r != "" && l[0] == r[0]
    ensures TextPrecedes(l, r) <==> TextPrecedes(l[1..], r[1..])
  {
    if TextPrecedes(l[1..], r[1..]) {
      var k :| DivergesAt(l[1..], r[1..], k);
      DivergesInTail(l, r, k);
    }
    if TextPrecedes(l, r) {
      var k :| DivergesAt(l, r, k);
      DivergesInTail(l, r, k - 1);
    }
  }

  lemma {:induction false} TextMeaning(l: string, r: string)
    ensures CompareText(l, r) == 0 <==> l == r
    ensures CompareText(l, r) == -1 <==> TextPrecedes(l, r)
    ensures -1 <= CompareText(l, r) <= 1
    decreases |l|
  {
    if l == "" || r == "" || l[0] != r[0] {
      assert r != "" && (l == "" || l[0] < r[0]) ==> DivergesAt(l, r, 0);
    } else {
      TextMeaning(l[1..], r[1..]);
      assert l == [l[0]] + l[1..] && r == [r[0]] + r[1..];
      PrecedesInTail(l, r);
    }
  }

  lemma IdentifierMeaning(l: string, r: string)
    ensures CompareIdentifier(l, r) == 0 <==> SameIdentifier(l, r)
    ensures CompareIdentifier(l, r) == -1 <==> IdentifierPrecedes(l, r)
    ensures -1 <= CompareIdentifier(l, r) <= 1
  {
    TextMeaning(l, r);
  }

  lemma {:induction false} PrereleaseMeaning(l: seq<string>, r: seq<string>)
    ensures CompareIdentifiers(l, r) == 0 <==> |l| == |r| && SameUpTo(l, r, |l|)
    ensures CompareIdentifiers(l, r) == -1 <==> PrereleasePrecedes(l, r)
    ensures -1 <= CompareIdentifiers(l, r) <= 1
    decreases |l|
  {
    if l == [] || r == [] {
      assert r != [] ==> DecidedAt(l, r, 0);
    } else {
      IdentifierMeaning(l[0], r[0]);
      if CompareIdentifier(l[0], r[0]) != 0 {
        assert IdentifierPrecedes(l[0], r[0]) ==> DecidedAt(l, r, 0);
        assert forall k: nat :: 0 < k <= |l| && k <= |r| ==> !SameUpTo(l, r, k);
      } else {
        PrereleaseMeaning(l[1..], r[1..]);
        SameUpToTail(l, r);
        if PrereleasePrecedes(l[1..], r[1..]) {
          var k: nat :| DecidedAt(l[1..], r[1..], k);
          assert DecidedAt(l, r, k + 1);
        }
        if PrereleasePrecedes(l, r) {
          var k: nat :| DecidedAt(l, r, k);
          assert k > 0;
          assert DecidedAt(l[1..], r[1..], k - 1);
        }
      }
    }
  }

  lemma SameUpToTail(l: seq<string>, r: seq<string>)
    requires l != [] && r != [] && SameIdentifier(l[0], r[0])
    ensures forall k: nat :: k <= |l[1..]| && k <= |r[1..]| ==> (SameUpTo(l, r, k + 1) <==> SameUpTo(l[1..], r[1..], k))
  {
    forall k: nat | k <= |l[1..]| && k <= |r[1..]|
      ensures SameUpTo(l, r, k + 1) <==> SameUpTo(l[1..], r[1..], k)
    {
      if SameUpTo(l, r, k + 1) {
        forall i | 0 <= i < k ensures SameIdentifier(l[1..][i], r[1..][i]) {
          assert SameIdentifier(l[i + 1], r[i + 1]);
        }
      }
      if SameUpTo(l[1..], r[1..], k) {
        forall i | 0 <= i < k + 1 ensures SameIdentifier(l[i], r[i]) {
          if i > 0 {
            assert SameIdentifier(l[1..][i - 1], r[1..][i - 1]);
          }
        }
      }
    }
  }

  /** The comparison is precedence: below zero, zero and above zero mean what the standard says. */
  lemma CompareSemVerMeaning(l: SemVer, r: SemVer)
    ensures CompareSemVer(l, r) == -1 <==> Precedes(l, r)
    ensures CompareSemVer(l, r) == 0 <==> Equivalent(l, r)
    ensures -1 <= CompareSemVer(l, r) <= 1
  {
    PrereleaseMeaning(l.prerelease, r.prerelease);
  }

  // ---------------------------------------------------------------------------------------------
  // A total preorder
  // ---------------------------------------------------------------------------------------------

  /** Transitivity of a comparison, strict where either step is. */
  predicate Chains(ab: int, bc: int, ac: int) {
    ab <= 0 && bc <= 0 ==> ac <= 0 && (ab < 0 || bc < 0 ==> ac < 0)
  }

  lemma {:induction false} TextOrder(a: string, b: string, c: string)
    ensures CompareText(a, b) == -CompareText(b, a)
    ensures Chains(CompareText(a, b), CompareText(b, c), CompareText(a, c))
    decreases |a|
  {
    if a != "" && b != "" {
      TextOrder(a[1..], b[1..], if c == "" then "" else c[1..]);
    }
  }

  lemma IdentifierOrder(a: string, b: string, c: string)
    ensures CompareIdentifier(a, b) == -CompareIdentifier(b, a)
    ensures Chains(CompareIdentifier(a, b), CompareIdentifier(b, c), CompareIdentifier(a, c))
  {
    TextOrder(a, b, c);
  }

  lemma {:induction false} PrereleaseOrder(a: seq<string>, b: seq<string>, c: seq<string>)
    ensures CompareIdentifiers(a, b) == -CompareIdentifiers(b, a)
    ensures Chains(CompareIdentifiers(a, b), CompareIdentifiers(b, c), CompareIdentifiers(a, c))
    decreases |a|
  {
    if a != [] && b != [] {
      var rest := if c == [] then [] else c[1..];
      IdentifierOrder(a[0], b[0], if c == [] then "" else c[0]);
      PrereleaseOrder(a[1..], b[1..], rest);
    }
  }

  lemma SemVerOrder(a: SemVer, b: SemVer, c: SemVer)
    ensures CompareSemVer(a, b) == -CompareSemVer(b, a)
    ensures Chains(CompareSemVer(a, b), CompareSemVer(b, c), CompareSemVer(a, c))
  {
    PrereleaseOrder(a.prerelease, b.prerelease, c.prerelease);
  }

  /** Opposite signs when swapped, hence any two compare; transitive, strictly where either step is strict. */
  lemma CandidatesFormPreorder(a: Candidate, b: Candidate, c: Candidate)
    ensures CompareCandidate(a, b) == -CompareCandidate(b, a)
    ensures CompareCandidate(a, a) == 0
    ensures Chains(CompareCandidate(a, b), CompareCandidate(b, c), CompareCandidate(a, c))
  {
    if a.version.Some? {
      SemVerOrder(a.version.value, a.version.value, a.version.value);
      if b.version.Some? {
        SemVerOrder(a.version.value, b.version.value, if c.version.Some? then c.version.value else a.version.value);
      }
    }
  }

  // ---------------------------------------------------------------------------------------------
  // Choosing
  // ---------------------------------------------------------------------------------------------

  /** Precedence of candidates: an unparsed version below every parsed one, parsed ones as the standard says. */
  ghost predicate Below(l: Candidate, r: Candidate) {
    r.version.Some? && (l.version.None? || Precedes(l.version.value, r.version.value))
  }

  ghost predicate Level(l: Candidate, r: Candidate) {
    if l.version.Some? && r.version.Some? then Equivalent(l.version.value, r.version.value)
    else l.version.None? && r.version.None?
  }

  lemma CompareCandidateMeaning(l: Candidate, r: Candidate)
    ensures CompareCandidate(l, r) == -1 <==> Below(l, r)
    ensures CompareCandidate(l, r) == 0 <==> Level(l, r)
    ensures CompareCandidate(l, r) == 1 <==> Below(r, l)
    ensures -1 <= CompareCandidate(l, r) <= 1
  {
    if l.version.Some? && r.version.Some? {
      CompareSemVerMeaning(l.version.value, r.version.value);
      CompareSemVerMeaning(r.version.value, l.version.value);
      SemVerOrder(l.version.value, r.version.value, l.version.value);
    }
  }

  /** The first of the candidates that is below none. */
  ghost predicate IsNewest(candidates: seq<Candidate>, i: nat) {
    && i < |candidates|
    && (forall k :: 0 <= k < |candidates| ==> !Below(candidates[i], candidates[k]))
    && (forall k :: 0 <= k < i ==> Below(candidates[k], candidates[i]))
  }

  lemma NotBelowThenBelow(a: Candidate, b: Candidate, c: Candidate)
    requires !Below(b, a) && Below(b, c)
    ensures Below(a, c)
  {
    CompareCandidateMeaning(a, b);
    CompareCandidateMeaning(b, c);
    CompareCandidateMeaning(a, c);
    CandidatesFormPreorder(a, b, c);
  }

  method Newest(candidates: seq<Candidate>) returns (best: nat)
    requires candidates != []
    ensures IsNewest(candidates, best)
  {
    best := 0;
    CompareCandidateMeaning(candidates[0], candidates[0]);
    CandidatesFormPreorder(candidates[0], candidates[0], candidates[0]);
    for i := 1 to |candidates|
      invariant best < i && IsNewest(candidates[..i], best)
    {
      ghost var seen := candidates[..i];
      CompareCandidateMeaning(candidates[i], candidates[best]);
      CompareCandidateMeaning(candidates[i], candidates[i]);
      CandidatesFormPreorder(candidates[i], candidates[i], candidates[i]);
      if CompareCandidate(candidates[i], candidates[best]) > 0 {
        forall k | 0 <= k < i ensures Below(candidates[k], candidates[i]) && !Below(candidates[i], candidates[k]) {
          assert !Below(seen[best], seen[k]);
          NotBelowThenBelow(candidates[k], candidates[best], candidates[i]);
          CompareCandidateMeaning(candidates[k], candidates[i]);
        }
        best := i;
      } else {
        forall k | 0 <= k < i + 1
          ensures !Below(candidates[best], candidates[k])
          ensures k < best ==> Below(candidates[k], candidates[best])
        {
          assert k < i ==> candidates[k] == seen[k];
        }
      }
    }
    assert candidates[..|candidates|] == candidates;
  }

  /** Why a candidate was chosen; the reasons from best to worst. */
  datatype Reason = ExactVersion | SameTrack | LatestAvailable | ApiOrderFallback

  predicate Fits(reason: Reason, c: Candidate, preferred: Option<SemVer>) {
    match reason
    case ExactVersion => preferred.Some? && c.version == preferred
    case SameTrack =>
      && preferred.Some? && c.version.Some?
      && c.version.value.major == preferred.value.major && c.version.value.minor == preferred.value.minor
    case LatestAvailable => c.version.Some?
    case ApiOrderFallback => true
  }

  ghost predicate NoneFits(reason: Reason, candidates: seq<Candidate>, preferred: Option<SemVer>) {
    forall k :: 0 <= k < |candidates| ==> !Fits(reason, candidates[k], preferred)
  }

  /** `chosen` holds, in their order, the candidates that fit; `at` says where each one stood. */
  ghost predicate Selects(candidates: seq<Candidate>, preferred: Option<SemVer>, reason: Reason,
                          chosen: seq<Candidate>, at: seq<nat>) {
    && |at| == |chosen|
    && (forall k :: 0 <= k < |at| ==>
          at[k] < |candidates| && candidates[at[k]] == chosen[k] && Fits(reason, chosen[k], preferred))
    && (forall j, k :: 0 <= j < k < |at| ==> at[j] < at[k])
    && (forall i :: 0 <= i < |candidates| && Fits(reason, candidates[i], preferred) ==> i in at)
  }

  ghost predicate IsSelection(candidates: seq<Candidate>, preferred: Option<SemVer>, reason: Reason,
                              chosen: seq<Candidate>) {
    exists at: seq<nat> :: Selects(candidates, preferred, reason, chosen, at)
  }

  method Select(candidates: seq<Candidate>, preferred: Option<SemVer>, reason: Reason) returns (chosen: seq<Candidate>)
    ensures IsSelection(candidates, preferred, reason, chosen)
  {
    ghost var at: seq<nat> := [];
    chosen := [];
    for i := 0 to |candidates|
      invariant Selects(candidates[..i], preferred, reason, chosen, at)
    {
      if Fits(reason, candidates[i], preferred) {
        chosen := chosen + [candidates[i]];
        at := at + [i];
        assert at[|at| - 1] == i;
      }
    }
    assert candidates[..|candidates|] == candidates;
  }

  /** Candidate `i` fits; no fitting candidate has a version it precedes, and it precedes the fitting ones before it. */
  ghost predicate IsNewestFit(candidates: seq<Candidate>, preferred: Option<SemVer>, reason: Reason, i: nat) {
    && i < |candidates| && Fits(reason, candidates[i], preferred)
    && (forall k :: 0 <= k < |candidates| && Fits(reason, candidates[k], preferred) ==>
          !Below(candidates[i], candidates[k]) && (k < i ==> Below(candidates[k], candidates[i])))
  }

  lemma NewestAt(candidates: seq<Candidate>, preferred: Option<SemVer>, reason: Reason, chosen: seq<Candidate>,
                 at: seq<nat>, best: nat)
    requires Selects(candidates, preferred, reason, chosen, at) && IsNewest(chosen, best)
    ensures IsNewestFit(candidates, preferred, reason, at[best])
  {
    var i := at[best];
    forall k | 0 <= k < |candidates| && Fits(reason, candidates[k], preferred)
      ensures !Below(candidates[i], candidates[k]) && (k < i ==> Below(candidates[k], candidates[i]))
    {
      var j :| 0 <= j < |at| && at[j] == k;
      assert chosen[j] == candidates[k];
    }
  }

  ghost predicate IsChoice(candidates: seq<Candidate>, preferred: Option<SemVer>, reason: Reason, c: Candidate) {
    exists i: nat :: IsNewestFit(candidates, preferred, reason, i) && candidates[i] == c
  }

  /** The newest of the candidates that fit, if any does. */
  method NewestFit(candidates: seq<Candidate>, preferred: Option<SemVer>, reason: Reason) returns (r: Option<Candidate>)
    ensures r.None? ==> NoneFits(reason, candidates, preferred)
    ensures r.Some? ==> IsChoice(candidates, preferred, reason, r.value)
  {
    var chosen := Select(candidates, preferred, reason);
    ghost var at: seq<nat> :| Selects(candidates, preferred, reason, chosen, at);
    if chosen == [] {
      return None;
    }
    var best := Newest(chosen);
    NewestAt(candidates, preferred, reason, chosen, at, best);
    r := Some(chosen[best]);
  }

  /** What the answer means for a caller who knows only versions and their precedence. */
  ghost predicate AnswersWell(candidates: seq<Candidate>, preferred: Option<SemVer>, c: Candidate, reason: Reason) {
    && c in candidates
    && (reason.ExactVersion? <==> exists d :: d in candidates && preferred.Some? && d.version == preferred)
    && (reason.ExactVersion? ==> c.version == preferred)
    && (reason.SameTrack? ==> c.version.Some? && OnTrack(c.version.value, preferred))
    && (reason.SameTrack? || reason.ExactVersion? <==>
          exists d :: d in candidates && d.version.Some? && OnTrack(d.version.value, preferred))
    && (reason.SameTrack? ==> forall d :: d in candidates && d.version.Some? && OnTrack(d.version.value, preferred) ==>
          !Precedes(c.version.value, d.version.value))
    && (reason.LatestAvailable? ==> c.version.Some?)
    && (reason.LatestAvailable? ==> forall d :: d in candidates && d.version.Some? ==>
          !Precedes(c.version.value, d.version.value))
    && (reason.ApiOrderFallback? <==> forall d :: d in candidates ==> d.version.None?)
    && (reason.ApiOrderFallback? ==> c == candidates[0])
  }

  predicate OnTrack(version: SemVer, preferred: Option<SemVer>) {
    preferred.Some? && (version.major, version.minor) == (preferred.value.major, preferred.value.minor)
  }

  lemma ChoiceAnswersWell(candidates: seq<Candidate>, preferred: Option<SemVer>, c: Candidate, reason: Reason)
    requires candidates != [] && IsChoice(candidates, preferred, reason, c)
    requires !reason.ExactVersion? ==> NoneFits(ExactVersion, candidates, preferred)
    requires reason.LatestAvailable? || reason.ApiOrderFallback? ==> NoneFits(SameTrack, candidates, preferred)
    requires reason.ApiOrderFallback? ==> NoneFits(LatestAvailable, candidates, preferred) && c == candidates[0]
    ensures AnswersWell(candidates, preferred, c, reason)
  {
    forall d | d in candidates
      ensures Fits(reason, d, preferred) ==> !Below(c, d)
      ensures !reason.ExactVersion? ==> !Fits(ExactVersion, d, preferred)
      ensures reason.LatestAvailable? || reason.ApiOrderFallback? ==> !Fits(SameTrack, d, preferred)
      ensures reason.ApiOrderFallback? ==> !Fits(LatestAvailable, d, preferred)
    {
      var k :| 0 <= k < |candidates| && candidates[k] == d;
    }
    assert candidates[0] in candidates;
  }

  /** The best reason that fits any candidate decides, and the first of the newest candidates it fits is returned. */
  method ChooseCandidate(candidates: seq<Candidate>, preferred: Option<SemVer>) returns (c: Candidate, reason: Reason)
    requires candidates != []
    ensures IsChoice(candidates, preferred, reason, c)
    ensures !reason.ExactVersion? ==> NoneFits(ExactVersion, candidates, preferred)
    ensures reason.LatestAvailable? || reason.ApiOrderFallback? ==> NoneFits(SameTrack, candidates, preferred)
    ensures reason.ApiOrderFallback? ==> NoneFits(LatestAvailable, candidates, preferred) && c == candidates[0]
    ensures AnswersWell(candidates, preferred, c, reason)
  {
    c, reason := ChooseByReason(candidates, preferred);
    ChoiceAnswersWell(candidates, preferred, c, reason);
  }

  method ChooseByReason(candidates: seq<Candidate>, preferred: Option<SemVer>) returns (c: Candidate, reason: Reason)
    requires candidates != []
    ensures IsChoice(candidates, preferred, reason, c)
    ensures !reason.ExactVersion? ==> NoneFits(ExactVersion, candidates, preferred)
    ensures reason.LatestAvailable? || reason.ApiOrderFallback? ==> NoneFits(SameTrack, candidates, preferred)
    ensures reason.ApiOrderFallback? ==> NoneFits(LatestAvailable, candidates, preferred) && c == candidates[0]
  {
    if preferred.Some? {
      var exact := NewestFit(candidates, preferred, ExactVersion);
      if exact.Some? {
        return exact.value, ExactVersion;
      }
      var sameTrack := NewestFit(candidates, preferred, SameTrack);
      if sameTrack.Some? {
        return sameTrack.value, SameTrack;
      }
    }
    var parseable := NewestFit(candidates, preferred, LatestAvailable);
    if parseable.Some? {
      return parseable.value, LatestAvailable;
    }
    assert IsNewestFit(candidates, preferred, ApiOrderFallback, 0);
    return candidates[0], ApiOrderFallback;
  }

  // ---------------------------------------------------------------------------------------------
  // Identifiers as they are written
  // ---------------------------------------------------------------------------------------------

  predicate AllDigits(s: string) {
    s != "" && forall k :: 0 <= k < |s| ==> s[k] in "0123456789"
  }

  /** A number as it is usually written. */
  predicate IsNumeral(s: string) {
    AllDigits(s) && (|s| == 1 || s[0] != '0')
  }

  function PowerOfTen(n: nat): nat {
    if n == 0 then 1 else 10 * PowerOfTen(n - 1)
  }

  lemma {:induction false} ValueIsSmall(s: string)
    requires forall k :: 0 <= k < |s| ==> '0' <= s[k] <= '9'
    ensures Value(s) < PowerOfTen(|s|)
  {
    if s != "" {
      ValueIsSmall(s[..|s| - 1]);
    }
  }

  lemma {:induction false} ValueIsLarge(s: string)
    requires s != "" && s[0] != '0' && forall k :: 0 <= k < |s| ==> '0' <= s[k] <= '9'
    ensures Value(s) >= PowerOfTen(|s| - 1)
  {
    if |s| > 1 {
      ValueIsLarge(s[..|s| - 1]);
    } else {
      assert s[..0] == "";
    }
  }

  lemma {:induction false} PowersRise(m: nat, n: nat)
    requires m <= n
    ensures PowerOfTen(m) <= PowerOfTen(n)
  {
    if m < n {
      PowersRise(m, n - 1);
    }
  }

  lemma LongerIsLarger(l: string, r: string)
    requires IsNumeric(l) && IsNumeric(r) && r[0] != '0' && |l| < |r|
    ensures Value(l) < Value(r)
  {
    ValueIsSmall(l);
    ValueIsLarge(r);
    PowersRise(|l|, |r| - 1);
  }

  lemma TextPrecedesAtEnd(l: string, r: string)
    requires |l| == |r| > 0
    ensures var n := |l| - 1;
            TextPrecedes(l, r) <==> TextPrecedes(l[..n], r[..n]) || (l[..n] == r[..n] && l[n] < r[n])
  {
    var n := |l| - 1;
    if TextPrecedes(l, r) {
      var k :| DivergesAt(l, r, k);
      if k < n {
        assert l[..n][..k] == l[..k] && r[..n][..k] == r[..k];
        assert DivergesAt(l[..n], r[..n], k);
      }
    }
    if TextPrecedes(l[..n], r[..n]) {
      var k :| DivergesAt(l[..n], r[..n], k);
      assert l[..n][..k] == l[..k] && r[..n][..k] == r[..k];
      assert DivergesAt(l, r, k);
    }
    if l[..n] == r[..n] && l[n] < r[n] {
      assert DivergesAt(l, r, n);
    }
  }

  lemma {:induction false} SameLengthByText(l: string, r: string)
    requires |l| == |r| && forall k :: 0 <= k < |l| ==> '0' <= l[k] <= '9' && '0' <= r[k] <= '9'
    ensures Value(l) < Value(r) <==> TextPrecedes(l, r)
    ensures Value(l) == Value(r) <==> l == r
    decreases |l|
  {
    if l != "" {
      var n := |l| - 1;
      SameLengthByText(l[..n], r[..n]);
      TextPrecedesAtEnd(l, r);
      assert l == l[..n] + [l[n]] && r == r[..n] + [r[n]];
    }
  }

  lemma {:induction false} LeadingZeroIsNothing(s: string)
    requires AllDigits(s)
    ensures Value("0" + s) == Value(s)
  {
    var t, n := "0" + s, |s| - 1;
    assert t[..|t| - 1] == "0" + s[..n] && t[|t| - 1] == s[n];
    if n > 0 {
      LeadingZeroIsNothing(s[..n]);
    } else {
      assert "0" + s[..0] == "0" && "0"[..0] == "";
    }
  }

  /** Without a word about values: numerals by length and then by digits, before all other texts, these by character. */
  lemma IdentifierRules(l: string, r: string)
    ensures IsNumeral(l) && IsNumeral(r) ==>
              && (CompareIdentifier(l, r) == -1 <==> |l| < |r| || (|l| == |r| && TextPrecedes(l, r)))
              && (CompareIdentifier(l, r) == 0 <==> l == r)
    ensures AllDigits(l) && AllDigits(r) ==> CompareIdentifier("0" + l, r) == CompareIdentifier(l, r)
    ensures AllDigits(l) && !AllDigits(r) ==> CompareIdentifier(l, r) == -1 && CompareIdentifier(r, l) == 1
    ensures !AllDigits(l) && !AllDigits(r) ==>
              && (CompareIdentifier(l, r) == -1 <==> TextPrecedes(l, r))
              && (CompareIdentifier(l, r) == 0 <==> l == r)
  {
    DigitsAreNumeric(l);
    DigitsAreNumeric(r);
    TextMeaning(l, r);
    if IsNumeral(l) && IsNumeral(r) {
      if |l| < |r| {
        LongerIsLarger(l, r);
      } else if |l| > |r| {
        LongerIsLarger(r, l);
      } else {
        SameLengthByText(l, r);
      }
    }
    if AllDigits(l) && AllDigits(r) {
      DigitsAreNumeric("0" + l);
      LeadingZeroIsNothing(l);
    }
  }

  lemma DigitsAreNumeric(s: string)
    ensures AllDigits(s) <==> IsNumeric(s)
  {
    forall k | 0 <= k < |s| ensures s[k] in "0123456789" <==> '0' <= s[k] <= '9' {
      DigitChars(s[k]);
    }
  }
}
