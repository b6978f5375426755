/**
 Which commands may be kept on disk. The first part is the test as the program makes it; the rest says in plain
 words and positions which commands pass.
 */
module HistoryPolicy {
  import opened Wrappers
  import opened Text

  /** Meta commands about credentials, and those not worth keeping. */
  function BlockedPrefix(k: nat): string
    requires k < 8
  {
    if k == 0 then "\\history" else if k == 1 then "\\h" else if k == 2 then "\\quit" else if k == 3 then "\\q"
    else if k == 4 then "\\update-credentials" else if k == 5 then "\\show-credentials"
    else if k == 6 then "\\credentials" else "\\delete-credentials"
  }

  function SensitiveMarker(k: nat): string
    requires k < 8
  {
    if k == 0 then "password" else if k == 1 then "authorization" else if k == 2 then "bearer "
    else if k == 3 then "refresh_token" else if k == 4 then "jwt_token" else if k == 5 then "api_key"
    else if k == 6 then "secret" else "client_secret"
  }

  predicate IsBlocked(lower: string) {
    exists k :: 0 <= k < 8 && (lower == BlockedPrefix(k) || BlockedPrefix(k) + " " <= lower)
  }

  predicate IsSensitive(lower: string) {
    exists k :: 0 <= k < 8 && Contains(lower, SensitiveMarker(k))
  }

  predicate ShouldPersist(command: string) {
    Trim(command) != "" && !IsBlocked(Lower(Trim(command))) && !IsSensitive(Lower(Trim(command)))
  }

  // ---------------------------------------------------------------------------------------------
  // The rule in plain words
  // ---------------------------------------------------------------------------------------------

  ghost predicate Mentions(s: string, word: string) {
    exists i :: HasAt(s, i, word)
  }

  ghost predicate MentionsSecret(s: string) {
    || Mentions(s, "password") || Mentions(s, "authorization") || Mentions(s, "bearer ")
    || Mentions(s, "refresh_token") || Mentions(s, "jwt_token") || Mentions(s, "api_key")
    || Mentions(s, "secret") || Mentions(s, "client_secret")
  }

  /** `s` is the command, or the command followed by a space and more. */
  predicate Calls(s: string, command: string) {
    HasAt(s, 0, command) && (|s| == |command| || s[|command|] == ' ')
  }

  predicate CallsBlocked(s: string) {
    || Calls(s, "\\history") || Calls(s, "\\h") || Calls(s, "\\quit") || Calls(s, "\\q")
    || Calls(s, "\\update-credentials") || Calls(s, "\\show-credentials")
    || Calls(s, "\\credentials") || Calls(s, "\\delete-credentials")
  }

  /** A command, white space around it aside, that is not empty, mentions no secret and is no blocked call. */
  predicate IsPlainText(core: string) {
    core != "" && !IsSpace(core[0]) && !IsSpace(core[|core| - 1])
  }

  ghost predicate Storable(command: string) {
    exists before, core, after :: MayStore(command, before, core, after)
  }

  ghost predicate MayStore(command: string, before: string, core: string, after: string) {
    && command == Around(before, core, after) && IsPlainText(core) && AllSpaces(before) && AllSpaces(after)
    && !MentionsSecret(core) && !CallsBlocked(core)
  }

  function Around(before: string, core: string, after: string): string {
    before + core + after
  }

  lemma LowerContains(s: string, word: string)
    requires IsLowerCase(word)
    ensures Contains(Lower(s), word) <==> Mentions(s, word)
  {
    LowerKeepsLength(s);
    if Contains(Lower(s), word) {
      var i :| 0 <= i <= |Lower(s)| && word <= Lower(s)[i..];
      LowerHasAt(s, i, word);
    }
    if Mentions(s, word) {
      var i :| HasAt(s, i, word);
      LowerHasAt(s, i, word);
    }
  }

  lemma LowerCalls(s: string, command: string)
    requires IsLowerCase(command)
    ensures Lower(s) == command || command + " " <= Lower(s) <==> Calls(s, command)
  {
    LowerKeepsLength(s);
    LowerHasAt(s, 0, command);
    var lower := Lower(s);
    assert lower[0..] == lower;
    if |s| > |command| {
      LowerAt(s, |command|);
      assert command + " " <= lower <==> command <= lower && lower[|command|] == ' ';
    }
  }

  lemma PrefixIsLowerCase(k: nat)
    requires k < 8
    ensures IsLowerCase(BlockedPrefix(k))
  {
    var word := BlockedPrefix(k);
    forall j | 0 <= j < |word| ensures !('A' <= word[j] <= 'Z') {
    }
  }

  lemma MarkerIsLowerCase(k: nat)
    requires k < 8
    ensures IsLowerCase(SensitiveMarker(k))
  {
    var word := SensitiveMarker(k);
    forall j | 0 <= j < |word| ensures !('A' <= word[j] <= 'Z') {
    }
  }

  lemma SensitiveMeansSecret(core: string)
    ensures IsSensitive(Lower(core)) <==> MentionsSecret(core)
  {
    forall k | 0 <= k < 8 ensures Contains(Lower(core), SensitiveMarker(k)) <==> Mentions(core, SensitiveMarker(k)) {
      MarkerIsLowerCase(k);
      LowerContains(core, SensitiveMarker(k));
    }
    AllMarkers(core);
  }

  lemma AllMarkers(core: string)
    ensures MentionsSecret(core) <==> exists k :: 0 <= k < 8 && Mentions(core, SensitiveMarker(k))
  {
    assert SensitiveMarker(0) == "password" && SensitiveMarker(1) == "authorization";
    assert SensitiveMarker(2) == "bearer " && SensitiveMarker(3) == "refresh_token";
    assert SensitiveMarker(4) == "jwt_token" && SensitiveMarker(5) == "api_key";
    assert SensitiveMarker(6) == "secret" && SensitiveMarker(7) == "client_secret";
  }

  lemma BlockedMeansCall(core: string)
    ensures IsBlocked(Lower(core)) <==> CallsBlocked(core)
  {
    forall k | 0 <= k < 8
      ensures Lower(core) == BlockedPrefix(k) || BlockedPrefix(k) + " " <= Lower(core) <==>
              Calls(core, BlockedPrefix(k))
    {
      PrefixIsLowerCase(k);
      LowerCalls(core, BlockedPrefix(k));
    }
    AllCalls(core);
  }

  lemma AllCalls(core: string)
    ensures CallsBlocked(core) <==> exists k :: 0 <= k < 8 && Calls(core, BlockedPrefix(k))
  {
    assert BlockedPrefix(0) == "\\history" && BlockedPrefix(1) == "\\h";
    assert BlockedPrefix(2) == "\\quit" && BlockedPrefix(3) == "\\q";
    assert BlockedPrefix(4) == "\\update-credentials" && BlockedPrefix(5) == "\\show-credentials";
    assert BlockedPrefix(6) == "\\credentials" && BlockedPrefix(7) == "\\delete-credentials";
  }

  lemma TrimAround(before: string, core: string, after: string)
    requires AllSpaces(before) && AllSpaces(after) && IsPlainText(core)
    ensures Trim(Around(before, core, after)) == core
  {
    TrimByIs(before, core, after, IsSpace);
  }

  lemma PersistedExactly(before: string, core: string, after: string)
    requires AllSpaces(before) && AllSpaces(after) && IsPlainText(core)
    ensures ShouldPersist(Around(before, core, after)) <==> !MentionsSecret(core) && !CallsBlocked(core)
  {
    TrimAround(before, core, after);
    SensitiveMeansSecret(core);
    BlockedMeansCall(core);
  }

  lemma PersistedIsStorable(command: string)
    requires ShouldPersist(command)
    ensures Storable(command)
  {
    var core := Trim(command);
    var before, after := TrimByParts(command, IsSpace);
    PersistedExactly(before, core, after);
    assert MayStore(command, before, core, after);
  }

  /** The program keeps a command exactly when the rule allows it. */
  lemma StorableExactly(command: string)
    ensures ShouldPersist(command) <==> Storable(command)
  {
    if ShouldPersist(command) {
      PersistedIsStorable(command);
    }
    if Storable(command) {
      var before, core, after :| MayStore(command, before, core, after);
      PersistedExactly(before, core, after);
    }
  }

  lemma BlankIsNotStorable(command: string)
    requires AllSpaces(command)
    ensures !Storable(command)
  {
    TrimByIs(command, "", "", IsSpace);
    assert command + "" + "" == command;
    StorableExactly(command);
  }

  lemma TextIsInside(before: string, core: string, after: string, i: int)
    requires AllSpaces(before) && AllSpaces(after) && 0 <= i < |Around(before, core, after)|
    requires !IsSpace(Around(before, core, after)[i])
    ensures |before| <= i < |before| + |core|
  {
  }

  /** A word that begins and ends with no space cannot be trimmed off, not even in part. */
  lemma MentionSurvivesTrim(before: string, core: string, after: string, i: int, word: string, k: int)
    requires AllSpaces(before) && AllSpaces(after) && HasAt(Around(before, core, after), i, word)
    requires word != "" && !IsSpace(Around(before, core, after)[i])
    requires i + |word| - 1 <= k < |Around(before, core, after)| && !IsSpace(Around(before, core, after)[k])
    ensures Mentions(core, word)
  {
    var s := Around(before, core, after);
    TextIsInside(before, core, after, i);
    TextIsInside(before, core, after, k);
    assert HasAt(core, i - |before|, word) by {
      forall j | 0 <= j < |word| ensures SameLetter(core[i - |before| + j], word[j]) {
        assert core[i - |before| + j] == s[i + j];
      }
    }
  }

  /** From place `i` on `command` has `word`, and does not end in the white space the word may end with. */
  ghost predicate HasWithin(command: string, i: int, word: string) {
    && HasAt(command, i, word) && word != "" && !IsSpace(command[i])
    && exists k :: i + |word| - 1 <= k < |command| && !IsSpace(command[k])
  }

  lemma SecretWithin(command: string, i: int, word: string)
    requires HasWithin(command, i, word)
    requires word in ["password", "authorization", "bearer ", "refresh_token", "jwt_token", "api_key", "secret",
                      "client_secret"]
    ensures !Storable(command)
  {
    var k :| i + |word| - 1 <= k < |command| && !IsSpace(command[k]);
    forall before, core, after | command == Around(before, core, after) && AllSpaces(before) && AllSpaces(after)
      ensures MentionsSecret(core)
    {
      MentionSurvivesTrim(before, core, after, i, word, k);
    }
  }

  lemma LetterIsText(c: char, d: char)
    requires SameLetter(c, d) && 'a' <= d <= 'z'
    ensures !IsSpace(c)
  {
  }

  predicate IsBareMarker(word: string) {
    || word == "password" || word == "authorization" || word == "refresh_token" || word == "jwt_token"
    || word == "api_key" || word == "secret" || word == "client_secret"
  }

  lemma BareMarkerEnds(word: string)
    requires IsBareMarker(word)
    ensures |word| > 0 && 'a' <= word[0] <= 'z' && 'a' <= word[|word| - 1] <= 'z'
  {
  }

  /** Any of these words, anywhere in a command and in any mixture of cases, keeps it off the disk. */
  lemma SecretAnywhere(command: string, i: int, word: string)
    requires HasAt(command, i, word) && IsBareMarker(word)
    ensures !Storable(command)
  {
    BareMarkerEnds(word);
    var last := |word| - 1;
    assert SameLetter(command[i + 0], word[0]) && SameLetter(command[i + last], word[last]);
    LetterIsText(command[i], word[0]);
    LetterIsText(command[i + last], word[last]);
    SecretWithin(command, i, word);
  }

  /** A command of one letter may be stored. */
  lemma LetterIsStored(command: string)
    requires |command| == 1 && 'a' <= command[0] <= 'z'
    ensures Storable(command)
  {
    assert command == Around("", command, "");
    assert !CallsBlocked(command);
    assert !MentionsSecret(command);
    assert MayStore(command, "", command, "");
  }
}
