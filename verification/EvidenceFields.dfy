/**
 What release evidence says, field by field: the manifests it accepts, the evidence aggregation makes of
 them, the way aggregation fails, and the evidence validation accepts.
 */
module EvidenceFields {
  import opened Wrappers
  import opened Ordering
  import opened ReleaseEvidence

  // ----- one manifest -----

  predicate Hex(text: string) {
    forall i :: 0 <= i < |text| ==> text[i] in "0123456789abcdef"
  }

  /** A full commit id has 40 or 64 lower-case hexadecimal digits. */
  predicate CommitId(sha: string) {
    (|sha| == 40 || |sha| == 64) && Hex(sha)
  }

  predicate Profile(name: string) {
    name == "full" || name == "ci" || name == "security" || name == "manual" || name == "release"
  }

  predicate NonEmpty(text: Option<string>) {
    text.Some? && |text.value| > 0
  }

  /** The statuses of a successful check. */
  predicate Succeeded(status: Option<string>) {
    status == Some("passed") || status == Some("warning") || status == Some("skipped-disabled")
  }

  /** Named successful checks, no name twice, at least one of them passed. */
  predicate GoodChecks(checks: seq<Check>) {
    && (exists c :: c in checks && c.status == Some("passed"))
    && (forall c :: c in checks ==> NonEmpty(c.name) && Succeeded(c.status))
    && (forall i, j :: 0 <= i < j < |checks| ==> checks[i].name != checks[j].name)
  }

  /** A manifest of a required profile for the clean commit, at most five minutes ahead and one day old. */
  predicate GoodManifest(m: Manifest, sha: string, now: int) {
    && CommitId(sha)
    && m.profile.Some? && Profile(m.profile.value) && m.version == Some(1) && NonEmpty(m.runId)
    && m.git == Some(Git(Some(sha), Some(false)))
    && m.checks.Some? && GoodChecks(m.checks.value)
    && m.generatedAt.Some?
    && m.generatedAt.value <= now + 5 * 60 * 1_000_000 && now <= m.generatedAt.value + 24 * 60 * 60 * 1_000_000
  }

  lemma {:induction false} HexIff(text: string)
    ensures LowerHex(text) <==> Hex(text)
  {
    if Hex(text) {
      forall c | c in text ensures '0' <= c <= '9' || 'a' <= c <= 'f' {
        var i :| 0 <= i < |text| && text[i] == c;
        HexDigit(text[i]);
      }
    }
    if LowerHex(text) {
      forall i | 0 <= i < |text| ensures text[i] in "0123456789abcdef" {
        assert text[i] in text;
        HexDigit(text[i]);
      }
    }
  }

  lemma {:induction false} HexDigit(c: char)
    ensures c in "0123456789abcdef" <==> '0' <= c <= '9' || 'a' <= c <= 'f'
  {
    var digits := "0123456789abcdef";
    if '0' <= c <= '9' {
      assert digits[c as int - '0' as int] == c;
    } else if 'a' <= c <= 'f' {
      assert digits[10 + (c as int - 'a' as int)] == c;
    }
  }

  lemma {:induction false} CommitIdIff(sha: string)
    ensures FullCommit(sha) <==> CommitId(sha)
  {
    HexIff(sha);
    hide Hex, LowerHex;
  }

  lemma {:induction false} ProfileIff(name: string)
    ensures name in REQUIRED_PROFILES <==> Profile(name)
  {
  }

  lemma {:induction false} RequiredAre()
    ensures |REQUIRED_PROFILES| == 5
    ensures REQUIRED_PROFILES[0] == "full" && REQUIRED_PROFILES[1] == "ci" && REQUIRED_PROFILES[2] == "security"
    ensures REQUIRED_PROFILES[3] == "manual" && REQUIRED_PROFILES[4] == "release"
  {
  }

  lemma {:induction false} SucceededIff(status: Option<string>)
    ensures status.Some? && status.value in SUCCESS_STATUSES <==> Succeeded(status)
  {
  }

  lemma {:induction false} ChecksIff(checks: seq<Check>)
    ensures ChecksPass(checks) <==> GoodChecks(checks)
  {
    forall check ensures Acceptable(check) <==> NonEmpty(check.name) && Succeeded(check.status) {
      SucceededIff(check.status);
    }
    hide Acceptable, Succeeded, NonEmpty;
    if ChecksPass(checks) {
      var i :| 0 <= i < |checks| && checks[i].status == Some("passed");
      assert checks[i] in checks;
    }
    if GoodChecks(checks) {
      var c :| c in checks && c.status == Some("passed");
      var i :| 0 <= i < |checks| && checks[i] == c;
      assert checks[i].status == Some("passed");
    }
  }

  /** Which manifests are accepted, what is taken from them, and how the others are refused. */
  lemma {:induction false} ManifestAnswer(m: Manifest, sha: string, now: int)
    ensures ValidateManifest(m, sha, now).Ok? <==> GoodManifest(m, sha, now)
    ensures ValidateManifest(m, sha, now) == Err(InvalidCommit) <==> !CommitId(sha)
    ensures !GoodManifest(m, sha, now) && CommitId(sha) ==> ValidateManifest(m, sha, now) == Err(InvalidManifest)
    ensures GoodManifest(m, sha, now) ==>
              ValidateManifest(m, sha, now) == Ok(Validated(m.profile.value, m.generatedAt.value))
  {
    CommitIdIff(sha);
    if m.profile.Some? {
      ProfileIff(m.profile.value);
    }
    if m.checks.Some? {
      ChecksIff(m.checks.value);
    }
    assert FullCommit(sha) ==> sha != "";
    assert m.profile.Some? && Profile(m.profile.value) ==> m.profile.value != "";
    hide FullCommit, CommitId, ChecksPass, GoodChecks, Profile;
  }

  // ----- aggregation -----

  /** The first manifest that is refused, for itself or because its profile came before. */
  predicate FirstRefused(manifests: seq<Manifest>, k: nat, sha: string, now: int) {
    && k < |manifests|
    && (forall i :: 0 <= i < k ==> GoodManifest(manifests[i], sha, now))
    && (forall i, j :: 0 <= i < j < k ==> manifests[i].profile != manifests[j].profile)
    && (GoodManifest(manifests[k], sha, now) ==> exists i :: 0 <= i < k && manifests[i].profile == manifests[k].profile)
  }

  predicate NoneRefused(manifests: seq<Manifest>, sha: string, now: int) {
    && (forall m :: m in manifests ==> GoodManifest(m, sha, now))
    && (forall i, j :: 0 <= i < j < |manifests| ==> manifests[i].profile != manifests[j].profile)
  }

  predicate Given(manifests: seq<Manifest>, profile: string) {
    exists m :: m in manifests && m.profile == Some(profile)
  }

  predicate AllGiven(manifests: seq<Manifest>) {
    && Given(manifests, "full") && Given(manifests, "ci") && Given(manifests, "security")
    && Given(manifests, "manual") && Given(manifests, "release")
  }

  lemma {:induction false} AllGivenIff(manifests: seq<Manifest>)
    ensures Covers(manifests) <==> AllGiven(manifests)
  {
    RequiredAre();
    hide REQUIRED_PROFILES;
    assert forall p :: p in REQUIRED_PROFILES <==> exists i :: 0 <= i < 5 && REQUIRED_PROFILES[i] == p;
    if Covers(manifests) {
      assert REQUIRED_PROFILES[0] in REQUIRED_PROFILES && REQUIRED_PROFILES[1] in REQUIRED_PROFILES;
      assert REQUIRED_PROFILES[2] in REQUIRED_PROFILES && REQUIRED_PROFILES[3] in REQUIRED_PROFILES;
      assert REQUIRED_PROFILES[4] in REQUIRED_PROFILES;
    }
  }

  lemma {:induction false} NoneRefusedIff(manifests: seq<Manifest>, sha: string, now: int)
    ensures AllValid(manifests, sha, now) && DistinctProfiles(manifests) <==> NoneRefused(manifests, sha, now)
  {
    forall m ensures Valid(m, sha, now) <==> GoodManifest(m, sha, now) {
      ManifestAnswer(m, sha, now);
    }
    hide Valid, GoodManifest;
  }

  lemma {:induction false} CollectedBefore(manifests: seq<Manifest>, k: nat, sha: string, now: int)
    requires FirstRefused(manifests, k, sha, now)
    ensures k < |manifests| && ByProfile(manifests[..k], sha, now).Ok?
    ensures Collected(ByProfile(manifests[..k], sha, now).value, manifests[..k], sha, now)
  {
    hide GoodManifest, ByProfile, Valid, Collected;
    var before := manifests[..k];
    NoneRefusedIff(before, sha, now);
    ByProfileIs(before, sha, now);
    hide AllValid, DistinctProfiles;
    assert NoneRefused(before, sha, now);
  }

  /** What a manifest does to the ones collected before it. */
  lemma {:induction false} NextRefused(before: seq<Manifest>, m: Manifest, sha: string, now: int)
    requires ByProfile(before, sha, now).Ok? && Collected(ByProfile(before, sha, now).value, before, sha, now)
    requires CommitId(sha)
    ensures !GoodManifest(m, sha, now) ==> ByProfile(before + [m], sha, now) == Err(InvalidManifest)
    ensures GoodManifest(m, sha, now) && (exists b :: b in before && b.profile == m.profile) ==>
              ByProfile(before + [m], sha, now) == Err(DuplicateProfile)
  {
    ManifestAnswer(m, sha, now);
    assert (before + [m])[..|before|] == before;
    hide ValidateManifest, CommitId;
  }

  lemma {:induction false} RefusedAt(manifests: seq<Manifest>, k: nat, sha: string, now: int)
    requires CommitId(sha) && FirstRefused(manifests, k, sha, now)
    ensures k < |manifests|
    ensures ByProfile(manifests, sha, now)
            == if GoodManifest(manifests[k], sha, now) then Err(DuplicateProfile) else Err(InvalidManifest)
  {
    hide *;
    CollectedBefore(manifests, k, sha, now);
    var before, m := manifests[..k], manifests[k];
    NextRefused(before, m, sha, now);
    assert manifests[..k + 1] == before + [m];
    if GoodManifest(m, sha, now) {
      SeenBefore(manifests, k, sha, now);
    }
    FailureStays(manifests, k + 1, sha, now);
  }

  lemma {:induction false} SeenBefore(manifests: seq<Manifest>, k: nat, sha: string, now: int)
    requires FirstRefused(manifests, k, sha, now) && GoodManifest(manifests[k], sha, now)
    ensures exists b :: b in manifests[..k] && b.profile == manifests[k].profile
  {
    hide GoodManifest;
    var i :| 0 <= i < k && manifests[i].profile == manifests[k].profile;
    assert manifests[..k][i] == manifests[i];
  }

  /** The first manifest that is refused decides how aggregation fails. */
  lemma {:induction false} AggregateRefuses(
    manifests: seq<Manifest>, k: nat, sha: string, now: int, digest: Digest)
    requires CommitId(sha) && FirstRefused(manifests, k, sha, now)
    ensures Aggregate(manifests, sha, now, digest)
            == if GoodManifest(manifests[k], sha, now) then Err(DuplicateProfile) else Err(InvalidManifest)
  {
    CommitIdIff(sha);
    RefusedAt(manifests, k, sha, now);
    hide ByProfile, CommitId, FullCommit, GoodManifest, Validates, Payload;
  }

  /** If none is refused, aggregation fails exactly on an ill-formed commit or a missing profile. */
  lemma {:induction false} AggregateAnswer(manifests: seq<Manifest>, sha: string, now: int, digest: Digest)
    requires Digests(digest)
    ensures var a := Aggregate(manifests, sha, now, digest);
            && (!CommitId(sha) ==> a == Err(InvalidCommit))
            && (CommitId(sha) && NoneRefused(manifests, sha, now) ==>
                  if AllGiven(manifests) then a.Ok? else a == Err(MissingProfiles))
  {
    CommitIdIff(sha);
    AllGivenIff(manifests);
    NoneRefusedIff(manifests, sha, now);
    AggregateIs(manifests, sha, now, digest);
    ByProfileIs(manifests, sha, now);
    hide ByProfile, CommitId, FullCommit, NoneRefused, AllGiven, Covers, GoodManifest, Validates, Payload;
    hide AllValid, DistinctProfiles, Complete, Collected;
    if ByProfile(manifests, sha, now).Ok? {
      CompleteIff(ByProfile(manifests, sha, now).value, manifests, sha, now);
    }
  }

  /** If no manifest is refused first, none is. */
  lemma {:induction false} RefusedOrNot(manifests: seq<Manifest>, sha: string, now: int) returns (k: nat)
    ensures NoneRefused(manifests, sha, now) || FirstRefused(manifests, k, sha, now)
  {
    hide GoodManifest;
    k := 0;
    while k < |manifests|
      invariant k <= |manifests|
      invariant forall i :: 0 <= i < k ==> GoodManifest(manifests[i], sha, now)
      invariant forall i, j :: 0 <= i < j < k ==> manifests[i].profile != manifests[j].profile
    {
      if !GoodManifest(manifests[k], sha, now)
         || exists i :: 0 <= i < k && manifests[i].profile == manifests[k].profile {
        return;
      }
      k := k + 1;
    }
  }

  /** The entry of a profile embeds its manifest with the digest. */
  ghost predicate Embeds(entry: Entry, profile: string, manifests: seq<Manifest>, digest: Digest) {
    exists m :: m in manifests && m.profile == Some(profile)
                && entry.profile == Some(profile) && entry.sha256 == Some(digest(m)) && entry.manifest == Some(m)
  }

  /** The fields of aggregated evidence. */
  lemma {:induction false} AggregateFields(manifests: seq<Manifest>, sha: string, now: int, digest: Digest)
    requires Digests(digest) && Aggregate(manifests, sha, now, digest).Ok?
    ensures var e := Aggregate(manifests, sha, now, digest).value;
            && e.version == Some(1) && e.kind == Some("agent-maintainer-release-evidence")
            && e.commit == Some(sha) && e.generatedAt == Some(now)
            && e.requiredProfiles == Some(["full", "ci", "security", "manual", "release"])
            && e.profiles.Some? && |e.profiles.value| == 5
            && Embeds(e.profiles.value[0], "full", manifests, digest)
            && Embeds(e.profiles.value[1], "ci", manifests, digest)
            && Embeds(e.profiles.value[2], "security", manifests, digest)
            && Embeds(e.profiles.value[3], "manual", manifests, digest)
            && Embeds(e.profiles.value[4], "release", manifests, digest)
  {
    AggregateIs(manifests, sha, now, digest);
    var byProfile := ByProfile(manifests, sha, now).value;
    PayloadFields(byProfile, sha, now, digest);
    var e := Aggregate(manifests, sha, now, digest).value;
    RequiredAre();
    hide Aggregate, Payload, FullCommit, ByProfile, Embeds, Digests, REQUIRED_PROFILES;
    forall i | 0 <= i < 5 ensures Embeds(e.profiles.value[i], REQUIRED_PROFILES[i], manifests, digest) {
      EntryEmbeds(byProfile, REQUIRED_PROFILES[i], manifests, sha, now, digest);
    }
  }

  lemma {:induction false} EntryEmbeds(
    byProfile: map<string, Record>, profile: string, manifests: seq<Manifest>, sha: string, now: int, digest: Digest)
    requires Collected(byProfile, manifests, sha, now) && profile in byProfile
    ensures Embeds(EntryFor(byProfile, profile, digest), profile, manifests, digest)
  {
    hide ValidateManifest;
    assert RecordOf(byProfile[profile], profile, manifests, sha, now);
  }

  lemma {:induction false} PayloadFields(byProfile: map<string, Record>, sha: string, now: int, digest: Digest)
    requires Complete(byProfile)
    ensures var e := Payload(byProfile, sha, now, digest);
            && e.version == Some(1) && e.kind == Some("agent-maintainer-release-evidence")
            && e.commit == Some(sha) && e.generatedAt == Some(now)
            && e.requiredProfiles == Some(["full", "ci", "security", "manual", "release"])
            && e.profiles.Some? && |e.profiles.value| == 5
            && forall i :: 0 <= i < 5 ==>
                 REQUIRED_PROFILES[i] in byProfile
                 && e.profiles.value[i] == EntryFor(byProfile, REQUIRED_PROFILES[i], digest)
  {
    RequiredAre();
    hide Expiry, EntryFor;
  }

  // ----- validation -----

  /** The entry of a profile is intact: its digest is one, and that of a good manifest of the profile. */
  ghost predicate Intact(entry: Entry, profile: string, sha: string, now: int, digest: Digest) {
    && entry.profile == Some(profile) && entry.manifest.Some?
    && entry.sha256 == Some(digest(entry.manifest.value))
    && |digest(entry.manifest.value)| == 64 && Hex(digest(entry.manifest.value))
    && GoodManifest(entry.manifest.value, sha, now) && entry.manifest.value.profile == Some(profile)
  }

  lemma {:induction false} EntryAnswer(entry: Entry, profile: string, sha: string, now: int, digest: Digest)
    requires profile != ""
    ensures ValidateEntry(entry, profile, sha, now, digest).Ok? <==> Intact(entry, profile, sha, now, digest)
    ensures Intact(entry, profile, sha, now, digest) ==>
              ValidateEntry(entry, profile, sha, now, digest)
              == Ok(Validated(profile, entry.manifest.value.generatedAt.value))
  {
    if entry.manifest.Some? {
      ManifestAnswer(entry.manifest.value, sha, now);
      HexIff(digest(entry.manifest.value));
    }
    hide ValidateManifest, Hex, LowerHex, CommitId;
  }

  /** One day after the oldest of the five manifests. */
  predicate IsDayAfterOldest(expiry: int, entries: seq<Entry>)
    requires forall i :: 0 <= i < |entries| ==> entries[i].manifest.Some? && entries[i].manifest.value.generatedAt.Some?
  {
    && (forall i :: 0 <= i < |entries| ==>
          expiry <= entries[i].manifest.value.generatedAt.value + 24 * 60 * 60 * 1_000_000)
    && (exists i :: 0 <= i < |entries|
          && expiry == entries[i].manifest.value.generatedAt.value + 24 * 60 * 60 * 1_000_000)
  }

  ghost predicate AllIntact(entries: seq<Entry>, sha: string, now: int, digest: Digest)
    ensures AllIntact(entries, sha, now, digest) ==>
              forall i :: 0 <= i < |entries| ==>
                entries[i].manifest.Some? && entries[i].manifest.value.generatedAt.Some?
  {
    && |entries| == 5
    && Intact(entries[0], "full", sha, now, digest) && Intact(entries[1], "ci", sha, now, digest)
    && Intact(entries[2], "security", sha, now, digest) && Intact(entries[3], "manual", sha, now, digest)
    && Intact(entries[4], "release", sha, now, digest)
  }

  lemma {:induction false} EntriesAnswer(entries: seq<Entry>, sha: string, now: int, digest: Digest)
    requires |entries| == 5
    ensures |REQUIRED_PROFILES| == 5
    ensures ValidateEntries(entries, REQUIRED_PROFILES, sha, now, digest).Ok? <==> AllIntact(entries, sha, now, digest)
    ensures var r := ValidateEntries(entries, REQUIRED_PROFILES, sha, now, digest);
            r.Ok? ==> SameTimes(r.value, entries)
  {
    RequiredAre();
    EntriesValidate(entries, REQUIRED_PROFILES, sha, now, digest);
    hide ValidateEntries, ValidateEntry, Intact, REQUIRED_PROFILES;
    forall i | 0 <= i < 5
      ensures ValidateEntry(entries[i], REQUIRED_PROFILES[i], sha, now, digest).Ok?
              <==> Intact(entries[i], REQUIRED_PROFILES[i], sha, now, digest)
      ensures ValidateEntry(entries[i], REQUIRED_PROFILES[i], sha, now, digest).Ok? ==>
                && entries[i].manifest.Some?
                && entries[i].manifest.value.generatedAt
                   == Some(ValidateEntry(entries[i], REQUIRED_PROFILES[i], sha, now, digest).value.generatedAt)
    {
      assert |REQUIRED_PROFILES[i]| > 0;
      EntryAnswer(entries[i], REQUIRED_PROFILES[i], sha, now, digest);
      IntactTime(entries[i], REQUIRED_PROFILES[i], sha, now, digest);
    }
  }

  lemma {:induction false} IntactTime(entry: Entry, profile: string, sha: string, now: int, digest: Digest)
    ensures Intact(entry, profile, sha, now, digest) ==>
              entry.manifest.Some? && entry.manifest.value.generatedAt.Some?
  {
  }

  predicate SameTimes(validated: seq<Validated>, entries: seq<Entry>) {
    && |validated| == |entries|
    && forall i :: 0 <= i < |entries| ==>
         entries[i].manifest.Some? && entries[i].manifest.value.generatedAt == Some(validated[i].generatedAt)
  }

  lemma {:induction false} ExpiryIff(validated: seq<Validated>, entries: seq<Entry>, expiry: int)
    requires SameTimes(validated, entries) && entries != []
    ensures expiry == Expiry(validated) <==> IsDayAfterOldest(expiry, entries)
  {
    ExpiryIsEarliest(validated);
    hide Expiry;
  }

  /** The evidence that validates for a commit at a time. */
  lemma {:induction false} ValidatesMeans(e: Evidence, sha: string, now: int, digest: Digest)
    ensures Validates(e, sha, now, digest) <==>
            && CommitId(sha) && e.version == Some(1) && e.kind == Some("agent-maintainer-release-evidence")
            && e.commit == Some(sha) && e.requiredProfiles == Some(["full", "ci", "security", "manual", "release"])
            && e.generatedAt.Some? && e.expiresAt.Some?
            && e.generatedAt.value <= now + 5 * 60 * 1_000_000
            && now <= e.expiresAt.value && e.generatedAt.value <= e.expiresAt.value
            && e.profiles.Some? && AllIntact(e.profiles.value, sha, now, digest)
            && IsDayAfterOldest(e.expiresAt.value, e.profiles.value)
  {
    CommitIdIff(sha);
    RequiredAre();
    assert REQUIRED_PROFILES == ["full", "ci", "security", "manual", "release"];
    if e.profiles.Some? && |e.profiles.value| == 5 {
      EntriesAnswer(e.profiles.value, sha, now, digest);
      var r := ValidateEntries(e.profiles.value, REQUIRED_PROFILES, sha, now, digest);
      if r.Ok? && e.expiresAt.Some? {
        ExpiryIff(r.value, e.profiles.value, e.expiresAt.value);
      }
    }
    hide ValidateEntries, Expiry, CommitId, FullCommit, Intact, IsDayAfterOldest, REQUIRED_PROFILES;
  }

  // ----- manifests of external commands -----

  /** A command that ended before it started has no manifest; any other reports its outcome at its end. */
  lemma {:induction false} CommandFields(run: CommandRun, runId: string, rest: string)
    ensures CommandManifest(run, runId, rest) == Err(EndedBeforeStart) <==> run.endedAt < run.startedAt
    ensures run.endedAt >= run.startedAt ==>
              var m := CommandManifest(run, runId, rest);
              && m.Ok? && m.value.profile == Some(run.profile) && m.value.version == Some(1)
              && m.value.runId == Some(run.profile + "-" + runId) && m.value.git == Some(run.git)
              && m.value.generatedAt == Some(run.endedAt) && m.value.rest == rest
              && m.value.checks == Some([Check(Some(run.profile + "-check"),
                                               Some(if run.exitCode == 0 then "passed" else "failed"))])
  {
  }
}
