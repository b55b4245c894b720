/**
 Release evidence: one manifest per required profile, bound to a commit, aggregated at one time and
 validated at another. Times are integers in microseconds, the resolution of the clock.
 */
module ReleaseEvidence {
  import opened Wrappers
  import opened Ordering

  const MANIFEST_VERSION := 1
  const EVIDENCE_VERSION := 1
  const EVIDENCE_KIND := "agent-maintainer-release-evidence"
  const REQUIRED_PROFILES: seq<string> := ["full", "ci", "security", "manual", "release"]
  const SUCCESS_STATUSES: set<string> := {"passed", "warning", "skipped-disabled"}
  const MAX_AGE := 86_400_000_000
  const MAX_SKEW := 300_000_000

  // A field is None when it is missing or of the wrong type, a time also when it does not parse.

  datatype Check = Check(name: Option<string>, status: Option<string>)

  datatype Git = Git(sha: Option<string>, dirty: Option<bool>)

  /** `rest` stands for the fields that only the digest covers. */
  datatype Manifest = Manifest(
    profile: Option<string>, version: Option<int>, runId: Option<string>, git: Option<Git>,
    checks: Option<seq<Check>>, generatedAt: Option<int>, rest: string)

  datatype Validated = Validated(profile: string, generatedAt: int)

  datatype Record = Record(manifest: Manifest, validated: Validated)

  datatype Entry = Entry(profile: Option<string>, sha256: Option<string>, manifest: Option<Manifest>)

  datatype Evidence = Evidence(
    version: Option<int>, kind: Option<string>, commit: Option<string>, generatedAt: Option<int>,
    expiresAt: Option<int>,
    requiredProfiles: Option<seq<string>>, profiles: Option<seq<Entry>>)

  datatype EvidenceError =
    | InvalidCommit | InvalidManifest | DuplicateProfile | MissingProfiles | InvalidEvidence | EndedBeforeStart

  /** The digest of a manifest, in hexadecimal. */
  type Digest = Manifest -> string

  predicate Text(value: Option<string>) {
    value.Some? && value.value != ""
  }

  predicate LowerHex(text: string) {
    forall c :: c in text ==> '0' <= c <= '9' || 'a' <= c <= 'f'
  }

  predicate FullCommit(sha: string) {
    (|sha| == 40 || |sha| == 64) && LowerHex(sha)
  }

  predicate FullDigest(digest: string) {
    |digest| == 64 && LowerHex(digest)
  }

  // ----- one manifest -----

  predicate Acceptable(check: Check) {
    Text(check.name) && check.status.Some? && check.status.value in SUCCESS_STATUSES
  }

  predicate ChecksPass(checks: seq<Check>) {
    && (forall i :: 0 <= i < |checks| ==> Acceptable(checks[i]))
    && (forall i, j :: 0 <= i < j < |checks| ==> checks[i].name != checks[j].name)
    && (exists i :: 0 <= i < |checks| && checks[i].status == Some("passed"))
  }

  /** An explicit failure is reported apart from an unknown status; either one rejects the check. */
  method StatusAcceptable(check: Check) returns (ok: bool)
    ensures Text(check.name) ==> (ok <==> Acceptable(check))
  {
    ok := Text(check.status) && check.status.value != "failed" && check.status.value in SUCCESS_STATUSES;
  }

  lemma {:induction false} UnnamedRejected(check: Check)
    ensures Acceptable(check) ==> Text(check.name) && check.status.Some?
  {
  }

  method ValidateChecks(checks: seq<Check>) returns (ok: bool)
    ensures ok <==> ChecksPass(checks)
  {
    if checks == [] {
      return false;
    }
    var names: set<string> := {};
    var passed := false;
    for k := 0 to |checks|
      invariant forall i :: 0 <= i < k ==> Acceptable(checks[i])
      invariant forall i :: 0 <= i < k ==> checks[i].name.Some? && checks[i].name.value in names
      invariant forall i, j :: 0 <= i < j < k ==> checks[i].name != checks[j].name
      invariant forall name :: name in names ==> exists i :: 0 <= i < k && checks[i].name == Some(name)
      invariant passed <==> exists i :: 0 <= i < k && checks[i].status == Some("passed")
    {
      var check := checks[k];
      var acceptable := StatusAcceptable(check);
      hide Acceptable;
      if !Text(check.name) || check.name.value in names || !acceptable {
        UnnamedRejected(check);
        return false;
      }
      UnnamedRejected(check);
      names := names + {check.name.value};
      passed := passed || check.status.value == "passed";
    }
    return passed;
  }

  predicate IdentityValid(m: Manifest) {
    Text(m.profile) && m.profile.value in REQUIRED_PROFILES && m.version == Some(MANIFEST_VERSION) && Text(m.runId)
  }

  predicate GitValid(m: Manifest, sha: string) {
    && m.git.Some? && Text(m.git.value.sha) && FullCommit(m.git.value.sha.value) && m.git.value.sha.value == sha
    && m.git.value.dirty == Some(false)
  }

  predicate TimeValid(m: Manifest, now: int) {
    m.generatedAt.Some? && m.generatedAt.value <= now + MAX_SKEW && now - m.generatedAt.value <= MAX_AGE
  }

  function ValidateManifest(m: Manifest, sha: string, now: int): Result<Validated, EvidenceError> {
    if !FullCommit(sha) then Err(InvalidCommit)
    else if !IdentityValid(m) || !GitValid(m, sha) then Err(InvalidManifest)
    else if m.checks.None? || !ChecksPass(m.checks.value) then Err(InvalidManifest)
    else if !TimeValid(m, now) then Err(InvalidManifest)
    else Ok(Validated(m.profile.value, m.generatedAt.value))
  }

  // ----- validation -----

  function Expiry(profiles: seq<Validated>): int
    requires profiles != []
  {
    var first := profiles[0].generatedAt + MAX_AGE;
    if |profiles| == 1 then first
    else
      var others := Expiry(profiles[1..]);
      if others < first then others else first
  }

  predicate SchemaValid(e: Evidence) {
    e.version == Some(EVIDENCE_VERSION) && e.kind == Some(EVIDENCE_KIND) &&
        e.requiredProfiles == Some(REQUIRED_PROFILES)
  }

  predicate WindowValid(e: Evidence, now: int) {
    && e.generatedAt.Some? && e.expiresAt.Some?
    && e.generatedAt.value <= now + MAX_SKEW && now <= e.expiresAt.value && e.generatedAt.value <= e.expiresAt.value
  }

  function ValidateEntry(
    entry: Entry, expected: string, sha: string, now: int, digest: Digest): Result<Validated, EvidenceError>
  {
    if entry.profile != Some(expected) || expected == "" then Err(InvalidEvidence)
    else if entry.manifest.None? || entry.sha256.None? || !FullDigest(entry.sha256.value) then Err(InvalidEvidence)
    else if digest(entry.manifest.value) != entry.sha256.value then Err(InvalidEvidence)
    else
      var validated := ValidateManifest(entry.manifest.value, sha, now);
      if validated.Err? then validated
      else if validated.value.profile != expected then Err(InvalidEvidence)
      else validated
  }

  function ValidateEntries(
    entries: seq<Entry>, expected: seq<string>, sha: string, now: int, digest: Digest)
    : (r: Result<seq<Validated>, EvidenceError>)
    requires |entries| == |expected|
    ensures r.Ok? ==> |r.value| == |entries|
  {
    if entries == [] then Ok([])
    else
      var first := ValidateEntry(entries[0], expected[0], sha, now, digest);
      if first.Err? then Err(first.error)
      else
        var rest := ValidateEntries(entries[1..], expected[1..], sha, now, digest);
        if rest.Err? then rest else Ok([first.value] + rest.value)
  }

  predicate Validates(e: Evidence, sha: string, now: int, digest: Digest) {
    && FullCommit(sha) && SchemaValid(e) && e.commit == Some(sha) && WindowValid(e, now)
    && e.profiles.Some? && |e.profiles.value| == |REQUIRED_PROFILES|
    && var validated := ValidateEntries(e.profiles.value, REQUIRED_PROFILES, sha, now, digest);
       validated.Ok? && e.expiresAt.value == Expiry(validated.value)
  }

  // ----- aggregation -----

  function ByProfile(manifests: seq<Manifest>, sha: string, now: int): Result<map<string, Record>, EvidenceError> {
    if manifests == [] then Ok(map[])
    else
      var before := ByProfile(manifests[..|manifests| - 1], sha, now);
      if before.Err? then before
      else
        var m := manifests[|manifests| - 1];
        var validated := ValidateManifest(m, sha, now);
        if validated.Err? then Err(validated.error)
        else if validated.value.profile in before.value then Err(DuplicateProfile)
        else Ok(before.value[validated.value.profile := Record(m, validated.value)])
  }

  method ValidatedProfiles(manifests: seq<Manifest>, sha: string, now: int)
    returns (r: Result<map<string, Record>, EvidenceError>)
    ensures r == ByProfile(manifests, sha, now)
  {
    hide ValidateManifest;
    var byProfile: map<string, Record> := map[];
    for k := 0 to |manifests|
      invariant ByProfile(manifests[..k], sha, now) == Ok(byProfile)
    {
      assert manifests[..k + 1][..k] == manifests[..k];
      var validated := ValidateManifest(manifests[k], sha, now);
      if validated.Err? || validated.value.profile in byProfile {
        FailureStays(manifests, k + 1, sha, now);
        return Err(if validated.Err? then validated.error else DuplicateProfile);
      }
      byProfile := byProfile[validated.value.profile := Record(manifests[k], validated.value)];
    }
    assert manifests[..|manifests|] == manifests;
    return Ok(byProfile);
  }

  lemma {:induction false} FailureStays(manifests: seq<Manifest>, k: nat, sha: string, now: int)
    requires k <= |manifests| && ByProfile(manifests[..k], sha, now).Err?
    ensures ByProfile(manifests, sha, now) == ByProfile(manifests[..k], sha, now)
    decreases |manifests|
  {
    hide ValidateManifest;
    if k == |manifests| {
      assert manifests[..k] == manifests;
    } else {
      var init := manifests[..|manifests| - 1];
      assert init[..k] == manifests[..k];
      FailureStays(init, k, sha, now);
    }
  }

  predicate Complete(byProfile: map<string, Record>) {
    forall profile :: profile in REQUIRED_PROFILES ==> profile in byProfile
  }

  function EntryFor(byProfile: map<string, Record>, profile: string, digest: Digest): Entry
    requires profile in byProfile
  {
    var m := byProfile[profile].manifest;
    Entry(Some(profile), Some(digest(m)), Some(m))
  }

  function Records(byProfile: map<string, Record>): seq<Validated>
    requires Complete(byProfile)
  {
    seq(|REQUIRED_PROFILES|, i requires 0 <= i < |REQUIRED_PROFILES| => byProfile[REQUIRED_PROFILES[i]].validated)
  }

  function Entries(byProfile: map<string, Record>, digest: Digest): seq<Entry>
    requires Complete(byProfile)
  {
    seq(|REQUIRED_PROFILES|,
        i requires 0 <= i < |REQUIRED_PROFILES| => EntryFor(byProfile, REQUIRED_PROFILES[i], digest))
  }

  /**
   Once the matrix is complete its records are those of the required profiles, so the earliest
   expiry is taken over them.
   */
  function Payload(byProfile: map<string, Record>, sha: string, now: int, digest: Digest): Evidence
    requires Complete(byProfile)
  {
    Evidence(
      Some(EVIDENCE_VERSION), Some(EVIDENCE_KIND), Some(sha), Some(now), Some(Expiry(Records(byProfile))),
      Some(REQUIRED_PROFILES), Some(Entries(byProfile, digest)))
  }

  function Aggregate(manifests: seq<Manifest>, sha: string, now: int, digest: Digest): Result<Evidence, EvidenceError> {
    if !FullCommit(sha) then Err(InvalidCommit)
    else
      var byProfile := ByProfile(manifests, sha, now);
      if byProfile.Err? then Err(byProfile.error)
      else if !Complete(byProfile.value) then Err(MissingProfiles)
      else
        var e := Payload(byProfile.value, sha, now, digest);
        if Validates(e, sha, now, digest) then Ok(e) else Err(InvalidEvidence)
  }

  // ----- what a collection of manifests decides -----

  predicate Valid(m: Manifest, sha: string, now: int) {
    ValidateManifest(m, sha, now).Ok?
  }

  ghost predicate AllValid(manifests: seq<Manifest>, sha: string, now: int) {
    forall m :: m in manifests ==> Valid(m, sha, now)
  }

  predicate DistinctProfiles(manifests: seq<Manifest>) {
    forall i, j :: 0 <= i < j < |manifests| ==> manifests[i].profile != manifests[j].profile
  }

  ghost predicate RecordOf(record: Record, profile: string, manifests: seq<Manifest>, sha: string, now: int) {
    && record.manifest in manifests && record.manifest.profile == Some(profile)
    && ValidateManifest(record.manifest, sha, now) == Ok(record.validated)
  }

  ghost predicate Collected(byProfile: map<string, Record>, manifests: seq<Manifest>, sha: string, now: int) {
    && (forall m :: m in manifests ==> m.profile.Some? && m.profile.value in byProfile)
    && (forall p :: p in byProfile ==> RecordOf(byProfile[p], p, manifests, sha, now))
  }

  lemma {:induction false} DistinctAppend(init: seq<Manifest>, last: Manifest)
    ensures DistinctProfiles(init + [last]) <==>
            DistinctProfiles(init) && forall m :: m in init ==> m.profile != last.profile
  {
    var all := init + [last];
    assert forall i :: 0 <= i < |init| ==> all[i] == init[i];
    if DistinctProfiles(all) {
      forall m | m in init ensures m.profile != last.profile {
        var i :| 0 <= i < |init| && init[i] == m;
        assert all[i].profile != all[|init|].profile;
      }
    }
  }

  /** Collecting succeeds exactly on valid manifests of different profiles, and then keeps each of them. */
  lemma {:induction false} ByProfileIs(manifests: seq<Manifest>, sha: string, now: int)
    ensures ByProfile(manifests, sha, now).Ok? <==> AllValid(manifests, sha, now) && DistinctProfiles(manifests)
    ensures ByProfile(manifests, sha, now).Ok? ==> Collected(ByProfile(manifests, sha, now).value, manifests, sha, now)
  {
    hide ValidateManifest, DistinctProfiles;
    if manifests == [] {
      DistinctNone();
    } else {
      var n := |manifests| - 1;
      var init, last := manifests[..n], manifests[n];
      assert manifests == init + [last];
      ByProfileIs(init, sha, now);
      ValidProfile(last, sha, now);
      assert forall m :: m in manifests <==> m in init || m == last;
      DistinctAppend(init, last);
    }
  }

  lemma {:induction false} DistinctNone()
    ensures DistinctProfiles([])
  {
  }

  lemma {:induction false} ValidProfile(m: Manifest, sha: string, now: int)
    ensures ValidateManifest(m, sha, now).Ok? ==>
              var v := ValidateManifest(m, sha, now).value;
              m.profile == Some(v.profile) && m.generatedAt == Some(v.generatedAt) && v.profile in REQUIRED_PROFILES
  {
  }

  // ----- what validation accepts -----

  /** The digest function produces digests. */
  ghost predicate Digests(digest: Digest) {
    forall m :: FullDigest(digest(m))
  }

  lemma {:induction false} ExpiryIsEarliest(profiles: seq<Validated>)
    requires profiles != []
    ensures forall i :: 0 <= i < |profiles| ==> Expiry(profiles) <= profiles[i].generatedAt + MAX_AGE
    ensures exists i :: 0 <= i < |profiles| && Expiry(profiles) == profiles[i].generatedAt + MAX_AGE
  {
    assert Expiry(profiles) <= profiles[0].generatedAt + MAX_AGE;
    if |profiles| > 1 && Expiry(profiles) < profiles[0].generatedAt + MAX_AGE {
      ExpiryIsEarliest(profiles[1..]);
      var i :| 0 <= i < |profiles[1..]| && Expiry(profiles[1..]) == profiles[1..][i].generatedAt + MAX_AGE;
      assert profiles[i + 1] == profiles[1..][i];
    } else if |profiles| > 1 {
      ExpiryIsEarliest(profiles[1..]);
    }
  }

  /** Entries validate exactly when each does, and give their profiles in order. */
  lemma {:induction false} EntriesValidate(
    entries: seq<Entry>, expected: seq<string>, sha: string, now: int, digest: Digest)
    requires |entries| == |expected|
    ensures ValidateEntries(entries, expected, sha, now, digest).Ok? <==>
            forall i :: 0 <= i < |entries| ==> ValidateEntry(entries[i], expected[i], sha, now, digest).Ok?
    ensures ValidateEntries(entries, expected, sha, now, digest).Ok? ==>
            forall i :: 0 <= i < |entries| ==>
              ValidateEntry(entries[i], expected[i], sha, now, digest)
                  == Ok(ValidateEntries(entries, expected, sha, now, digest).value[i])
  {
    hide ValidateEntry;
    if entries != [] {
      EntriesValidate(entries[1..], expected[1..], sha, now, digest);
      assert forall i :: 0 < i < |entries| ==> entries[i] == entries[1..][i - 1] && expected[i] == expected[1..][i - 1];
    }
  }

  /** What is required of a manifest whatever the time. */
  predicate Sound(m: Manifest, sha: string) {
    && FullCommit(sha) && IdentityValid(m) && GitValid(m, sha) && m.checks.Some? && ChecksPass(m.checks.value)
    && m.generatedAt.Some?
  }

  lemma {:induction false} ValidIff(m: Manifest, sha: string, now: int)
    ensures Valid(m, sha, now)
      <==> Sound(m, sha) && m.generatedAt.value - MAX_SKEW <= now <= m.generatedAt.value + MAX_AGE
    ensures Valid(m, sha, now) ==> ValidateManifest(m, sha, now) == Ok(Validated(m.profile.value, m.generatedAt.value))
  {
  }

  lemma {:induction false} EntryForValidates(
    byProfile: map<string, Record>, manifests: seq<Manifest>, profile: string, sha: string, at: int, now: int,
    digest: Digest)
    requires Collected(byProfile, manifests, sha, at) && profile in byProfile && profile != "" && Digests(digest)
    ensures var r := ValidateEntry(EntryFor(byProfile, profile, digest), profile, sha, now, digest);
            && (r.Ok? <==> Valid(byProfile[profile].manifest, sha, now))
            && (r.Ok? ==> r.value == byProfile[profile].validated)
  {
  }

  lemma {:induction false} EntriesOfPayload(
    byProfile: map<string, Record>, manifests: seq<Manifest>, sha: string, at: int, now: int, digest: Digest)
    requires Collected(byProfile, manifests, sha, at) && Complete(byProfile) && Digests(digest)
    ensures var r := ValidateEntries(Entries(byProfile, digest), REQUIRED_PROFILES, sha, now, digest);
            && (r.Ok? <==> forall i :: 0 <= i < |REQUIRED_PROFILES| ==>
                Valid(byProfile[REQUIRED_PROFILES[i]].manifest, sha, now))
            && (r.Ok? ==> r.value == Records(byProfile))
  {
    hide ValidateEntry, EntryFor, Valid, Collected, Digests, ValidateEntries;
    EntriesValidate(Entries(byProfile, digest), REQUIRED_PROFILES, sha, now, digest);
    forall i | 0 <= i < |REQUIRED_PROFILES|
      ensures var p := REQUIRED_PROFILES[i];
              var r := ValidateEntry(EntryFor(byProfile, p, digest), p, sha, now, digest);
              && (r.Ok? <==> Valid(byProfile[p].manifest, sha, now))
              && (r.Ok? ==> r.value == byProfile[p].validated)
    {
      EntryForValidates(byProfile, manifests, REQUIRED_PROFILES[i], sha, at, now, digest);
    }
  }

  lemma {:induction false} ValidAgain(
    byProfile: map<string, Record>, manifests: seq<Manifest>, sha: string, at: int, now: int)
    requires Collected(byProfile, manifests, sha, at) && Complete(byProfile)
    ensures forall i :: 0 <= i < |REQUIRED_PROFILES| ==>
              (Valid(byProfile[REQUIRED_PROFILES[i]].manifest, sha, now) <==>
               Records(byProfile)[i].generatedAt - MAX_SKEW <= now <= Records(byProfile)[i].generatedAt + MAX_AGE)
  {
    forall i | 0 <= i < |REQUIRED_PROFILES|
      ensures Valid(byProfile[REQUIRED_PROFILES[i]].manifest, sha, now) <==>
              Records(byProfile)[i].generatedAt - MAX_SKEW <= now <= Records(byProfile)[i].generatedAt + MAX_AGE
    {
      var r := byProfile[REQUIRED_PROFILES[i]];
      assert RecordOf(r, REQUIRED_PROFILES[i], manifests, sha, at);
      hide ValidateManifest, Sound;
      ValidIff(r.manifest, sha, at);
      ValidIff(r.manifest, sha, now);
    }
  }

  lemma {:induction false} PayloadShape(byProfile: map<string, Record>, sha: string, at: int, digest: Digest)
    requires Complete(byProfile)
    ensures var e := Payload(byProfile, sha, at, digest);
            && SchemaValid(e) && e.commit == Some(sha) && e.generatedAt == Some(at) &&
                e.expiresAt == Some(Expiry(Records(byProfile)))
            && e.profiles == Some(Entries(byProfile, digest)) && |Entries(byProfile, digest)| == |REQUIRED_PROFILES|
    ensures |Records(byProfile)| == |REQUIRED_PROFILES|
  {
  }

  /** A payload built at one time validates at another exactly within the window of its manifests. */
  lemma {:induction false} PayloadValidates(
    byProfile: map<string, Record>, manifests: seq<Manifest>, sha: string, at: int, now: int, digest: Digest)
    requires Collected(byProfile, manifests, sha, at) && Complete(byProfile) && Digests(digest) && FullCommit(sha)
    ensures Validates(Payload(byProfile, sha, at, digest), sha, now, digest) <==>
            && at - MAX_SKEW <= now <= Expiry(Records(byProfile)) && at <= Expiry(Records(byProfile))
            && forall i :: 0 <= i < |REQUIRED_PROFILES| ==> Records(byProfile)[i].generatedAt - MAX_SKEW <= now
  {
    EntriesOfPayload(byProfile, manifests, sha, at, now, digest);
    ValidAgain(byProfile, manifests, sha, at, now);
    var times := Records(byProfile);
    ExpiryIsEarliest(times);
    PayloadShape(byProfile, sha, at, digest);
    hide Payload, SchemaValid, ValidateEntries, Entries, Valid, Collected, Expiry, FullCommit, Records;
    if now <= Expiry(times) {
      assert forall i :: 0 <= i < |times| ==> now <= times[i].generatedAt + MAX_AGE;
    }
  }

  // ----- aggregation: when it succeeds, and how long its result holds -----

  predicate Covers(manifests: seq<Manifest>) {
    forall p :: p in REQUIRED_PROFILES ==> exists m :: m in manifests && m.profile == Some(p)
  }

  lemma {:induction false} SameManifest(manifests: seq<Manifest>, a: Manifest, b: Manifest)
    requires DistinctProfiles(manifests) && a in manifests && b in manifests && a.profile == b.profile
    ensures a == b
  {
  }

  lemma {:induction false} AggregateIs(manifests: seq<Manifest>, sha: string, now: int, digest: Digest)
    requires Digests(digest)
    ensures Aggregate(manifests, sha, now, digest).Ok? <==>
            FullCommit(sha) && AllValid(manifests, sha, now) && DistinctProfiles(manifests) && Covers(manifests)
    ensures Aggregate(manifests, sha, now, digest).Ok? ==>
              var byProfile := ByProfile(manifests, sha, now);
              && byProfile.Ok? && Complete(byProfile.value) && Collected(byProfile.value, manifests, sha, now)
              && Aggregate(manifests, sha, now, digest).value == Payload(byProfile.value, sha, now, digest)
  {
    ByProfileIs(manifests, sha, now);
    var byProfile := ByProfile(manifests, sha, now);
    if byProfile.Ok? && FullCommit(sha) {
      CompleteIff(byProfile.value, manifests, sha, now);
      if Complete(byProfile.value) {
        PayloadValidates(byProfile.value, manifests, sha, now, now, digest);
        FreshRecords(byProfile.value, manifests, sha, now);
      }
    }
    hide Payload, Validates, ByProfile, Collected, Complete, Covers, AllValid, DistinctProfiles, FullCommit;
    hide Expiry, Records;
  }

  lemma {:induction false} CompleteIff(byProfile: map<string, Record>, manifests: seq<Manifest>, sha: string, now: int)
    requires Collected(byProfile, manifests, sha, now)
    ensures Complete(byProfile) <==> Covers(manifests)
  {
  }

  lemma {:induction false} FreshRecords(byProfile: map<string, Record>, manifests: seq<Manifest>, sha: string, now: int)
    requires Collected(byProfile, manifests, sha, now) && Complete(byProfile)
    ensures now <= Expiry(Records(byProfile))
    ensures forall i :: 0 <= i < |REQUIRED_PROFILES| ==> Records(byProfile)[i].generatedAt - MAX_SKEW <= now
  {
    ValidAgain(byProfile, manifests, sha, now, now);
    forall i | 0 <= i < |REQUIRED_PROFILES| ensures Valid(byProfile[REQUIRED_PROFILES[i]].manifest, sha, now) {
      assert RecordOf(byProfile[REQUIRED_PROFILES[i]], REQUIRED_PROFILES[i], manifests, sha, now);
    }
    hide ValidateManifest, Valid;
    ExpiryIsEarliest(Records(byProfile));
  }

  /** Every generation time of a manifest is that of a validated profile. */
  ghost predicate TimesRecorded(manifests: seq<Manifest>, times: seq<Validated>) {
    forall m :: m in manifests ==>
        m.generatedAt.Some? && exists i :: 0 <= i < |times| && times[i].generatedAt == m.generatedAt.value
  }

  predicate GeneratedThen(manifests: seq<Manifest>, time: int) {
    exists m :: m in manifests && m.generatedAt == Some(time)
  }

  ghost predicate TimesFound(manifests: seq<Manifest>, times: seq<Validated>) {
    forall i :: 0 <= i < |times| ==> GeneratedThen(manifests, times[i].generatedAt)
  }

  lemma {:induction false} RecordedFound(byProfile: map<string, Record>, manifests: seq<Manifest>, sha: string, at: int)
    requires Collected(byProfile, manifests, sha, at) && Complete(byProfile)
    ensures TimesFound(manifests, Records(byProfile))
  {
  }

  lemma {:induction false} RecordedTimes(byProfile: map<string, Record>, manifests: seq<Manifest>, sha: string, at: int)
    requires Collected(byProfile, manifests, sha, at) && Complete(byProfile) && AllValid(manifests, sha, at) &&
      DistinctProfiles(manifests)
    ensures TimesRecorded(manifests, Records(byProfile))
  {
    hide ValidateManifest;
    var times := Records(byProfile);
    forall m | m in manifests
      ensures m.generatedAt.Some? && exists i :: 0 <= i < |times| && times[i].generatedAt == m.generatedAt.value
    {
      assert Valid(m, sha, at);
      ValidProfile(m, sha, at);
      var p := m.profile.value;
      var i :| 0 <= i < |REQUIRED_PROFILES| && REQUIRED_PROFILES[i] == p;
      assert RecordOf(byProfile[p], p, manifests, sha, at);
      SameManifest(manifests, m, byProfile[p].manifest);
      assert times[i] == byProfile[p].validated;
    }
  }

  /** The expiry is one day after the oldest manifest. */
  ghost predicate ExpiresWithOldest(expiry: int, manifests: seq<Manifest>) {
    && (forall m :: m in manifests ==> m.generatedAt.Some? && expiry <= m.generatedAt.value + MAX_AGE)
    && (exists m :: m in manifests && m.generatedAt.Some? && expiry == m.generatedAt.value + MAX_AGE)
  }

  ghost predicate NoneAhead(manifests: seq<Manifest>, now: int) {
    forall m :: m in manifests && m.generatedAt.Some? ==> m.generatedAt.value - MAX_SKEW <= now
  }

  lemma {:induction false} NoManifestOlder(manifests: seq<Manifest>, times: seq<Validated>, now: int)
    requires TimesRecorded(manifests, times) && times != []
    ensures forall m :: m in manifests ==> m.generatedAt.Some? && Expiry(times) <= m.generatedAt.value + MAX_AGE
    ensures (forall i :: 0 <= i < |times| ==> times[i].generatedAt - MAX_SKEW <= now) ==> NoneAhead(manifests, now)
  {
    ExpiryIsEarliest(times);
    hide Expiry;
  }

  lemma {:induction false} OldestManifestFound(manifests: seq<Manifest>, times: seq<Validated>, now: int)
    requires TimesFound(manifests, times) && times != []
    ensures exists m :: m in manifests && m.generatedAt.Some? && Expiry(times) == m.generatedAt.value + MAX_AGE
    ensures NoneAhead(manifests, now) ==> forall i :: 0 <= i < |times| ==> times[i].generatedAt - MAX_SKEW <= now
  {
    ExpiryIsEarliest(times);
    hide Expiry;
  }

  lemma {:induction false} WindowOfTimes(manifests: seq<Manifest>, times: seq<Validated>, now: int)
    requires TimesRecorded(manifests, times) && TimesFound(manifests, times) && times != []
    ensures ExpiresWithOldest(Expiry(times), manifests)
    ensures NoneAhead(manifests, now) <==> forall i :: 0 <= i < |times| ==> times[i].generatedAt - MAX_SKEW <= now
  {
    hide TimesRecorded, TimesFound, Expiry, NoneAhead;
    NoManifestOlder(manifests, times, now);
    OldestManifestFound(manifests, times, now);
  }

  lemma {:induction false} RecordedWindow(
    byProfile: map<string, Record>, manifests: seq<Manifest>, sha: string, at: int, now: int)
    requires Collected(byProfile, manifests, sha, at) && Complete(byProfile) && AllValid(manifests, sha, at) &&
      DistinctProfiles(manifests)
    ensures ExpiresWithOldest(Expiry(Records(byProfile)), manifests)
    ensures NoneAhead(manifests, now)
      <==> forall i :: 0 <= i < |REQUIRED_PROFILES| ==> Records(byProfile)[i].generatedAt - MAX_SKEW <= now
  {
    hide TimesRecorded, TimesFound, Expiry, Collected, AllValid, DistinctProfiles, ExpiresWithOldest, NoneAhead;
    RecordedTimes(byProfile, manifests, sha, at);
    RecordedFound(byProfile, manifests, sha, at);
    WindowOfTimes(manifests, Records(byProfile), now);
  }

  /**
   Evidence aggregated at one time validates at every time up to its expiry and at no later one, and
   before its aggregation only as far as the clock skew of it and of each manifest allows.
   */
  lemma {:induction false} ValidatesUntilExpiry(
    manifests: seq<Manifest>, sha: string, at: int, now: int, digest: Digest)
    requires Digests(digest) && Aggregate(manifests, sha, at, digest).Ok?
    ensures var e := Aggregate(manifests, sha, at, digest).value;
            && e.expiresAt.Some? && ExpiresWithOldest(e.expiresAt.value, manifests) && at <= e.expiresAt.value
            && (Validates(e, sha, now, digest) <==>
                at - MAX_SKEW <= now <= e.expiresAt.value && NoneAhead(manifests, now))
            && (at <= now ==> (Validates(e, sha, now, digest) <==> now <= e.expiresAt.value))
  {
    AggregateIs(manifests, sha, at, digest);
    var byProfile := ByProfile(manifests, sha, at).value;
    PayloadValidates(byProfile, manifests, sha, at, now, digest);
    PayloadShape(byProfile, sha, at, digest);
    FreshRecords(byProfile, manifests, sha, at);
    RecordedWindow(byProfile, manifests, sha, at, now);
    hide *;
  }

  // ----- the order of the manifests does not matter -----

  lemma {:induction false} DistinctWhateverTheOrder(manifests: seq<Manifest>, reordered: seq<Manifest>)
    requires multiset(manifests) == multiset(reordered) && DistinctProfiles(manifests)
    ensures DistinctProfiles(reordered)
  {
    assert NoRepeats(manifests);
    NoRepeatsWithin(reordered, manifests);
    forall i, j | 0 <= i < j < |reordered| ensures reordered[i].profile != reordered[j].profile {
      if reordered[i].profile == reordered[j].profile {
        SameManifest(manifests, reordered[i], reordered[j]);
      }
    }
  }

  lemma {:induction false} SameRecords(manifests: seq<Manifest>, reordered: seq<Manifest>, sha: string, now: int)
    requires multiset(manifests) == multiset(reordered) && ByProfile(manifests, sha, now).Ok?
    ensures ByProfile(reordered, sha, now) == ByProfile(manifests, sha, now)
  {
    hide ValidateManifest, DistinctProfiles, ByProfile;
    ByProfileIs(manifests, sha, now);
    DistinctWhateverTheOrder(manifests, reordered);
    assert forall m :: m in reordered <==> m in multiset(reordered);
    assert forall m :: m in manifests <==> m in multiset(manifests);
    ByProfileIs(reordered, sha, now);
    var a, b := ByProfile(manifests, sha, now).value, ByProfile(reordered, sha, now).value;
    forall p | p in a ensures p in b && a[p] == b[p] {
      assert RecordOf(a[p], p, manifests, sha, now);
      assert RecordOf(b[p], p, reordered, sha, now);
      SameManifest(manifests, a[p].manifest, b[p].manifest);
    }
    forall p | p in b ensures p in a {
      assert RecordOf(b[p], p, reordered, sha, now);
    }
    assert a == b;
  }

  /** Manifests in any order aggregate to the same evidence, or not at all. */
  lemma {:induction false} OrderDoesNotMatter(
    manifests: seq<Manifest>, reordered: seq<Manifest>, sha: string, now: int, digest: Digest)
    requires multiset(manifests) == multiset(reordered)
    ensures Aggregate(manifests, sha, now, digest).Ok? <==> Aggregate(reordered, sha, now, digest).Ok?
    ensures Aggregate(manifests, sha, now, digest).Ok? ==>
              Aggregate(manifests, sha, now, digest) == Aggregate(reordered, sha, now, digest)
  {
    hide ByProfile, Validates, Payload, Complete, FullCommit;
    if ByProfile(manifests, sha, now).Ok? {
      SameRecords(manifests, reordered, sha, now);
    } else if ByProfile(reordered, sha, now).Ok? {
      SameRecords(reordered, manifests, sha, now);
    }
  }

  // ----- validation accepts what aggregation produces -----

  function Embedded(e: Evidence): seq<Manifest> {
    if e.profiles.None? then [] else Manifests(e.profiles.value)
  }

  function Manifests(entries: seq<Entry>): seq<Manifest> {
    if entries == [] then []
    else (if entries[0].manifest.None? then [] else [entries[0].manifest.value]) + Manifests(entries[1..])
  }

  /** Entries that validate carry one manifest each. */
  lemma {:induction false} ManifestsOfEntries(entries: seq<Entry>)
    requires forall i :: 0 <= i < |entries| ==> entries[i].manifest.Some?
    ensures |Manifests(entries)| == |entries|
    ensures forall i :: 0 <= i < |entries| ==> Manifests(entries)[i] == entries[i].manifest.value
  {
    if entries != [] {
      ManifestsOfEntries(entries[1..]);
      assert forall i :: 0 < i < |entries| ==> entries[i] == entries[1..][i - 1];
    }
  }

  lemma {:induction false} ValidEntryIs(entry: Entry, expected: string, sha: string, now: int, digest: Digest)
    requires ValidateEntry(entry, expected, sha, now, digest).Ok?
    ensures entry.manifest.Some? && Valid(entry.manifest.value, sha, now)
    ensures entry.manifest.value.profile == Some(expected)
    ensures entry == Entry(Some(expected), Some(digest(entry.manifest.value)), entry.manifest)
    ensures ValidateEntry(entry, expected, sha, now, digest) == ValidateManifest(entry.manifest.value, sha, now)
  {
  }

  lemma {:induction false} RequiredDistinct()
    ensures forall i, j :: 0 <= i < j < |REQUIRED_PROFILES| ==> |REQUIRED_PROFILES[i]| != |REQUIRED_PROFILES[j]|
  {
  }

  ghost predicate InOrder(manifests: seq<Manifest>, sha: string, now: int) {
    && |manifests| == |REQUIRED_PROFILES|
    && forall i :: 0 <= i < |manifests| ==>
        manifests[i].profile == Some(REQUIRED_PROFILES[i]) && Valid(manifests[i], sha, now)
  }

  lemma {:induction false} InOrderCollects(manifests: seq<Manifest>, sha: string, now: int)
    requires InOrder(manifests, sha, now)
    ensures var byProfile := ByProfile(manifests, sha, now);
            && byProfile.Ok? && Complete(byProfile.value)
            && forall i :: 0 <= i < |REQUIRED_PROFILES| ==>
                 byProfile.value[REQUIRED_PROFILES[i]].manifest == manifests[i]
                 && ValidateManifest(manifests[i], sha, now) == Ok(byProfile.value[REQUIRED_PROFILES[i]].validated)
  {
    hide ValidateManifest, ByProfile;
    RequiredDistinct();
    ByProfileIs(manifests, sha, now);
    var byProfile := ByProfile(manifests, sha, now).value;
    forall i | 0 <= i < |REQUIRED_PROFILES|
      ensures var p := REQUIRED_PROFILES[i];
              p in byProfile && byProfile[p].manifest == manifests[i]
              && ValidateManifest(manifests[i], sha, now) == Ok(byProfile[p].validated)
    {
      var p := REQUIRED_PROFILES[i];
      assert manifests[i] in manifests && manifests[i].profile == Some(p);
      assert RecordOf(byProfile[p], p, manifests, sha, now);
      SameManifest(manifests, manifests[i], byProfile[p].manifest);
    }
  }

  lemma {:induction false} ValidEntriesInOrder(entries: seq<Entry>, sha: string, now: int, digest: Digest)
    requires |entries| == |REQUIRED_PROFILES| && ValidateEntries(entries, REQUIRED_PROFILES, sha, now, digest).Ok?
    ensures InOrder(Manifests(entries), sha, now)
    ensures var byProfile := ByProfile(Manifests(entries), sha, now);
            && byProfile.Ok? && Complete(byProfile.value)
            && Entries(byProfile.value, digest) == entries
            && Records(byProfile.value) == ValidateEntries(entries, REQUIRED_PROFILES, sha, now, digest).value
  {
    hide ValidateEntry, ValidateEntries, ValidateManifest, Valid, Manifests, ByProfile;
    var validated := ValidateEntries(entries, REQUIRED_PROFILES, sha, now, digest).value;
    EntriesValidate(entries, REQUIRED_PROFILES, sha, now, digest);
    forall i | 0 <= i < |entries|
      ensures entries[i].manifest.Some?
      ensures var m := entries[i].manifest.value;
              && Valid(m, sha, now) && m.profile == Some(REQUIRED_PROFILES[i])
              && entries[i] == Entry(Some(REQUIRED_PROFILES[i]), Some(digest(m)), Some(m))
              && ValidateManifest(m, sha, now) == Ok(validated[i])
    {
      ValidEntryIs(entries[i], REQUIRED_PROFILES[i], sha, now, digest);
    }
    ManifestsOfEntries(entries);
    InOrderCollects(Manifests(entries), sha, now);
    var byProfile := ByProfile(Manifests(entries), sha, now).value;
    assert Entries(byProfile, digest) == entries;
    assert Records(byProfile) == validated;
  }

  /**
   Validation accepts exactly what aggregating the embedded manifests now would produce, except that
   the time of generation is free within the window.
   */
  lemma {:induction false} ValidatesIffAggregate(e: Evidence, sha: string, now: int, digest: Digest)
    ensures Validates(e, sha, now, digest) <==>
            && Aggregate(Embedded(e), sha, now, digest) == Ok(e.(generatedAt := Some(now)))
            && e.generatedAt.Some? && e.generatedAt.value <= now + MAX_SKEW && e.generatedAt.value <= e.expiresAt.value
  {
    hide ValidateEntries, FullCommit, ByProfile, Expiry, Entries, Records, Manifests;
    var fixed := e.(generatedAt := Some(now));
    if Validates(e, sha, now, digest) {
      ValidEntriesInOrder(e.profiles.value, sha, now, digest);
      assert Validates(fixed, sha, now, digest);
      var byProfile := ByProfile(Embedded(e), sha, now).value;
      assert Payload(byProfile, sha, now, digest) == fixed;
    } else if Aggregate(Embedded(e), sha, now, digest) == Ok(fixed) {
      assert Validates(fixed, sha, now, digest);
    }
  }

  /** Valid evidence embeds one manifest per entry. */
  lemma {:induction false} EmbeddedAt(e: Evidence, sha: string, now: int, digest: Digest)
    requires Validates(e, sha, now, digest)
    ensures |Embedded(e)| == |REQUIRED_PROFILES|
    ensures forall i :: 0 <= i < |REQUIRED_PROFILES| ==>
              && e.profiles.value[i].manifest == Some(Embedded(e)[i]) && Embedded(e)[i] in Embedded(e)
              && Valid(Embedded(e)[i], sha, now)
              && ValidateEntry(e.profiles.value[i], REQUIRED_PROFILES[i], sha, now, digest)
                 == ValidateManifest(Embedded(e)[i], sha, now)
  {
    hide ValidateEntry, ValidateEntries, ValidateManifest, FullCommit, Manifests, Expiry, Valid;
    var entries := e.profiles.value;
    EntriesValidate(entries, REQUIRED_PROFILES, sha, now, digest);
    forall i | 0 <= i < |entries|
      ensures entries[i].manifest.Some? && Valid(entries[i].manifest.value, sha, now)
      ensures ValidateEntry(entries[i], REQUIRED_PROFILES[i], sha, now, digest)
              == ValidateManifest(entries[i].manifest.value, sha, now)
    {
      ValidEntryIs(entries[i], REQUIRED_PROFILES[i], sha, now, digest);
    }
    ManifestsOfEntries(entries);
  }

  lemma {:induction false} EntryAgain(entry: Entry, expected: string, sha: string, now: int, t: int, digest: Digest)
    requires ValidateEntry(entry, expected, sha, now, digest).Ok?
    ensures var m, again := entry.manifest.value, ValidateEntry(entry, expected, sha, t, digest);
            && entry.manifest.Some? && m.generatedAt.Some?
            && ValidateEntry(entry, expected, sha, now, digest).value.generatedAt == m.generatedAt.value
            && (again.Ok? <==> m.generatedAt.value - MAX_SKEW <= t <= m.generatedAt.value + MAX_AGE)
            && (again.Ok? ==> again == ValidateEntry(entry, expected, sha, now, digest))
  {
    ValidEntryIs(entry, expected, sha, now, digest);
    ValidIff(entry.manifest.value, sha, now);
    ValidIff(entry.manifest.value, sha, t);
    hide ValidateManifest, Sound, FullDigest;
    if ValidateEntry(entry, expected, sha, t, digest).Ok? {
      ValidEntryIs(entry, expected, sha, t, digest);
    }
  }

  /**
   Evidence that validates at one time validates at another exactly from its date, less the clock skew,
   to its expiry, and once none of its manifests is ahead of the clock.
   */
  lemma {:induction false} ValidAtIff(e: Evidence, sha: string, now: int, t: int, digest: Digest)
    requires Validates(e, sha, now, digest)
    ensures Validates(e, sha, t, digest) <==>
            e.generatedAt.value - MAX_SKEW <= t <= e.expiresAt.value && NoneAhead(Embedded(e), t)
  {
    hide ValidateEntry, ValidateEntries, ValidateManifest, FullCommit, Expiry, Embedded, SchemaValid, Valid;
    var entries := e.profiles.value;
    var validated := ValidateEntries(entries, REQUIRED_PROFILES, sha, now, digest).value;
    EntriesValidate(entries, REQUIRED_PROFILES, sha, now, digest);
    EntriesValidate(entries, REQUIRED_PROFILES, sha, t, digest);
    EmbeddedAt(e, sha, now, digest);
    ExpiryIsEarliest(validated);
    forall i | 0 <= i < |entries|
      ensures var m := Embedded(e)[i];
              && m.generatedAt == Some(validated[i].generatedAt)
              && (ValidateEntry(entries[i], REQUIRED_PROFILES[i], sha, t, digest).Ok? <==>
                  validated[i].generatedAt - MAX_SKEW <= t <= validated[i].generatedAt + MAX_AGE)
              && (ValidateEntry(entries[i], REQUIRED_PROFILES[i], sha, t, digest).Ok? ==>
                  ValidateEntry(entries[i], REQUIRED_PROFILES[i], sha, t, digest) == Ok(validated[i]))
    {
      EntryAgain(entries[i], REQUIRED_PROFILES[i], sha, now, t, digest);
    }
    ValidAtTimes(e, sha, t, digest, validated);
  }

  lemma {:induction false} ValidAtTimes(e: Evidence, sha: string, t: int, digest: Digest, validated: seq<Validated>)
    requires FullCommit(sha) && SchemaValid(e) && e.commit == Some(sha) && e.profiles.Some?
    requires |e.profiles.value| == |Embedded(e)| == |validated| == |REQUIRED_PROFILES|
    requires e.generatedAt.Some? && e.expiresAt == Some(Expiry(validated)) && e.generatedAt.value <= e.expiresAt.value
    requires forall i :: 0 <= i < |validated| ==> Expiry(validated) <= validated[i].generatedAt + MAX_AGE
    requires forall i :: 0 <= i < |validated| ==> Embedded(e)[i].generatedAt == Some(validated[i].generatedAt)
    requires var r := ValidateEntries(e.profiles.value, REQUIRED_PROFILES, sha, t, digest);
             && (r.Ok? <==> forall i :: 0 <= i < |validated| ==>
                   validated[i].generatedAt - MAX_SKEW <= t <= validated[i].generatedAt + MAX_AGE)
             && (r.Ok? ==> forall i :: 0 <= i < |validated| ==> r.value[i] == validated[i])
    ensures Validates(e, sha, t, digest) <==>
            e.generatedAt.value - MAX_SKEW <= t <= e.expiresAt.value && NoneAhead(Embedded(e), t)
  {
    hide ValidateEntries, FullCommit, SchemaValid, Expiry, Embedded;
    var r := ValidateEntries(e.profiles.value, REQUIRED_PROFILES, sha, t, digest);
    if r.Ok? {
      assert r.value == validated;
    }
    if NoneAhead(Embedded(e), t) {
      forall i | 0 <= i < |validated| ensures validated[i].generatedAt - MAX_SKEW <= t {
        assert Embedded(e)[i] in Embedded(e);
      }
    }
  }

  /**
   Validated evidence is what aggregating its manifests at its own date produces exactly when none of
   them is dated ahead of that, beyond the clock skew.
   */
  lemma {:induction false} OwnDateIff(e: Evidence, sha: string, now: int, digest: Digest)
    requires Validates(e, sha, now, digest)
    ensures Aggregate(Embedded(e), sha, e.generatedAt.value, digest) == Ok(e)
      <==> NoneAhead(Embedded(e), e.generatedAt.value)
  {
    var date := e.generatedAt.value;
    ValidatesIffAggregate(e, sha, date, digest);
    ValidAtIff(e, sha, now, date, digest);
    hide Aggregate, Embedded, NoneAhead, ValidateEntries, Expiry, FullCommit, SchemaValid;
    assert e.(generatedAt := Some(date)) == e;
  }

  /**
   With a digest that tells the embedded manifests apart, a commit and the digests of the five profiles
   fix everything in valid evidence but the time of its generation.
   */
  lemma {:induction false} DigestsFixTheEvidence(
    a: Evidence, b: Evidence, sha: string, now: int, later: int, digest: Digest)
    requires Validates(a, sha, now, digest) && Validates(b, sha, later, digest)
    requires forall m, n :: m in Embedded(a) && n in Embedded(b) && digest(m) == digest(n) ==> m == n
    requires forall i :: 0 <= i < |REQUIRED_PROFILES| ==> a.profiles.value[i].sha256 == b.profiles.value[i].sha256
    ensures a == b.(generatedAt := a.generatedAt)
  {
    hide ValidateEntry, ValidateEntries, ValidateManifest, FullCommit;
    EntriesValidate(a.profiles.value, REQUIRED_PROFILES, sha, now, digest);
    EntriesValidate(b.profiles.value, REQUIRED_PROFILES, sha, later, digest);
    var x := ValidateEntries(a.profiles.value, REQUIRED_PROFILES, sha, now, digest).value;
    var y := ValidateEntries(b.profiles.value, REQUIRED_PROFILES, sha, later, digest).value;
    EmbeddedAt(a, sha, now, digest);
    EmbeddedAt(b, sha, later, digest);
    forall i | 0 <= i < |REQUIRED_PROFILES| ensures a.profiles.value[i] == b.profiles.value[i] && x[i] == y[i] {
      ValidEntryIs(a.profiles.value[i], REQUIRED_PROFILES[i], sha, now, digest);
      ValidEntryIs(b.profiles.value[i], REQUIRED_PROFILES[i], sha, later, digest);
      ValidIff(a.profiles.value[i].manifest.value, sha, now);
      ValidIff(b.profiles.value[i].manifest.value, sha, later);
    }
    assert a.profiles.value == b.profiles.value && x == y;
  }

  /**
   Validation does not tie the manifests to the time of generation: evidence dated before its own
   manifests validates, although no aggregation at that time could have produced it.
   */
  lemma {:induction false} BackdatedEvidenceValidates(
    manifests: seq<Manifest>, sha: string, now: int, date: int, digest: Digest)
    requires Digests(digest) && Aggregate(manifests, sha, now, digest).Ok?
    requires exists m :: m in manifests && m.generatedAt.Some? && date < m.generatedAt.value - MAX_SKEW
    ensures Validates(Aggregate(manifests, sha, now, digest).value.(generatedAt := Some(date)), sha, now, digest)
    ensures Aggregate(manifests, sha, date, digest).Err?
  {
    hide ValidateEntries, FullCommit, ByProfile, Payload, Sound, Expiry;
    ValidatesUntilExpiry(manifests, sha, now, now, digest);
    AggregateIs(manifests, sha, now, digest);
    AggregateIs(manifests, sha, date, digest);
    var m :| m in manifests && m.generatedAt.Some? && date < m.generatedAt.value - MAX_SKEW;
    ValidIff(m, sha, date);
    ValidIff(m, sha, now);
  }

  // ----- manifests of external commands -----

  datatype CommandRun = CommandRun(profile: string, exitCode: int, git: Git, startedAt: int, endedAt: int)

  /** `runId` is the profile with the time of the end; `rest` renders the command and its timing. */
  function CommandManifest(run: CommandRun, runId: string, rest: string): Result<Manifest, EvidenceError> {
    if run.endedAt < run.startedAt then Err(EndedBeforeStart)
    else
      var status := if run.exitCode == 0 then "passed" else "failed";
      Ok(Manifest(
        Some(run.profile), Some(MANIFEST_VERSION), Some(run.profile + "-" + runId), Some(run.git),
        Some([Check(Some(run.profile + "-check"), Some(status))]), Some(run.endedAt), rest))
  }

  /** The manifest of a command is valid evidence exactly when the command succeeded on the clean commit, recently. */
  lemma {:induction false} CommandManifestValidIff(run: CommandRun, runId: string, rest: string, sha: string, now: int)
    requires run.startedAt <= run.endedAt
    ensures var m := CommandManifest(run, runId, rest);
            m.Ok? && (Valid(m.value, sha, now) <==>
                      && FullCommit(sha) && run.profile in REQUIRED_PROFILES && run.exitCode == 0
                      && run.git == Git(Some(sha), Some(false))
                      && run.endedAt - MAX_SKEW <= now <= run.endedAt + MAX_AGE)
  {
    assert FullCommit(sha) ==> sha != "";
    assert run.profile in REQUIRED_PROFILES ==> run.profile != "";
    hide FullCommit;
    var checks := CommandManifest(run, runId, rest).value.checks.value;
    assert checks[0].name.value != "";
    if run.exitCode == 0 {
      assert checks[0].status == Some("passed");
      assert ChecksPass(checks);
    } else {
      FailedIsNoSuccess();
      assert !Acceptable(checks[0]);
    }
    hide ChecksPass, Acceptable;
  }

  lemma {:induction false} FailedIsNoSuccess()
    ensures "failed" !in SUCCESS_STATUSES
  {
  }
}
