/**
 What pruning a baseline admits: when a later baseline accepts nothing that an earlier one rejects,
 for one prune and over runs of prunes, with the exact conditions.
 */
module FilePruning {
  import opened Wrappers
  import opened Ordering
  import opened FileBaseline

  // ----- the record of a key -----

  /** The observation a baseline records for a key: of several, only one may be oversized. */
  function OversizedOf(observations: seq<Observation>, key: Key): Option<Observation> {
    if observations == [] then None
    else
      var last := observations[|observations| - 1];
      if last.key == key && Oversized(last) then Some(last) else OversizedOf(observations[..|observations| - 1], key)
  }

  lemma {:induction false} OversizedIs(observations: seq<Observation>, key: Key)
    ensures var o := OversizedOf(observations, key);
            && (o.Some? ==> o.value in observations && o.value.key == key && Oversized(o.value))
            && (o.None? ==> forall x :: x in observations && x.key == key ==> !Oversized(x))
  {
    hide Oversized;
    if observations != [] {
      var init := observations[..|observations| - 1];
      assert observations == init + [observations[|observations| - 1]];
      OversizedIs(init, key);
    }
  }

  /** A created baseline stores exactly the record of the oversized observation of a key. */
  lemma {:induction false} CreatedStored(observations: seq<Observation>, commitValid: bool, key: Key)
    requires CreateBaseline(observations, commitValid).Ok?
    ensures var o := OversizedOf(observations, key);
            Stored(CreateBaseline(observations, commitValid).value, key)
                == if o.Some? then Some(Recorded(o.value)) else None
    ensures forall x :: x in observations && x.key == key && Oversized(x) ==>
              Stored(CreateBaseline(observations, commitValid).value, key) == Some(Recorded(x))
  {
    hide CreateBaseline, Oversized;
    var b := CreateBaseline(observations, commitValid).value;
    CreatedMembers(observations, commitValid);
    OversizedIs(observations, key);
    StoredIs(b, key);
    forall x | x in observations && x.key == key && Oversized(x) ensures Stored(b, key) == Some(Recorded(x)) {
      assert Recorded(x) in b;
    }
  }

  // ----- a baseline against its own observations -----

  /** The observation reaches the counts recorded from another one, in the dimensions active for both. */
  predicate Reaches(o: Observation, recorded: Observation) {
    && (o.defaultPhysical > 0 && recorded.defaultPhysical > 0 ==> recorded.physical <= o.physical)
    && (o.defaultNonblank > 0 && recorded.defaultNonblank > 0 ==> recorded.nonblank <= o.nonblank)
  }

  /** No observation regresses against the baseline created from the same observations. */
  lemma {:induction false} OwnBaselineAccepts(observations: seq<Observation>, commitValid: bool, key: Key)
    requires CreateBaseline(observations, commitValid).Ok? && Current(observations, key).Some?
    ensures var o, e := Current(observations, key).value, Stored(CreateBaseline(observations, commitValid).value, key);
            && !PhysicalRegression(o, e) && !NonblankRegression(o, e)
            && (Improved(o, e)
                <==> OversizedOf(observations, key).Some? && !Reaches(o, OversizedOf(observations, key).value))
  {
    CreatedStored(observations, commitValid, key);
    CurrentIs(observations, key);
    hide CreateBaseline, Current, Stored, OversizedOf;
  }

  /** The current observation of a key reaches what is recorded for it, if anything is. */
  predicate ReachedAt(observations: seq<Observation>, key: Key) {
    OversizedOf(observations, key).Some? && Current(observations, key).Some? ==>
      Reaches(Current(observations, key).value, OversizedOf(observations, key).value)
  }

  /**
   Comparing observations against their own baseline yields no deltas exactly when the current observation
   of every key reaches what is recorded for it.
   */
  lemma {:induction false} OwnBaselineHasNoDeltasIff(observations: seq<Observation>, commitValid: bool)
    requires CreateBaseline(observations, commitValid).Ok?
    ensures CompareBaseline(CreateBaseline(observations, commitValid).value, observations) == []
            <==> forall key :: ReachedAt(observations, key)
  {
    hide CreateBaseline, CompareBaseline, OversizedOf, Current, Stored, Reaches, PhysicalRegression;
    hide NonblankRegression, Improved;
    var b := CreateBaseline(observations, commitValid).value;
    forall key
      ensures Current(observations, key).Some? && Reportable(b, observations, key) <==> !ReachedAt(observations, key)
    {
      if Current(observations, key).Some? {
        OwnBaselineAccepts(observations, commitValid, key);
      }
    }
    hide Reportable, ReachedAt;
    if CompareBaseline(b, observations) == [] {
      forall key ensures ReachedAt(observations, key) {
        ReportedIff(b, observations, key);
      }
    }
    if forall key :: ReachedAt(observations, key) {
      OwnEntriesObserved(observations, commitValid);
      NothingReported(b, observations);
    }
  }

  ghost predicate OnePerKey(observations: seq<Observation>) {
    forall x, y :: x in observations && y in observations && x.key == y.key ==> x == y
  }

  /** With one observation per key there is nothing to report. */
  lemma {:induction false} OwnBaselineHasNoDeltas(observations: seq<Observation>, commitValid: bool)
    requires CreateBaseline(observations, commitValid).Ok? && OnePerKey(observations)
    ensures CompareBaseline(CreateBaseline(observations, commitValid).value, observations) == []
  {
    hide CreateBaseline, CompareBaseline, OversizedOf, Current, Oversized;
    OwnBaselineHasNoDeltasIff(observations, commitValid);
    forall key ensures ReachedAt(observations, key) {
      OversizedIs(observations, key);
      CurrentIs(observations, key);
    }
  }

  lemma {:induction false} OwnEntriesObserved(observations: seq<Observation>, commitValid: bool)
    requires CreateBaseline(observations, commitValid).Ok?
    ensures forall e :: e in CreateBaseline(observations, commitValid).value ==> Current(observations, e.key).Some?
  {
    CreatedMembers(observations, commitValid);
    hide CreateBaseline;
    forall e | e in CreateBaseline(observations, commitValid).value ensures Current(observations, e.key).Some? {
      CurrentIs(observations, e.key);
    }
  }

  lemma {:induction false} NothingReported(entries: seq<Entry>, observations: seq<Observation>)
    requires forall key :: Current(observations, key).Some? ==> !Reportable(entries, observations, key)
    requires forall e :: e in entries ==> Current(observations, e.key).Some?
    ensures CompareBaseline(entries, observations) == []
  {
    hide Current, Stored, PhysicalRegression, NonblankRegression, Improved;
    forall key | Current(observations, key).Some?
      ensures CurrentDelta(Current(observations, key).value, Stored(entries, key)) == None
    {
      assert !Reportable(entries, observations, key);
    }
    NoCurrentDeltas(ObservedKeys(observations), entries, observations);
    NoRemovedDeltas(entries, observations);
  }

  /** Pruning twice with the same observations equals pruning once. */
  lemma {:induction false} PruneTwice(entries: seq<Entry>, observations: seq<Observation>, commitValid: bool)
    requires PruneBaseline(entries, observations, commitValid).Ok?
    ensures var pruned := PruneBaseline(entries, observations, commitValid);
            PruneBaseline(pruned.value, observations, commitValid) == pruned
  {
    var b := CreateBaseline(observations, commitValid).value;
    hide CreateBaseline, CompareBaseline, Current, Stored, PhysicalRegression, NonblankRegression;
    forall key | Current(observations, key).Some?
      ensures var o := Current(observations, key).value;
              !PhysicalRegression(o, Stored(b, key)) && !NonblankRegression(o, Stored(b, key))
    {
      OwnBaselineAccepts(observations, commitValid, key);
    }
    PassedIffAccepted(b, observations);
  }

  // ----- comparing two baselines -----

  /** Defaults configured per key, the same for every observation set of a run. */
  type Defaults = Key -> (nat, nat)

  /** Legal observations with the configured defaults. */
  ghost predicate Configured(observations: seq<Observation>, defaults: Defaults) {
    forall o :: o in observations ==> Legal(o) && (o.defaultPhysical, o.defaultNonblank) == defaults(o.key)
  }

  /** The largest counts a key may show under a baseline. */
  function Ceilings(entries: seq<Entry>, defaults: Defaults, key: Key): (nat, nat) {
    var (physical, nonblank) := defaults(key);
    match Stored(entries, key)
    case None => (physical, nonblank)
    case Some(e) => (Max(physical, e.physical), Max(nonblank, e.nonblank))
  }

  ghost predicate WithinCeilings(o: Observation, entries: seq<Entry>, defaults: Defaults) {
    && (defaults(o.key).0 > 0 ==> o.physical <= Ceilings(entries, defaults, o.key).0)
    && (defaults(o.key).1 > 0 ==> o.nonblank <= Ceilings(entries, defaults, o.key).1)
  }

  lemma {:induction false} WithinIsNoRegression(o: Observation, entries: seq<Entry>, defaults: Defaults)
    requires (o.defaultPhysical, o.defaultNonblank) == defaults(o.key)
    ensures WithinCeilings(o, entries, defaults)
            <==> !PhysicalRegression(o, Stored(entries, o.key)) && !NonblankRegression(o, Stored(entries, o.key))
  {
    hide Stored;
  }

  /** Acceptance is staying within the effective ceilings in every active dimension. */
  lemma {:induction false} AcceptedByCeilings(entries: seq<Entry>, observations: seq<Observation>, defaults: Defaults)
    requires Configured(observations, defaults)
    ensures Passed(CompareBaseline(entries, observations)) <==>
            forall key :: Current(observations, key).Some? ==>
                WithinCeilings(Current(observations, key).value, entries, defaults)
  {
    PassedIffAccepted(entries, observations);
    forall key | Current(observations, key).Some?
      ensures var o := Current(observations, key).value;
              WithinCeilings(o, entries, defaults)
              <==> !PhysicalRegression(o, Stored(entries, key)) && !NonblankRegression(o, Stored(entries, key))
    {
      CurrentIs(observations, key);
      WithinIsNoRegression(Current(observations, key).value, entries, defaults);
    }
    hide Current, Stored, CompareBaseline, Passed, WithinCeilings, PhysicalRegression, NonblankRegression;
    if Accepted(entries, observations) {
      forall key | Current(observations, key).Some?
        ensures WithinCeilings(Current(observations, key).value, entries, defaults)
      {
      }
    } else {
      var key :| Current(observations, key).Some? &&
        var o := Current(observations, key).value;
        PhysicalRegression(o, Stored(entries, key)) || NonblankRegression(o, Stored(entries, key));
      assert !WithinCeilings(Current(observations, key).value, entries, defaults);
    }
  }

  /** Whatever passes against the later baseline passed against the earlier one. */
  ghost predicate NoNewDebt(earlier: seq<Entry>, later: seq<Entry>, defaults: Defaults) {
    forall observations: seq<Observation> ::
      Configured(observations, defaults) && Passed(CompareBaseline(later, observations)) ==>
        Passed(CompareBaseline(earlier, observations))
  }

  /**
   The later ceilings of a key are within the earlier ones in every active dimension. A later nonblank
   ceiling may also be larger when the physical one keeps nonblank lines below the earlier ceiling anyway.
   */
  predicate CeilingsWithin(earlier: seq<Entry>, later: seq<Entry>, defaults: Defaults, key: Key) {
    var was, now := Ceilings(earlier, defaults, key), Ceilings(later, defaults, key);
    && (defaults(key).0 > 0 ==> now.0 <= was.0)
    && (defaults(key).1 > 0 ==> now.1 <= was.1 || (defaults(key).0 > 0 && now.0 <= was.1))
  }

  lemma {:induction false} OnlyObservation(entries: seq<Entry>, o: Observation, defaults: Defaults)
    requires Legal(o) && (o.defaultPhysical, o.defaultNonblank) == defaults(o.key)
    ensures Configured([o], defaults) &&
      (Passed(CompareBaseline(entries, [o])) <==> WithinCeilings(o, entries, defaults))
  {
    assert Current([o], o.key) == Some(o);
    forall key | key != o.key ensures Current([o], key) == None {
      assert [o][..0] == [];
    }
    AcceptedByCeilings(entries, [o], defaults);
    if WithinCeilings(o, entries, defaults) {
      assert forall key :: Current([o], key).Some? ==> WithinCeilings(Current([o], key).value, entries, defaults);
    } else {
      assert !WithinCeilings(Current([o], o.key).value, entries, defaults);
    }
  }

  /** One baseline admits no debt over another exactly when its ceilings are within the other's, key by key. */
  lemma {:induction false} NoNewDebtIff(earlier: seq<Entry>, later: seq<Entry>, defaults: Defaults)
    ensures NoNewDebt(earlier, later, defaults) <==> forall key :: CeilingsWithin(earlier, later, defaults, key)
  {
    hide CompareBaseline, Passed, Current, Ceilings;
    if forall key :: CeilingsWithin(earlier, later, defaults, key) {
      forall observations: seq<Observation> |
        Configured(observations, defaults) && Passed(CompareBaseline(later, observations))
        ensures Passed(CompareBaseline(earlier, observations))
      {
        AcceptedByCeilings(later, observations, defaults);
        AcceptedByCeilings(earlier, observations, defaults);
        forall key | Current(observations, key).Some?
          ensures WithinCeilings(Current(observations, key).value, earlier, defaults)
        {
          CurrentIs(observations, key);
          assert CeilingsWithin(earlier, later, defaults, key);
        }
      }
    } else {
      var key :| !CeilingsWithin(earlier, later, defaults, key);
      DebtAdmitted(earlier, later, defaults, key);
    }
  }

  lemma {:induction false} DebtAdmitted(earlier: seq<Entry>, later: seq<Entry>, defaults: Defaults, key: Key)
    requires !CeilingsWithin(earlier, later, defaults, key)
    ensures !NoNewDebt(earlier, later, defaults)
  {
    hide CompareBaseline, Passed, Ceilings;
    var was, now := Ceilings(earlier, defaults, key), Ceilings(later, defaults, key);
    var probe :=
      if defaults(key).0 > 0 && now.0 > was.0 then Observation(key, now.0, 0, defaults(key).0, defaults(key).1)
      else
        var physical := if defaults(key).0 > 0 then now.0 else was.1 + 1;
        Observation(key, physical, was.1 + 1, defaults(key).0, defaults(key).1);
    OnlyObservation(later, probe, defaults);
    OnlyObservation(earlier, probe, defaults);
  }

  // ----- one prune -----

  /** The effective ceilings of a created baseline, from its observations. */
  lemma {:induction false} CreatedCeilings(
    observations: seq<Observation>, commitValid: bool, defaults: Defaults, key: Key)
    requires CreateBaseline(observations, commitValid).Ok?
    ensures var recorded := OversizedOf(observations, key);
            Ceilings(CreateBaseline(observations, commitValid).value, defaults, key)
            == ( Max(defaults(key).0, if recorded.Some? then Recorded(recorded.value).physical else 0),
                 Max(defaults(key).1, if recorded.Some? then Recorded(recorded.value).nonblank else 0))
  {
    CreatedStored(observations, commitValid, key);
    hide CreateBaseline, OversizedOf, Stored;
  }

  /** What a prune would record for a key stays within the stored ceilings under the given defaults. */
  predicate RecordWithin(entries: seq<Entry>, observations: seq<Observation>, defaults: Defaults, key: Key) {
    var was, recorded := Ceilings(entries, defaults, key), OversizedOf(observations, key);
    var physical := Max(defaults(key).0, if recorded.Some? then Recorded(recorded.value).physical else 0);
    var nonblank := Max(defaults(key).1, if recorded.Some? then Recorded(recorded.value).nonblank else 0);
    && (defaults(key).0 > 0 ==> physical <= was.0)
    && (defaults(key).1 > 0 ==> nonblank <= was.1 || (defaults(key).0 > 0 && physical <= was.1))
  }

  /**
   A baseline created from the observations admits no debt over another one exactly when, for every
   key, what it records stays within the ceilings the other one has under the same defaults.
   */
  lemma {:induction false} CreatedAdmitsNoDebtIff(
    entries: seq<Entry>, observations: seq<Observation>, commitValid: bool, defaults: Defaults)
    requires CreateBaseline(observations, commitValid).Ok?
    ensures NoNewDebt(entries, CreateBaseline(observations, commitValid).value, defaults)
            <==> forall key :: RecordWithin(entries, observations, defaults, key)
  {
    hide CreateBaseline, Ceilings, OversizedOf, NoNewDebt;
    var created := CreateBaseline(observations, commitValid).value;
    NoNewDebtIff(entries, created, defaults);
    forall key
      ensures CeilingsWithin(entries, created, defaults, key) <==> RecordWithin(entries, observations, defaults, key)
    {
      CreatedCeilings(observations, commitValid, defaults, key);
    }
    hide CeilingsWithin, RecordWithin;
  }

  /**
   For any later defaults, a prune admits no debt exactly when, for every key, what it records stays
   within the ceilings the stored baseline had under these defaults.
   */
  lemma {:induction false} PruneAdmitsNoDebtIff(
    entries: seq<Entry>, observations: seq<Observation>, commitValid: bool, defaults: Defaults)
    requires PruneBaseline(entries, observations, commitValid).Ok?
    ensures NoNewDebt(entries, PruneBaseline(entries, observations, commitValid).value, defaults)
            <==> forall key :: RecordWithin(entries, observations, defaults, key)
  {
    hide CreateBaseline, CompareBaseline, NoNewDebt, RecordWithin;
    CreatedAdmitsNoDebtIff(entries, observations, commitValid, defaults);
  }

  /** Every oversized observation, current or not, stays within the stored ceilings. */
  ghost predicate OversizedWithin(entries: seq<Entry>, observations: seq<Observation>, defaults: Defaults) {
    forall o :: o in observations && Oversized(o) ==> WithinCeilings(o, entries, defaults)
  }

  ghost predicate OversizedWithinAt(entries: seq<Entry>, observations: seq<Observation>, defaults: Defaults, key: Key) {
    forall o :: o in observations && Oversized(o) && o.key == key ==> WithinCeilings(o, entries, defaults)
  }

  lemma {:induction false} OversizedByKey(entries: seq<Entry>, observations: seq<Observation>, defaults: Defaults)
    ensures OversizedWithin(entries, observations, defaults)
            <==> forall key :: OversizedWithinAt(entries, observations, defaults, key)
  {
    hide WithinCeilings, Oversized;
    if forall key :: OversizedWithinAt(entries, observations, defaults, key) {
      forall o | o in observations && Oversized(o) ensures WithinCeilings(o, entries, defaults) {
        assert OversizedWithinAt(entries, observations, defaults, o.key);
      }
    }
  }

  /** The same in terms of the observations, when they were made under these defaults. */
  lemma {:induction false} CreatedWithinIff(
    entries: seq<Entry>, observations: seq<Observation>, commitValid: bool, defaults: Defaults)
    requires CreateBaseline(observations, commitValid).Ok? && Configured(observations, defaults)
    ensures NoNewDebt(entries, CreateBaseline(observations, commitValid).value, defaults)
            <==> OversizedWithin(entries, observations, defaults)
  {
    hide NoNewDebt, OversizedOf, CreateBaseline;
    CreatedAdmitsNoDebtIff(entries, observations, commitValid, defaults);
    forall key
      ensures RecordWithin(entries, observations, defaults, key)
        <==> OversizedWithinAt(entries, observations, defaults, key)
    {
      OversizedIs(observations, key);
      CreatedStored(observations, commitValid, key);
      StoredAtLeastDefaults(entries, defaults, key);
      hide Ceilings, Stored;
    }
    hide RecordWithin, OversizedWithinAt;
    OversizedByKey(entries, observations, defaults);
  }

  /**
   With unchanged defaults, a prune admits no debt exactly when every oversized observation stays within
   the stored ceilings. The comparison alone only sees the last observation of a key.
   */
  lemma {:induction false} SameDefaultsAdmitNoDebtIff(
    entries: seq<Entry>, observations: seq<Observation>, commitValid: bool, defaults: Defaults)
    requires PruneBaseline(entries, observations, commitValid).Ok? && Configured(observations, defaults)
    ensures NoNewDebt(entries, PruneBaseline(entries, observations, commitValid).value, defaults)
            <==> OversizedWithin(entries, observations, defaults)
  {
    hide NoNewDebt, CreateBaseline, CompareBaseline, OversizedWithin;
    CreatedWithinIff(entries, observations, commitValid, defaults);
  }

  lemma {:induction false} StoredAtLeastDefaults(entries: seq<Entry>, defaults: Defaults, key: Key)
    ensures Ceilings(entries, defaults, key).0 >= defaults(key).0 &&
      Ceilings(entries, defaults, key).1 >= defaults(key).1
  {
  }

  /** One observation per key is enough: then the comparison has seen every oversized one. */
  lemma {:induction false} OnePerKeySuffices(entries: seq<Entry>, observations: seq<Observation>, defaults: Defaults)
    requires Passed(CompareBaseline(entries, observations)) && Configured(observations, defaults) &&
      OnePerKey(observations)
    ensures OversizedWithin(entries, observations, defaults)
  {
    AcceptedByCeilings(entries, observations, defaults);
    hide CompareBaseline, Passed, Current, Ceilings;
    forall o | o in observations && Oversized(o) ensures WithinCeilings(o, entries, defaults) {
      CurrentIs(observations, o.key);
    }
  }

  // ----- runs of prunes -----

  /** A run of prunes under the same defaults, each with its own observations. */
  ghost predicate PruneRun(baselines: seq<seq<Entry>>, observed: seq<seq<Observation>>, defaults: Defaults) {
    && |baselines| == |observed| + 1
    && forall k :: 0 <= k < |observed| ==>
         Configured(observed[k], defaults) && PruneBaseline(baselines[k], observed[k], true) == Ok(baselines[k + 1])
  }

  /** Every prune of the run sees oversized observations only within the ceilings stored by then. */
  ghost predicate RunWithin(baselines: seq<seq<Entry>>, observed: seq<seq<Observation>>, defaults: Defaults)
    requires PruneRun(baselines, observed, defaults)
  {
    forall k :: 0 <= k < |observed| ==> OversizedWithin(baselines[k], observed[k], defaults)
  }

  /** Such a prune raises no effective ceiling and keeps only keys that were stored. */
  lemma {:induction false} PruneLowers(
    entries: seq<Entry>, observations: seq<Observation>, commitValid: bool, defaults: Defaults, key: Key)
    requires PruneBaseline(entries, observations, commitValid).Ok? && Configured(observations, defaults)
    requires OversizedWithin(entries, observations, defaults)
    ensures var pruned := PruneBaseline(entries, observations, commitValid).value;
            && Ceilings(pruned, defaults, key).0 <= Ceilings(entries, defaults, key).0
            && Ceilings(pruned, defaults, key).1 <= Ceilings(entries, defaults, key).1
            && (Stored(pruned, key).Some? ==> Stored(entries, key).Some?)
  {
    CreatedCeilings(observations, commitValid, defaults, key);
    CreatedStored(observations, commitValid, key);
    OversizedIs(observations, key);
    StoredAtLeastDefaults(entries, defaults, key);
    hide CreateBaseline, CompareBaseline, OversizedOf, Stored;
  }

  /** Along a run of such prunes no effective ceiling ever rises, and no key ever comes back. */
  lemma {:induction false} CeilingsNeverRise(
    baselines: seq<seq<Entry>>, observed: seq<seq<Observation>>, defaults: Defaults, i: nat, j: nat, key: Key)
    requires PruneRun(baselines, observed, defaults) && RunWithin(baselines, observed, defaults) && i <= j < |baselines|
    ensures Ceilings(baselines[j], defaults, key).0 <= Ceilings(baselines[i], defaults, key).0
    ensures Ceilings(baselines[j], defaults, key).1 <= Ceilings(baselines[i], defaults, key).1
    ensures Stored(baselines[j], key).Some? ==> Stored(baselines[i], key).Some?
  {
    hide PruneBaseline, Ceilings, Stored, OversizedWithin, Configured;
    if i < j {
      CeilingsNeverRise(baselines, observed, defaults, i, j - 1, key);
      assert PruneBaseline(baselines[j - 1], observed[j - 1], true) == Ok(baselines[j - 1 + 1]);
      PruneLowers(baselines[j - 1], observed[j - 1], true, defaults, key);
    }
  }

  /**
   Pruning never admits new debt over a whole run, between any two of its baselines, exactly when every
   prune of it saw oversized observations only within the ceilings stored by then.
   */
  lemma {:induction false} RunAdmitsNoDebtIff(
    baselines: seq<seq<Entry>>, observed: seq<seq<Observation>>, defaults: Defaults)
    requires PruneRun(baselines, observed, defaults)
    ensures RunWithin(baselines, observed, defaults)
            <==> forall i, j :: 0 <= i <= j < |baselines| ==> NoNewDebt(baselines[i], baselines[j], defaults)
  {
    hide PruneBaseline, Ceilings, Stored, OversizedWithin, Configured, NoNewDebt;
    if RunWithin(baselines, observed, defaults) {
      forall i, j | 0 <= i <= j < |baselines| ensures NoNewDebt(baselines[i], baselines[j], defaults) {
        PruneAdmitsNoDebt(baselines, observed, defaults, i, j);
      }
    } else {
      var k :| 0 <= k < |observed| && !OversizedWithin(baselines[k], observed[k], defaults);
      assert PruneBaseline(baselines[k], observed[k], true) == Ok(baselines[k + 1]);
      SameDefaultsAdmitNoDebtIff(baselines[k], observed[k], true, defaults);
      assert !NoNewDebt(baselines[k], baselines[k + 1], defaults);
    }
  }

  /** Whatever passes against a later baseline of such a run passed against every earlier one. */
  lemma {:induction false} PruneAdmitsNoDebt(
    baselines: seq<seq<Entry>>, observed: seq<seq<Observation>>, defaults: Defaults, i: nat, j: nat)
    requires PruneRun(baselines, observed, defaults) && RunWithin(baselines, observed, defaults) && i <= j < |baselines|
    ensures NoNewDebt(baselines[i], baselines[j], defaults)
  {
    NoNewDebtIff(baselines[i], baselines[j], defaults);
    hide Ceilings, NoNewDebt, PruneRun;
    forall key ensures CeilingsWithin(baselines[i], baselines[j], defaults, key) {
      CeilingsNeverRise(baselines, observed, defaults, i, j, key);
    }
  }

  /**
   Between any two baselines of a run it is enough to look at the last prune: the later one admits no
   debt exactly when the oversized observations it was made from are within the earlier ceilings.
   */
  lemma {:induction false} PairAdmitsNoDebtIff(
    baselines: seq<seq<Entry>>, observed: seq<seq<Observation>>, defaults: Defaults, i: nat, j: nat)
    requires PruneRun(baselines, observed, defaults) && i < j < |baselines|
    ensures NoNewDebt(baselines[i], baselines[j], defaults)
            <==> OversizedWithin(baselines[i], observed[j - 1], defaults)
  {
    hide CreateBaseline, CompareBaseline, OversizedWithin, Configured, NoNewDebt;
    assert PruneBaseline(baselines[j - 1], observed[j - 1], true) == Ok(baselines[j - 1 + 1]);
    CreatedWithinIff(baselines[i], observed[j - 1], true, defaults);
  }

  // ----- prunes that admit debt -----

  lemma {:induction false} SingleAccepted(entries: seq<Entry>, o: Observation)
    requires |entries| <= 1 && (entries != [] ==> entries[0].key == o.key) && Legal(o)
    ensures var e := if entries == [] then None else Some(entries[0]);
            Passed(CompareBaseline(entries, [o])) <==> !PhysicalRegression(o, e) && !NonblankRegression(o, e)
  {
    var defaults := (key: Key) => (o.defaultPhysical, o.defaultNonblank);
    OnlyObservation(entries, o, defaults);
    WithinIsNoRegression(o, entries, defaults);
    hide CompareBaseline, Passed;
  }

  /** With a changed default, a count the stored baseline rejects is accepted after a prune. */
  lemma {:induction false} ChangedDefaultAdmitsDebt(key: Key)
    ensures var before := [Entry(key, 100, 90)];
            var loose := Observation(key, 150, 80, 200, 40);
            var probe := Observation(key, 120, 30, 50, 40);
            var pruned := PruneBaseline(before, [loose], true);
            && Legal(loose) && Legal(probe) && pruned == Ok([Entry(key, 150, 80)])
            && Passed(CompareBaseline(pruned.value, [probe])) && !Passed(CompareBaseline(before, [probe]))
  {
    var before := [Entry(key, 100, 90)];
    var loose, probe := Observation(key, 150, 80, 200, 40), Observation(key, 120, 30, 50, 40);
    assert [loose][1..] == [] && Insert(loose, [], ObservationLe) == [loose] && Sort([loose], ObservationLe) == [loose];
    assert Entries([loose]) == [Recorded(loose)] + Entries([]) == [Recorded(loose)];
    assert CreateBaseline([loose], true) == Ok([Entry(key, 150, 80)]);
    SingleAccepted(before, loose);
    SingleAccepted(before, probe);
    SingleAccepted([Entry(key, 150, 80)], probe);
    hide CompareBaseline, Passed, CreateBaseline;
  }

  /** A repeated key hides its oversized observation from the comparison, and a prune then records it. */
  lemma {:induction false} RepeatedKeyAdmitsDebt(key: Key)
    ensures var observed := [Observation(key, 1000, 0, 500, 0), Observation(key, 10, 0, 500, 0)];
            var probe := Observation(key, 900, 0, 500, 0);
            var pruned := PruneBaseline([], observed, true);
            && pruned == Ok([Entry(key, 1000, 0)])
            && Passed(CompareBaseline(pruned.value, [probe])) && !Passed(CompareBaseline([], [probe]))
  {
    var large, small := Observation(key, 1000, 0, 500, 0), Observation(key, 10, 0, 500, 0);
    var observed, probe := [large, small], Observation(key, 900, 0, 500, 0);
    SortedPair(large, small);
    PairRecorded(large, small);
    assert CreateBaseline(observed, true) == Ok([Entry(key, 1000, 0)]);
    LastOfPair(large, small);
    SingleAccepted([], probe);
    SingleAccepted([Entry(key, 1000, 0)], probe);
    hide CompareBaseline, Passed, CreateBaseline;
  }

  lemma {:induction false} SortedPair(a: Observation, b: Observation)
    requires a.key == b.key
    ensures Sort([a, b], ObservationLe) == [a, b]
  {
    TextTotal(a.key.path, a.key.path);
    assert [a, b][1..] == [b] && [b][1..] == [];
    assert Sort([b], ObservationLe) == [b];
  }

  lemma {:induction false} PairRecorded(a: Observation, b: Observation)
    requires Oversized(a) && !Oversized(b)
    ensures Entries([a, b]) == [Recorded(a)]
  {
    assert [a, b][1..] == [b] && [b][1..] == [];
    assert Entries([b]) == [] + Entries([]) == [];
  }

  /** Only the last observation of a repeated key is compared. */
  lemma {:induction false} LastOfPair(a: Observation, b: Observation)
    requires a.key == b.key && !PhysicalRegression(b, None) && !NonblankRegression(b, None)
    ensures Passed(CompareBaseline([], [a, b]))
  {
    forall key ensures Current([a, b], key) == if key == b.key then Some(b) else None {
      assert [a, b][..1] == [a] && [a][..0] == [];
      if key != b.key {
        assert Current([a], key) == None;
      }
    }
    PassedIffAccepted([], [a, b]);
    hide CompareBaseline, Passed, Current;
  }
}
