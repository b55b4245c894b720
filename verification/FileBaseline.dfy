/**
 The per-path file ceiling ratchet: recording, comparing and pruning a baseline over two
 dimensions, each switched off by a default of zero.
 */
module FileBaseline {
  import opened Wrappers
  import opened Ordering

  const MAX_BASELINE_ENTRIES := 20_000

  datatype Key = Key(group: string, path: string)

  datatype Observation = Observation(key: Key, physical: nat, nonblank: nat, defaultPhysical: nat, defaultNonblank: nat)

  /** Observations are refused when built with more nonblank than physical lines. */
  predicate Legal(o: Observation) { o.nonblank <= o.physical }

  datatype Entry = Entry(key: Key, physical: nat, nonblank: nat)

  datatype Delta = Delta(
    key: Key, physical: nat, nonblank: nat, physicalCeiling: nat, nonblankCeiling: nat,
    physicalRegression: bool, nonblankRegression: bool, improved: bool, removed: bool, newPath: bool)
  {
    predicate Regressed() { physicalRegression || nonblankRegression }
  }

  datatype BaselineError = TooManyEntries | DuplicateEntries | InvalidCommit | Regressions

  predicate KeyLe(a: Key, b: Key) {
    if a.group == b.group then TextLe(a.path, b.path) else TextLe(a.group, b.group)
  }

  lemma {:induction false} KeyOrder()
    ensures TotalOrder(KeyLe)
  {
    forall a, b ensures KeyLe(a, b) || KeyLe(b, a) {
      TextTotal(a.path, b.path);
      TextTotal(a.group, b.group);
    }
    forall a, b | KeyLe(a, b) && KeyLe(b, a) ensures a == b {
      TextTotal(a.path, b.path);
      TextTotal(a.group, b.group);
    }
    forall a, b, c | KeyLe(a, b) && KeyLe(b, c) ensures KeyLe(a, c) {
      TextTotal(a.group, b.group);
      TextTotal(b.group, c.group);
      if a.group == b.group == c.group {
        TextTransitive(a.path, b.path, c.path);
      } else {
        TextTransitive(a.group, b.group, c.group);
      }
    }
  }

  // ----- recording -----

  predicate Exceeds(value: nat, ceiling: nat) {
    ceiling > 0 && value > ceiling
  }

  predicate Oversized(o: Observation) {
    Exceeds(o.physical, o.defaultPhysical) || Exceeds(o.nonblank, o.defaultNonblank)
  }

  function Recorded(o: Observation): Entry {
    Entry(o.key, if o.defaultPhysical > 0 then o.physical else 0, if o.defaultNonblank > 0 then o.nonblank else 0)
  }

  predicate ObservationLe(a: Observation, b: Observation) {
    KeyLe(a.key, b.key)
  }

  /** The entries of the oversized observations, in the given order. */
  function Entries(observations: seq<Observation>): seq<Entry> {
    if observations == [] then []
    else (if Oversized(observations[0]) then [Recorded(observations[0])] else []) + Entries(observations[1..])
  }

  predicate DistinctKeys(entries: seq<Entry>) {
    forall i, j :: 0 <= i < j < |entries| ==> entries[i].key != entries[j].key
  }

  /** `commitValid` says whether the given source commit is a lower-case hexadecimal id. */
  function CreateBaseline(observations: seq<Observation>, commitValid: bool): Result<seq<Entry>, BaselineError> {
    var entries := Entries(Sort(observations, ObservationLe));
    if |entries| > MAX_BASELINE_ENTRIES then Err(TooManyEntries)
    else if !commitValid then Err(InvalidCommit)
    else if !DistinctKeys(entries) then Err(DuplicateEntries)
    else Ok(entries)
  }

  // ----- comparing -----

  /** The last observation of a key, which is the one a mapping by key keeps. */
  function Current(observations: seq<Observation>, key: Key): Option<Observation> {
    if observations == [] then None
    else
      var last := observations[|observations| - 1];
      if last.key == key then Some(last) else Current(observations[..|observations| - 1], key)
  }

  function Stored(entries: seq<Entry>, key: Key): Option<Entry> {
    if entries == [] then None
    else
      var last := entries[|entries| - 1];
      if last.key == key then Some(last) else Stored(entries[..|entries| - 1], key)
  }

  function Max(a: nat, b: nat): nat { if a < b then b else a }

  function ActivePhysical(o: Observation, entry: Option<Entry>): nat {
    if entry.None? then o.defaultPhysical else Max(o.defaultPhysical, entry.value.physical)
  }

  function ActiveNonblank(o: Observation, entry: Option<Entry>): nat {
    if entry.None? then o.defaultNonblank else Max(o.defaultNonblank, entry.value.nonblank)
  }

  predicate PhysicalRegression(o: Observation, entry: Option<Entry>) {
    o.defaultPhysical > 0 && o.physical > ActivePhysical(o, entry)
  }

  predicate NonblankRegression(o: Observation, entry: Option<Entry>) {
    o.defaultNonblank > 0 && o.nonblank > ActiveNonblank(o, entry)
  }

  predicate Improved(o: Observation, entry: Option<Entry>) {
    entry.Some? && ((o.defaultPhysical > 0 && o.physical < entry.value.physical)
                    || (o.defaultNonblank > 0 && o.nonblank < entry.value.nonblank))
  }

  function CurrentDelta(o: Observation, entry: Option<Entry>): Option<Delta> {
    var physical := PhysicalRegression(o, entry);
    var nonblank := NonblankRegression(o, entry);
    if !physical && !nonblank && !Improved(o, entry) then None
    else Some(Delta(o.key, o.physical, o.nonblank, ActivePhysical(o, entry), ActiveNonblank(o, entry),
                    physical, nonblank, Improved(o, entry) && !(physical || nonblank), false, entry.None?))
  }

  function RemovedDelta(entry: Entry): Delta {
    Delta(entry.key, 0, 0, entry.physical, entry.nonblank, false, false, true, true, false)
  }

  function ObservedKeys(observations: seq<Observation>): (keys: seq<Key>)
    ensures forall k :: k in keys <==> exists i :: 0 <= i < |observations| && observations[i].key == k
  {
    var all := seq(|observations|, i requires 0 <= i < |observations| => observations[i].key);
    ObservedKeysExact(observations, all);
    Distinct(Sort(all, KeyLe))
  }

  lemma {:induction false} KeyIndex(observations: seq<Observation>, all: seq<Key>, key: Key)
    requires |all| == |observations| && forall i :: 0 <= i < |all| ==> all[i] == observations[i].key
    ensures key in all <==> exists i :: 0 <= i < |observations| && observations[i].key == key
  {
  }

  lemma {:induction false} ObservedKeysExact(observations: seq<Observation>, all: seq<Key>)
    requires |all| == |observations| && forall i :: 0 <= i < |all| ==> all[i] == observations[i].key
    ensures forall k ::
              k in Distinct(Sort(all, KeyLe)) <==> exists i :: 0 <= i < |observations| && observations[i].key == k
  {
    DistinctMembers(Sort(all, KeyLe));
    forall k ensures k in Sort(all, KeyLe) <==> exists i :: 0 <= i < |observations| && observations[i].key == k {
      SortMembers(all, KeyLe, k);
      KeyIndex(observations, all, k);
    }
  }

  /** What one observed key contributes. */
  function KeyDeltas(key: Key, entries: seq<Entry>, observations: seq<Observation>): seq<Delta> {
    var o := Current(observations, key);
    var delta := if o.None? then None else CurrentDelta(o.value, Stored(entries, key));
    if delta.None? then [] else [delta.value]
  }

  function CurrentDeltas(keys: seq<Key>, entries: seq<Entry>, observations: seq<Observation>): seq<Delta> {
    if keys == [] then []
    else KeyDeltas(keys[0], entries, observations) + CurrentDeltas(keys[1..], entries, observations)
  }

  /** What one stored entry contributes. */
  function EntryDeltas(entry: Entry, observations: seq<Observation>): seq<Delta> {
    if Current(observations, entry.key).None? then [RemovedDelta(entry)] else []
  }

  function RemovedDeltas(entries: seq<Entry>, observations: seq<Observation>): seq<Delta> {
    if entries == [] then [] else EntryDeltas(entries[0], observations) + RemovedDeltas(entries[1..], observations)
  }

  lemma {:induction false} CurrentFrom(keys: seq<Key>, i: nat, entries: seq<Entry>, observations: seq<Observation>)
    requires i < |keys|
    ensures CurrentDeltas(keys[i..], entries, observations)
            == KeyDeltas(keys[i], entries, observations) + CurrentDeltas(keys[i + 1..], entries, observations)
  {
  }

  lemma {:induction false} RemovedFrom(entries: seq<Entry>, i: nat, observations: seq<Observation>)
    requires i < |entries|
    ensures RemovedDeltas(entries[i..], observations)
            == EntryDeltas(entries[i], observations) + RemovedDeltas(entries[i + 1..], observations)
  {
  }

  /** Deltas of the observed keys in key order, then one removal per unobserved entry in key order. */
  function CompareBaseline(entries: seq<Entry>, observations: seq<Observation>): seq<Delta> {
    CurrentDeltas(ObservedKeys(observations), entries, observations) + RemovedDeltas(entries, observations)
  }

  method Compare(entries: seq<Entry>, observations: seq<Observation>) returns (deltas: seq<Delta>)
    ensures deltas == CompareBaseline(entries, observations)
  {
    deltas := [];
    var keys := ObservedKeys(observations);
    hide CurrentDelta, Current, Stored, CurrentDeltas, RemovedDeltas, ObservedKeys;
    assert keys[0..] == keys;
    for i := 0 to |keys|
      invariant CurrentDeltas(keys, entries, observations) == deltas + CurrentDeltas(keys[i..], entries, observations)
    {
      CurrentFrom(keys, i, entries, observations);
      var o := Current(observations, keys[i]);
      if o.Some? {
        var delta := CurrentDelta(o.value, Stored(entries, keys[i]));
        if delta.Some? {
          deltas := deltas + [delta.value];
        }
      }
    }
    DeltasEnd(keys[|keys|..], [], entries, observations);
    ghost var current := deltas;
    assert current == CurrentDeltas(keys, entries, observations);
    assert entries[0..] == entries;
    for i := 0 to |entries|
      invariant current + RemovedDeltas(entries, observations) == deltas + RemovedDeltas(entries[i..], observations)
    {
      RemovedFrom(entries, i, observations);
      var entry := entries[i];
      if Current(observations, entry.key).None? {
        deltas := deltas + [Delta(entry.key, 0, 0, entry.physical, entry.nonblank, false, false, true, true, false)];
      }
    }
    DeltasEnd([], entries[|entries|..], entries, observations);
  }

  lemma {:induction false} DeltasEnd(
    keys: seq<Key>, rest: seq<Entry>, entries: seq<Entry>, observations: seq<Observation>)
    requires keys == [] && rest == []
    ensures CurrentDeltas(keys, entries, observations) == [] && RemovedDeltas(rest, observations) == []
  {
  }

  /** The comparison passes: no delta is a regression. */
  predicate Passed(deltas: seq<Delta>) {
    forall i :: 0 <= i < |deltas| ==> !deltas[i].Regressed()
  }

  function PruneBaseline(
    entries: seq<Entry>, observations: seq<Observation>, commitValid: bool): Result<seq<Entry>, BaselineError>
  {
    if !Passed(CompareBaseline(entries, observations)) then Err(Regressions)
    else CreateBaseline(observations, commitValid)
  }

  // ----- what a comparison decides -----

  lemma {:induction false} CurrentIs(observations: seq<Observation>, key: Key)
    ensures var o := Current(observations, key);
            && (o.Some? ==> o.value in observations && o.value.key == key)
            && (o.None? ==> forall x :: x in observations ==> x.key != key)
    ensures (forall x, y :: x in observations && y in observations && x.key == y.key ==> x == y) ==>
              forall x :: x in observations && x.key == key ==> Current(observations, key) == Some(x)
  {
    if observations != [] {
      var init := observations[..|observations| - 1];
      assert observations == init + [observations[|observations| - 1]];
      CurrentIs(init, key);
    }
  }

  lemma {:induction false} StoredIs(entries: seq<Entry>, key: Key)
    ensures var e := Stored(entries, key);
            && (e.Some? ==> e.value in entries && e.value.key == key)
            && (e.None? ==> forall x :: x in entries ==> x.key != key)
    ensures DistinctKeys(entries) ==> forall x :: x in entries && x.key == key ==> Stored(entries, key) == Some(x)
  {
    if entries != [] {
      var init := entries[..|entries| - 1];
      assert entries == init + [entries[|entries| - 1]];
      StoredIs(init, key);
      if DistinctKeys(entries) {
        assert DistinctKeys(init);
      }
    }
  }

  /** The observations are accepted: the current one of every key stays within its effective ceilings. */
  ghost predicate Accepted(entries: seq<Entry>, observations: seq<Observation>) {
    forall key :: Current(observations, key).Some? ==>
      var o := Current(observations, key).value;
      !PhysicalRegression(o, Stored(entries, key)) && !NonblankRegression(o, Stored(entries, key))
  }

  lemma {:induction false} CurrentDeltasPass(keys: seq<Key>, entries: seq<Entry>, observations: seq<Observation>)
    ensures Passed(CurrentDeltas(keys, entries, observations)) <==>
            forall k :: k in keys && Current(observations, k).Some? ==>
              var o := Current(observations, k).value;
              !PhysicalRegression(o, Stored(entries, k)) && !NonblankRegression(o, Stored(entries, k))
  {
    hide Current, Stored, KeyDeltas, PhysicalRegression, NonblankRegression, Passed;
    if keys == [] {
      PassedEmpty();
    } else {
      CurrentDeltasPass(keys[1..], entries, observations);
      KeyDeltasPass(keys[0], entries, observations);
      PassedAppend(KeyDeltas(keys[0], entries, observations), CurrentDeltas(keys[1..], entries, observations));
      assert forall k :: k in keys <==> k == keys[0] || k in keys[1..];
    }
  }

  lemma {:induction false} PassedEmpty()
    ensures Passed([])
  {
  }

  lemma {:induction false} KeyDeltasPass(key: Key, entries: seq<Entry>, observations: seq<Observation>)
    ensures Passed(KeyDeltas(key, entries, observations)) ==
            (Current(observations, key).Some? ==>
              var o := Current(observations, key).value;
              !PhysicalRegression(o, Stored(entries, key)) && !NonblankRegression(o, Stored(entries, key)))
  {
    hide Current, Stored, ActivePhysical, ActiveNonblank;
    var deltas := KeyDeltas(key, entries, observations);
    if deltas != [] {
      assert Passed(deltas) == !deltas[0].Regressed();
    }
  }

  lemma {:induction false} PassedAppend(a: seq<Delta>, b: seq<Delta>)
    ensures Passed(a + b) <==> Passed(a) && Passed(b)
  {
    assert forall i :: 0 <= i < |a| ==> (a + b)[i] == a[i];
    assert forall i :: 0 <= i < |b| ==> (a + b)[|a| + i] == b[i];
    assert forall i :: |a| <= i < |a + b| ==> (a + b)[i] == b[i - |a|];
  }

  lemma {:induction false} RemovedDeltasPass(entries: seq<Entry>, observations: seq<Observation>)
    ensures Passed(RemovedDeltas(entries, observations))
  {
    if entries != [] {
      RemovedDeltasPass(entries[1..], observations);
    }
  }

  /** The comparison passes exactly when the observations are accepted. */
  lemma {:induction false} PassedIffAccepted(entries: seq<Entry>, observations: seq<Observation>)
    ensures Passed(CompareBaseline(entries, observations)) <==> Accepted(entries, observations)
  {
    hide CurrentDeltas, RemovedDeltas, PhysicalRegression, NonblankRegression;
    var keys := ObservedKeys(observations);
    CurrentDeltasPass(keys, entries, observations);
    RemovedDeltasPass(entries, observations);
    PassedAppend(CurrentDeltas(keys, entries, observations), RemovedDeltas(entries, observations));
    forall k | Current(observations, k).Some? ensures k in keys {
      CurrentIs(observations, k);
      var i :| 0 <= i < |observations| && observations[i] == Current(observations, k).value;
    }
  }

  lemma {:induction false} CurrentDeltaMembers(
    keys: seq<Key>, entries: seq<Entry>, observations: seq<Observation>, d: Delta)
    ensures d in CurrentDeltas(keys, entries, observations) <==>
            exists k :: k in keys && d in KeyDeltas(k, entries, observations)
  {
    hide KeyDeltas;
    if keys != [] {
      CurrentDeltaMembers(keys[1..], entries, observations, d);
      assert forall k :: k in keys <==> k == keys[0] || k in keys[1..];
    }
  }

  lemma {:induction false} RemovedDeltaMembers(entries: seq<Entry>, observations: seq<Observation>, d: Delta)
    ensures d in RemovedDeltas(entries, observations) <==>
            exists e :: e in entries && d in EntryDeltas(e, observations)
  {
    hide EntryDeltas;
    if entries != [] {
      RemovedDeltaMembers(entries[1..], observations, d);
      assert forall e :: e in entries <==> e == entries[0] || e in entries[1..];
    }
  }

  /** A key is reported because of what is observed for it, or because it is stored and no longer observed. */
  predicate Reportable(entries: seq<Entry>, observations: seq<Observation>, key: Key) {
    var o, e := Current(observations, key), Stored(entries, key);
    if o.None? then e.Some?
    else PhysicalRegression(o.value, e) || NonblankRegression(o.value, e) || Improved(o.value, e)
  }

  /**
   Every delta is a regression or an improvement and never both, a new path is always a regression, and
   a removal shows the stored ceilings of a path that is no longer observed.
   */
  lemma {:induction false} DeltasMean(entries: seq<Entry>, observations: seq<Observation>, d: Delta)
    requires d in CompareBaseline(entries, observations)
    ensures d.Regressed() <==> !d.improved
    ensures d.newPath ==> d.Regressed() && Stored(entries, d.key).None?
    ensures d.removed <==> Current(observations, d.key).None?
    ensures d.removed ==> d.improved && Entry(d.key, d.physicalCeiling, d.nonblankCeiling) in entries
    ensures !d.removed ==>
              var o := Current(observations, d.key).value;
              && d.physical == o.physical && d.nonblank == o.nonblank
              && (d.physicalRegression <==> o.defaultPhysical > 0 && d.physical > d.physicalCeiling)
              && (d.nonblankRegression <==> o.defaultNonblank > 0 && d.nonblank > d.nonblankCeiling)
              && d.physicalCeiling >= o.defaultPhysical && d.nonblankCeiling >= o.defaultNonblank
    ensures !d.removed && d.improved ==>
              var o, e := Current(observations, d.key).value, Stored(entries, d.key);
              e.Some? && ((o.defaultPhysical > 0 && d.physical < e.value.physical)
                          || (o.defaultNonblank > 0 && d.nonblank < e.value.nonblank))
  {
    var keys := ObservedKeys(observations);
    CurrentDeltaMembers(keys, entries, observations, d);
    RemovedDeltaMembers(entries, observations, d);
    hide CurrentDeltas, RemovedDeltas, Current, Stored, ObservedKeys;
    if k :| k in keys && d in KeyDeltas(k, entries, observations) {
      KeyDelta(k, entries, observations, d);
    } else {
      var e :| e in entries && d in EntryDeltas(e, observations);
    }
  }

  lemma {:induction false} KeyDelta(key: Key, entries: seq<Entry>, observations: seq<Observation>, d: Delta)
    requires d in KeyDeltas(key, entries, observations)
    ensures var o := Current(observations, key);
            o.Some? && o.value.key == key == d.key && CurrentDelta(o.value, Stored(entries, key)) == Some(d)
  {
    CurrentIs(observations, key);
    hide Current, Stored;
  }

  /** A comparison reports exactly the reportable keys. */
  lemma {:induction false} ReportedIff(entries: seq<Entry>, observations: seq<Observation>, key: Key)
    ensures (exists d :: d in CompareBaseline(entries, observations) && d.key == key)
      <==> Reportable(entries, observations, key)
  {
    var deltas, keys := CompareBaseline(entries, observations), ObservedKeys(observations);
    CurrentIs(observations, key);
    StoredIs(entries, key);
    hide CurrentDeltas, RemovedDeltas, Current, Stored, ObservedKeys;
    if d :| d in deltas && d.key == key {
      CurrentDeltaMembers(keys, entries, observations, d);
      RemovedDeltaMembers(entries, observations, d);
      if k :| k in keys && d in KeyDeltas(k, entries, observations) {
        KeyDelta(k, entries, observations, d);
      }
    } else if Reportable(entries, observations, key) {
      ReportedDelta(entries, observations, key);
    }
  }

  lemma {:induction false} ReportedDelta(entries: seq<Entry>, observations: seq<Observation>, key: Key)
    requires Reportable(entries, observations, key)
    ensures exists d :: d in CompareBaseline(entries, observations) && d.key == key
  {
    var keys := ObservedKeys(observations);
    CurrentIs(observations, key);
    StoredIs(entries, key);
    hide CurrentDeltas, RemovedDeltas, Current, Stored, ObservedKeys;
    var o := Current(observations, key);
    if o.Some? {
      var d := CurrentDelta(o.value, Stored(entries, key)).value;
      var i :| 0 <= i < |observations| && observations[i] == o.value;
      assert key in keys && d in KeyDeltas(key, entries, observations);
      CurrentDeltaMembers(keys, entries, observations, d);
      assert d in CompareBaseline(entries, observations);
    } else {
      var e := Stored(entries, key).value;
      var d := RemovedDelta(e);
      assert e in entries && d in EntryDeltas(e, observations);
      RemovedDeltaMembers(entries, observations, d);
      assert d in CompareBaseline(entries, observations);
    }
  }

  // ----- recording what is observed -----

  lemma {:induction false} EntriesMembers(observations: seq<Observation>)
    ensures forall e ::
              e in Entries(observations) <==> exists o :: o in observations && Oversized(o) && e == Recorded(o)
  {
    if observations != [] {
      EntriesMembers(observations[1..]);
      assert forall o :: o in observations <==> o == observations[0] || o in observations[1..];
    }
  }

  /** A baseline holds exactly the records of the oversized observations. */
  lemma {:induction false} CreatedMembers(observations: seq<Observation>, commitValid: bool)
    requires CreateBaseline(observations, commitValid).Ok?
    ensures var b := CreateBaseline(observations, commitValid).value;
            && DistinctKeys(b)
            && forall e :: e in b <==> exists o :: o in observations && Oversized(o) && e == Recorded(o)
  {
    EntriesMembers(Sort(observations, ObservationLe));
    forall o ensures o in Sort(observations, ObservationLe) <==> o in observations {
      SortMembers(observations, ObservationLe, o);
    }
  }

  /** The entries of a baseline come out in key order, so the order its document requires always holds. */
  lemma {:induction false} CreatedSorted(observations: seq<Observation>)
    ensures Sorted(Entries(Sort(observations, ObservationLe)), EntryLe)
  {
    KeyOrder();
    hide KeyLe;
    assert TotalPreorder(ObservationLe);
    SortSorts(observations, ObservationLe);
    EntriesSorted(Sort(observations, ObservationLe));
  }

  predicate EntryLe(a: Entry, b: Entry) {
    KeyLe(a.key, b.key)
  }

  lemma {:induction false} EntriesSorted(observations: seq<Observation>)
    requires Sorted(observations, ObservationLe)
    ensures Sorted(Entries(observations), EntryLe)
  {
    hide KeyLe;
    if observations != [] {
      var rest := observations[1..];
      assert Sorted(rest, ObservationLe);
      EntriesSorted(rest);
      EntriesMembers(rest);
      forall e | e in Entries(rest) ensures KeyLe(observations[0].key, e.key) {
        var o :| o in rest && Oversized(o) && e == Recorded(o);
        var i :| 0 <= i < |rest| && rest[i] == o;
        assert ObservationLe(observations[0], observations[i + 1]);
      }
    }
  }

  lemma {:induction false} NoCurrentDeltas(keys: seq<Key>, entries: seq<Entry>, observations: seq<Observation>)
    requires forall key :: Current(observations, key).Some? ==>
               CurrentDelta(Current(observations, key).value, Stored(entries, key)) == None
    ensures CurrentDeltas(keys, entries, observations) == []
  {
    if keys != [] {
      NoCurrentDeltas(keys[1..], entries, observations);
    }
  }

  lemma {:induction false} NoRemovedDeltas(entries: seq<Entry>, observations: seq<Observation>)
    requires forall e :: e in entries ==> Current(observations, e.key).Some?
    ensures RemovedDeltas(entries, observations) == []
  {
    if entries != [] {
      NoRemovedDeltas(entries[1..], observations);
    }
  }
}
