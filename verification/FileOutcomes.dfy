/**
 What a comparison, a recording and a prune answer, key by key, from the counts and the stored entries:
 which deltas there are and in which order, what is recorded, and when each of them is refused.
 */
module FileOutcomes {
  import opened Wrappers
  import opened Ordering
  import opened FileBaseline

  // ----- the observation and the entry of a key -----

  /** The observation that counts for its key is the last one given. */
  ghost predicate LastSeen(observations: seq<Observation>, o: Observation) {
    exists i :: 0 <= i < |observations| && observations[i] == o
                && forall j :: i < j < |observations| ==> observations[j].key != o.key
  }

  predicate Seen(observations: seq<Observation>, key: Key) {
    exists o :: o in observations && o.key == key
  }

  /** What is stored for a key, the last entry if there are several. */
  ghost predicate StoredAs(entries: seq<Entry>, key: Key, stored: Option<Entry>) {
    match stored
    case None => forall e :: e in entries ==> e.key != key
    case Some(e) =>
      && e.key == key
      && exists i :: 0 <= i < |entries| && entries[i] == e
                     && forall j :: i < j < |entries| ==> entries[j].key != key
  }

  lemma {:induction false} CurrentIsLast(observations: seq<Observation>, o: Observation)
    ensures Current(observations, o.key) == Some(o) <==> LastSeen(observations, o)
  {
    if observations != [] {
      var n := |observations| - 1;
      var init, last := observations[..n], observations[n];
      CurrentIsLast(init, o);
      if last.key != o.key {
        if i :| 0 <= i < |init| && init[i] == o && forall j :: i < j < |init| ==> init[j].key != o.key {
          assert observations[i] == o && forall j :: i < j < |observations| ==> observations[j].key != o.key;
        }
        if i :| 0 <= i < |observations| && observations[i] == o
                && forall j :: i < j < |observations| ==> observations[j].key != o.key {
          assert init[i] == o && forall j :: i < j < |init| ==> init[j] == observations[j];
        }
      } else {
        assert LastSeen(observations, last);
      }
    }
  }

  lemma {:induction false} StoredIsLast(entries: seq<Entry>, key: Key, stored: Option<Entry>)
    ensures Stored(entries, key) == stored <==> StoredAs(entries, key, stored)
  {
    if entries != [] {
      var n := |entries| - 1;
      var init, last := entries[..n], entries[n];
      assert entries == init + [last];
      StoredIsLast(init, key, stored);
      if last.key == key {
        assert StoredAs(entries, key, Some(last));
      } else if stored.Some? {
        var e := stored.value;
        if i :| 0 <= i < |init| && init[i] == e && forall j :: i < j < |init| ==> init[j].key != key {
          assert entries[i] == e && forall j :: i < j < |entries| ==> entries[j].key != key;
        }
        if i :| 0 <= i < |entries| && entries[i] == e && forall j :: i < j < |entries| ==> entries[j].key != key {
          assert e.key == key ==> init[i] == e && forall j :: i < j < |init| ==> init[j] == entries[j];
        }
      }
    }
  }

  // ----- the deltas -----

  /** The ceiling in force is the default or, if that is larger, what is stored. */
  predicate InForce(ceiling: nat, ordinary: nat, stored: Option<nat>) {
    && ordinary <= ceiling && (stored.Some? ==> stored.value <= ceiling)
    && (ceiling == ordinary || stored == Some(ceiling))
  }

  function PhysicalOf(stored: Option<Entry>): Option<nat> {
    if stored.Some? then Some(stored.value.physical) else None
  }

  function NonblankOf(stored: Option<Entry>): Option<nat> {
    if stored.Some? then Some(stored.value.nonblank) else None
  }

  /** A count in an active dimension is above the default and above what is stored. */
  predicate Above(count: nat, ordinary: nat, stored: Option<nat>) {
    ordinary > 0 && count > ordinary && (stored.Some? ==> count > stored.value)
  }

  /** A count in an active dimension is below what is stored. */
  predicate Less(count: nat, ordinary: nat, stored: Option<nat>) {
    ordinary > 0 && stored.Some? && count < stored.value
  }

  predicate Regresses(o: Observation, stored: Option<Entry>) {
    || Above(o.physical, o.defaultPhysical, PhysicalOf(stored))
    || Above(o.nonblank, o.defaultNonblank, NonblankOf(stored))
  }

  predicate Improves(o: Observation, stored: Option<Entry>) {
    || Less(o.physical, o.defaultPhysical, PhysicalOf(stored))
    || Less(o.nonblank, o.defaultNonblank, NonblankOf(stored))
  }

  /** The delta shows the counts, the ceilings in force, and what became of them. */
  predicate Describes(d: Delta, o: Observation, stored: Option<Entry>) {
    && d.key == o.key && d.physical == o.physical && d.nonblank == o.nonblank
    && InForce(d.physicalCeiling, o.defaultPhysical, PhysicalOf(stored))
    && InForce(d.nonblankCeiling, o.defaultNonblank, NonblankOf(stored))
    && (d.physicalRegression <==> Above(o.physical, o.defaultPhysical, PhysicalOf(stored)))
    && (d.nonblankRegression <==> Above(o.nonblank, o.defaultNonblank, NonblankOf(stored)))
    && (d.improved <==> !Regresses(o, stored)) && !d.removed && (d.newPath <==> stored.None?)
  }

  lemma {:induction false} CurrentDeltaIs(o: Observation, stored: Option<Entry>, d: Delta)
    ensures PhysicalRegression(o, stored) || NonblankRegression(o, stored) <==> Regresses(o, stored)
    ensures CurrentDelta(o, stored) == Some(d)
      <==> (Regresses(o, stored) || Improves(o, stored)) && Describes(d, o, stored)
  {
  }

  /** The delta of an observed key: there is one exactly when its counts regress or improve, and it says how. */
  lemma {:induction false} ObservedDeltaIff(
    entries: seq<Entry>, observations: seq<Observation>, o: Observation, stored: Option<Entry>, d: Delta)
    requires LastSeen(observations, o) && StoredAs(entries, o.key, stored) && d.key == o.key
    ensures d in CompareBaseline(entries, observations)
      <==> (Regresses(o, stored) || Improves(o, stored)) && Describes(d, o, stored)
  {
    var keys := ObservedKeys(observations);
    CurrentIsLast(observations, o);
    StoredIsLast(entries, o.key, stored);
    CurrentDeltaIs(o, stored, d);
    CurrentDeltaMembers(keys, entries, observations, d);
    RemovedDeltaMembers(entries, observations, d);
    CurrentIs(observations, o.key);
    var i :| 0 <= i < |observations| && observations[i] == o;
    assert o.key in keys;
    hide LastSeen, StoredAs, Current, Stored, CurrentDelta, Describes, Regresses, Improves, ObservedKeys;
    hide CurrentDeltas, RemovedDeltas;
    forall k | k in keys && d in KeyDeltas(k, entries, observations) ensures k == o.key {
      KeyDelta(k, entries, observations, d);
    }
    assert d in KeyDeltas(o.key, entries, observations) <==> CurrentDelta(o, stored) == Some(d);
    assert forall e :: e in entries ==> d !in EntryDeltas(e, observations);
  }

  /** A stored path that is no longer observed shows as removed, with its stored ceilings and no counts. */
  lemma {:induction false} UnseenDeltaIff(entries: seq<Entry>, observations: seq<Observation>, d: Delta)
    requires !Seen(observations, d.key)
    ensures d in CompareBaseline(entries, observations)
      <==> exists e :: e in entries && e.key == d.key
                       && d == Delta(e.key, 0, 0, e.physical, e.nonblank, false, false, true, true, false)
  {
    var keys := ObservedKeys(observations);
    CurrentIs(observations, d.key);
    CurrentDeltaMembers(keys, entries, observations, d);
    RemovedDeltaMembers(entries, observations, d);
    assert Current(observations, d.key).None?;
    hide Current, Stored, CurrentDelta, ObservedKeys, CurrentDeltas, RemovedDeltas, Seen;
    forall k | k in keys ensures d !in KeyDeltas(k, entries, observations) {
      if d in KeyDeltas(k, entries, observations) {
        KeyDelta(k, entries, observations, d);
      }
    }
    forall e | e in entries && e.key == d.key ensures EntryDeltas(e, observations) == [RemovedDelta(e)] {
    }
  }

  // ----- the order of the deltas -----

  /** Groups decide before paths. */
  ghost predicate KeyPrecedes(a: Key, b: Key) {
    Precedes(a.group, b.group) || (a.group == b.group && Precedes(a.path, b.path))
  }

  lemma {:induction false} KeyLeIff(a: Key, b: Key)
    ensures KeyLe(a, b) <==> a == b || KeyPrecedes(a, b)
  {
    TextLeIff(a.group, b.group);
    TextLeIff(a.path, b.path);
    NotBefore(a.group);
    hide TextLe, Precedes;
  }

  lemma {:induction false} NotBefore(s: string)
    ensures !Precedes(s, s)
  {
  }

  ghost predicate Ascending(keys: seq<Key>) {
    forall i, j :: 0 <= i < j < |keys| ==> KeyPrecedes(keys[i], keys[j])
  }

  function KeysOf(deltas: seq<Delta>): (keys: seq<Key>)
    ensures |keys| == |deltas| && forall i :: 0 <= i < |deltas| ==> keys[i] == deltas[i].key
  {
    seq(|deltas|, i requires 0 <= i < |deltas| => deltas[i].key)
  }

  lemma {:induction false} AscendingOnce(keys: seq<Key>)
    requires Sorted(keys, KeyLe)
    ensures Ascending(Distinct(keys))
  {
    hide KeyLe, KeyPrecedes;
    if |keys| > 1 {
      AscendingOnce(keys[1..]);
      DistinctMembers(keys[1..]);
      var rest := Distinct(keys[1..]);
      if keys[0] != keys[1] {
        forall i | 0 <= i < |rest| ensures KeyPrecedes(keys[0], rest[i]) {
          assert rest[i] in keys[1..];
          var j :| 0 < j < |keys| && keys[j] == rest[i];
          KeyLeIff(keys[0], keys[j]);
          KeyOrder();
          assert KeyLe(keys[0], keys[1]) && KeyLe(keys[1], keys[j]);
        }
      }
    }
  }

  lemma {:induction false} ObservedAscend(keys: seq<Key>, entries: seq<Entry>, observations: seq<Observation>)
    requires Ascending(keys)
    ensures var deltas := CurrentDeltas(keys, entries, observations);
            Ascending(KeysOf(deltas)) && forall i :: 0 <= i < |deltas| ==> deltas[i].key in keys && !deltas[i].removed
  {
    hide KeyPrecedes, CurrentDelta, Current, Stored;
    if keys != [] {
      ObservedAscend(keys[1..], entries, observations);
      var first, rest := KeyDeltas(keys[0], entries, observations), CurrentDeltas(keys[1..], entries, observations);
      if first != [] {
        KeyDelta(keys[0], entries, observations, first[0]);
        NotRemoved(Current(observations, keys[0]).value, Stored(entries, keys[0]), first[0]);
      }
    }
  }

  lemma {:induction false} NotRemoved(o: Observation, stored: Option<Entry>, d: Delta)
    requires CurrentDelta(o, stored) == Some(d)
    ensures !d.removed
  {
  }

  predicate EntriesAscend(entries: seq<Entry>) {
    Sorted(entries, EntryLe) && DistinctKeys(entries)
  }

  lemma {:induction false} UnseenAscend(entries: seq<Entry>, observations: seq<Observation>)
    requires EntriesAscend(entries)
    ensures var deltas := RemovedDeltas(entries, observations);
            && Ascending(KeysOf(deltas))
            && forall i :: 0 <= i < |deltas| ==> deltas[i].removed && exists e :: e in entries && deltas[i].key == e.key
  {
    hide KeyLe, KeyPrecedes, Current;
    if entries != [] {
      UnseenAscend(entries[1..], observations);
      var first, rest := EntryDeltas(entries[0], observations), RemovedDeltas(entries[1..], observations);
      forall i | 0 <= i < |rest| ensures KeyPrecedes(entries[0].key, rest[i].key) {
        var e :| e in entries[1..] && rest[i].key == e.key;
        var j :| 0 < j < |entries| && entries[j] == e;
        assert EntryLe(entries[0], entries[j]);
        KeyLeIff(entries[0].key, entries[j].key);
      }
    }
  }

  /** The observed paths come first, in key order, then the removed ones, in key order; each key comes once. */
  lemma {:induction false} DeltasInOrder(entries: seq<Entry>, observations: seq<Observation>) returns (n: nat)
    requires EntriesAscend(entries)
    ensures var deltas := CompareBaseline(entries, observations);
            && n <= |deltas| && Ascending(KeysOf(deltas[..n])) && Ascending(KeysOf(deltas[n..]))
            && (forall i :: 0 <= i < |deltas| ==> (deltas[i].removed <==> n <= i))
  {
    var keys := ObservedKeys(observations);
    KeysAscend(observations);
    ObservedAscend(keys, entries, observations);
    UnseenAscend(entries, observations);
    hide Ascending, KeysOf, CurrentDeltas, RemovedDeltas, ObservedKeys;
    var first, last := CurrentDeltas(keys, entries, observations), RemovedDeltas(entries, observations);
    n := |first|;
    assert (first + last)[..n] == first && (first + last)[n..] == last;
  }

  lemma {:induction false} KeysAscend(observations: seq<Observation>)
    ensures Ascending(ObservedKeys(observations))
  {
    hide KeyLe, Distinct;
    KeyOrder();
    var all := seq(|observations|, i requires 0 <= i < |observations| => observations[i].key);
    SortSorts(all, KeyLe);
    AscendingOnce(Sort(all, KeyLe));
  }

  // ----- recording -----

  /** A count is above the default of an active dimension. */
  predicate TooLarge(o: Observation) {
    || (o.defaultPhysical > 0 && o.physical > o.defaultPhysical)
    || (o.defaultNonblank > 0 && o.nonblank > o.defaultNonblank)
  }

  function LargePlaces(observations: seq<Observation>): set<nat> {
    set i: nat | i < |observations| && TooLarge(observations[i])
  }

  /** Two of the observations that are too large share their key. */
  predicate KeyRepeats(observations: seq<Observation>) {
    exists i, j :: 0 <= i < j < |observations| && observations[i].key == observations[j].key
                   && TooLarge(observations[i]) && TooLarge(observations[j])
  }

  /** The entry holds the counts of the active dimensions, and zero in the others. */
  predicate Records(e: Entry, o: Observation) {
    && e.key == o.key
    && (o.defaultPhysical > 0 ==> e.physical == o.physical) && (o.defaultPhysical == 0 ==> e.physical == 0)
    && (o.defaultNonblank > 0 ==> e.nonblank == o.nonblank) && (o.defaultNonblank == 0 ==> e.nonblank == 0)
  }

  lemma {:induction false} RecordedIs(o: Observation)
    ensures Oversized(o) <==> TooLarge(o)
    ensures forall e :: e == Recorded(o) <==> Records(e, o)
  {
  }

  lemma {:induction false} EntriesAppend(a: seq<Observation>, b: seq<Observation>)
    ensures Entries(a + b) == Entries(a) + Entries(b)
  {
    if a == [] {
      assert a + b == b;
    } else {
      hide *;
      var o, rest := a[0], a[1..];
      assert a == [o] + rest && a + b == [o] + (rest + b);
      EntriesAppend(rest, b);
      EntriesStep(o, rest);
      EntriesStep(o, rest + b);
    }
  }

  lemma {:induction false} EntriesStep(o: Observation, rest: seq<Observation>)
    ensures Entries([o] + rest) == (if Oversized(o) then [Recorded(o)] else []) + Entries(rest)
  {
    hide Oversized, Recorded;
    assert ([o] + rest)[1..] == rest;
  }

  lemma {:induction false} OneEntry(o: Observation)
    ensures Entries([o]) == if TooLarge(o) then [Recorded(o)] else []
  {
    RecordedIs(o);
    hide Recorded;
  }

  lemma {:induction false} EntriesCount(observations: seq<Observation>)
    ensures |Entries(observations)| == |LargePlaces(observations)|
  {
    if observations != [] {
      var n := |observations| - 1;
      var init, last := observations[..n], observations[n];
      assert observations == init + [last];
      EntriesCount(init);
      EntriesAppend(init, [last]);
      OneEntry(last);
      hide TooLarge, Entries;
      assert LargePlaces(observations) == LargePlaces(init) + (if TooLarge(last) then {n} else {});
    }
  }

  lemma {:induction false} CountOfSorted(observations: seq<Observation>)
    ensures |Entries(Sort(observations, ObservationLe))| == |Entries(observations)|
  {
    hide ObservationLe, Oversized, Recorded;
    if observations != [] {
      CountOfSorted(observations[1..]);
      CountOfInserted(observations[0], Sort(observations[1..], ObservationLe));
      EntriesAppend([observations[0]], observations[1..]);
      assert observations == [observations[0]] + observations[1..];
    }
  }

  lemma {:induction false} CountOfInserted(o: Observation, rest: seq<Observation>)
    ensures |Entries(Insert(o, rest, ObservationLe))| == |Entries([o])| + |Entries(rest)|
  {
    hide ObservationLe, Oversized, Recorded;
    if rest != [] && !ObservationLe(o, rest[0]) {
      CountOfInserted(o, rest[1..]);
      EntriesAppend([rest[0]], Insert(o, rest[1..], ObservationLe));
      EntriesAppend([rest[0]], rest[1..]);
      assert rest == [rest[0]] + rest[1..];
    } else {
      EntriesAppend([o], rest);
      assert [o] + [] == [o];
    }
  }

  predicate SharesKey(o: Observation, rest: seq<Observation>) {
    TooLarge(o) && exists x :: x in rest && x.key == o.key && TooLarge(x)
  }

  lemma {:induction false} RepeatsCons(o: Observation, rest: seq<Observation>)
    ensures KeyRepeats([o] + rest) <==> SharesKey(o, rest) || KeyRepeats(rest)
  {
    hide TooLarge;
    var all := [o] + rest;
    if KeyRepeats(all) {
      var i, j :| 0 <= i < j < |all| && all[i].key == all[j].key && TooLarge(all[i]) && TooLarge(all[j]);
      if i == 0 {
        assert rest[j - 1] in rest;
      } else {
        assert rest[i - 1] == all[i] && rest[j - 1] == all[j];
      }
    }
    if SharesKey(o, rest) {
      var x :| x in rest && x.key == o.key && TooLarge(x);
      var j :| 0 <= j < |rest| && rest[j] == x;
      assert all[0] == o && all[j + 1] == x;
    }
    if KeyRepeats(rest) {
      var i, j :| 0 <= i < j < |rest| && rest[i].key == rest[j].key && TooLarge(rest[i]) && TooLarge(rest[j]);
      assert all[i + 1] == rest[i] && all[j + 1] == rest[j];
    }
  }

  lemma {:induction false} RepeatsOfInserted(o: Observation, rest: seq<Observation>)
    ensures KeyRepeats(Insert(o, rest, ObservationLe)) <==> KeyRepeats([o] + rest)
  {
    hide ObservationLe, TooLarge, KeyRepeats;
    RepeatsCons(o, rest);
    if rest != [] && !ObservationLe(o, rest[0]) {
      var first, tail := rest[0], rest[1..];
      var inner := Insert(o, tail, ObservationLe);
      assert rest == [first] + tail;
      RepeatsOfInserted(o, tail);
      RepeatsCons(o, tail);
      RepeatsCons(first, tail);
      RepeatsCons(first, inner);
      forall x ensures x in inner <==> x == o || x in tail {
        assert x in inner <==> x in multiset(inner);
      }
    } else {
      assert [o] + [] == [o] && (rest == [] ==> [o] + rest == [o]);
    }
  }

  lemma {:induction false} RepeatsOfSorted(observations: seq<Observation>)
    ensures KeyRepeats(Sort(observations, ObservationLe)) <==> KeyRepeats(observations)
  {
    hide ObservationLe, TooLarge, KeyRepeats;
    if observations != [] {
      var o, rest := observations[0], observations[1..];
      var sorted := Sort(rest, ObservationLe);
      assert observations == [o] + rest;
      RepeatsOfSorted(rest);
      RepeatsOfInserted(o, sorted);
      RepeatsCons(o, sorted);
      RepeatsCons(o, rest);
      forall x ensures x in sorted <==> x in rest {
        SortMembers(rest, ObservationLe, x);
      }
    }
  }

  lemma {:induction false} DistinctCons(e: Entry, rest: seq<Entry>)
    ensures DistinctKeys([e] + rest) <==> DistinctKeys(rest) && forall x :: x in rest ==> x.key != e.key
  {
    var all := [e] + rest;
    assert forall i :: 0 <= i < |rest| ==> all[i + 1] == rest[i];
    if DistinctKeys(all) {
      forall x | x in rest ensures x.key != e.key {
        var i :| 0 <= i < |rest| && rest[i] == x;
        assert all[0].key != all[i + 1].key;
      }
    }
  }

  lemma {:induction false} DistinctIff(observations: seq<Observation>)
    ensures DistinctKeys(Entries(observations)) <==> !KeyRepeats(observations)
  {
    if observations != [] {
      var o, rest := observations[0], observations[1..];
      assert observations == [o] + rest;
      DistinctIff(rest);
      RepeatsCons(o, rest);
      EntriesAppend([o], rest);
      OneEntry(o);
      EntriesMembers(rest);
      forall x ensures Oversized(x) <==> TooLarge(x) {
        RecordedIs(x);
      }
      hide DistinctKeys, KeyRepeats, TooLarge, Oversized, Entries;
      if TooLarge(o) {
        DistinctCons(Recorded(o), Entries(rest));
        RecordedKeys(rest, o.key);
      } else {
        assert [] + Entries(rest) == Entries(rest);
      }
    }
  }

  lemma {:induction false} RecordedKeys(observations: seq<Observation>, key: Key)
    ensures (exists e :: e in Entries(observations) && e.key == key)
      <==> exists o :: o in observations && o.key == key && TooLarge(o)
  {
    EntriesMembers(observations);
    forall x ensures Oversized(x) <==> TooLarge(x) {
      RecordedIs(x);
    }
    hide TooLarge, Oversized, Entries;
    if o :| o in observations && o.key == key && TooLarge(o) {
      assert Recorded(o) in Entries(observations) && Recorded(o).key == key;
    }
  }

  /** When recording is refused, and with which error. */
  lemma {:induction false} CreateFailsIff(observations: seq<Observation>, commitValid: bool)
    ensures var b := CreateBaseline(observations, commitValid);
            && (b == Err(TooManyEntries) <==> |LargePlaces(observations)| > 20_000)
            && (b == Err(InvalidCommit) <==> |LargePlaces(observations)| <= 20_000 && !commitValid)
            && (b == Err(DuplicateEntries)
                <==> |LargePlaces(observations)| <= 20_000 && commitValid && KeyRepeats(observations))
            && (b.Ok? <==> |LargePlaces(observations)| <= 20_000 && commitValid && !KeyRepeats(observations))
  {
    EntriesCount(observations);
    CountOfSorted(observations);
    DistinctIff(Sort(observations, ObservationLe));
    RepeatsOfSorted(observations);
    hide Entries, Sort, DistinctKeys, KeyRepeats, LargePlaces;
  }

  /** What is recorded: one entry per observation that is too large, in key order, with its active counts. */
  lemma {:induction false} CreatedRecords(observations: seq<Observation>, commitValid: bool)
    requires CreateBaseline(observations, commitValid).Ok?
    ensures var b := CreateBaseline(observations, commitValid).value;
            && |b| == |LargePlaces(observations)| && EntriesAscend(b)
            && (forall i, j :: 0 <= i < j < |b| ==> KeyPrecedes(b[i].key, b[j].key))
            && (forall e :: e in b <==> exists o :: o in observations && TooLarge(o) && Records(e, o))
  {
    var b := CreateBaseline(observations, commitValid).value;
    EntriesCount(observations);
    CountOfSorted(observations);
    CreatedMembers(observations, commitValid);
    CreatedSorted(observations);
    hide Entries, Sort, LargePlaces, KeyLe, KeyPrecedes, CreateBaseline, Oversized, Recorded, TooLarge, Records;
    assert b == Entries(Sort(observations, ObservationLe)) by {
      CreatedEntries(observations, commitValid);
    }
    forall i, j | 0 <= i < j < |b| ensures KeyPrecedes(b[i].key, b[j].key) {
      assert EntryLe(b[i], b[j]);
      KeyLeIff(b[i].key, b[j].key);
    }
    forall e ensures e in b <==> exists o :: o in observations && TooLarge(o) && Records(e, o) {
      forall o ensures (Oversized(o) <==> TooLarge(o)) && (e == Recorded(o) <==> Records(e, o)) {
        RecordedIs(o);
      }
    }
  }

  lemma {:induction false} CreatedEntries(observations: seq<Observation>, commitValid: bool)
    requires CreateBaseline(observations, commitValid).Ok?
    ensures CreateBaseline(observations, commitValid).value == Entries(Sort(observations, ObservationLe))
  {
    hide Entries, Sort;
  }

  // ----- pruning -----

  ghost predicate SomeRegresses(entries: seq<Entry>, observations: seq<Observation>) {
    exists o, stored :: LastSeen(observations, o) && StoredAs(entries, o.key, stored) && Regresses(o, stored)
  }

  /** Pruning is refused exactly on a regression, and otherwise records afresh. */
  lemma {:induction false} PruneFailsIff(entries: seq<Entry>, observations: seq<Observation>, commitValid: bool)
    ensures Passed(CompareBaseline(entries, observations)) <==> !SomeRegresses(entries, observations)
    ensures SomeRegresses(entries, observations) ==>
              PruneBaseline(entries, observations, commitValid) == Err(Regressions)
    ensures !SomeRegresses(entries, observations) ==>
              PruneBaseline(entries, observations, commitValid) == CreateBaseline(observations, commitValid)
  {
    PassedIffAccepted(entries, observations);
    hide CreateBaseline, CompareBaseline, Passed, Current, Stored, LastSeen, StoredAs, Regresses;
    hide PhysicalRegression, NonblankRegression;
    if SomeRegresses(entries, observations) {
      var o, stored :| LastSeen(observations, o) && StoredAs(entries, o.key, stored) && Regresses(o, stored);
      CurrentIsLast(observations, o);
      StoredIsLast(entries, o.key, stored);
      RegressesIs(o, stored);
    }
    if !Accepted(entries, observations) {
      var key :| Current(observations, key).Some? &&
        var o := Current(observations, key).value;
        PhysicalRegression(o, Stored(entries, key)) || NonblankRegression(o, Stored(entries, key));
      var o, stored := Current(observations, key).value, Stored(entries, key);
      CurrentIs(observations, key);
      CurrentIsLast(observations, o);
      StoredIsLast(entries, key, stored);
      RegressesIs(o, stored);
      assert LastSeen(observations, o) && StoredAs(entries, o.key, stored) && Regresses(o, stored);
    }
  }

  lemma {:induction false} RegressesIs(o: Observation, stored: Option<Entry>)
    ensures PhysicalRegression(o, stored) || NonblankRegression(o, stored) <==> Regresses(o, stored)
  {
  }
}
