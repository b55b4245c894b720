/**
 What stripping managed commands leaves of third-party entries: every surviving entry keeps all of its
 fields but `hooks`, at every depth, and so do the entries around it.
 */
module ClaudeFields {
  import opened Wrappers
  import opened ClaudeHooks

  // ----- what survives -----

  /** The entry runs a managed command itself. */
  predicate RunsManaged(entry: Json, managed: Commands) {
    && entry.Object? && "command" in entry.fields && entry.fields["command"].Text?
    && managed(entry.fields["command"].value)
  }

  predicate HasHooks(entry: Json) {
    entry.Object? && "hooks" in entry.fields && entry.fields["hooks"].Array?
  }

  /** The entries nested under `hooks`. */
  function Nested(entry: Json): seq<Json> {
    if HasHooks(entry) then entry.fields["hooks"].items else []
  }

  /**
   An entry survives if it is no null, runs no managed command itself, and either holds no managed
   command below or has a nested entry that survives.
   */
  ghost predicate Survives(entry: Json, managed: Commands) {
    && entry != Null && !RunsManaged(entry, managed)
    && (HasHooks(entry) && HasManaged(entry, managed) ==>
          exists i :: 0 <= i < |entry.fields["hooks"].items| && Survives(entry.fields["hooks"].items[i], managed))
  }

  ghost predicate AnySurvives(entries: seq<Json>, managed: Commands) {
    exists i :: 0 <= i < |entries| && Survives(entries[i], managed)
  }

  lemma {:induction false} FieldNames()
    ensures COMMAND == "command" && HOOKS == "hooks" && "command" != "hooks"
  {
    assert |"command"| != |"hooks"|;
  }

  /** The three ways stripping an entry ends. */
  lemma {:induction false} StripCases(entry: Json, managed: Commands)
    ensures RunsManaged(entry, managed) ==> StripEntry(entry, managed) == (Null, true)
    ensures !RunsManaged(entry, managed) && !HasManaged(entry, managed) ==> StripEntry(entry, managed) == (entry, false)
    ensures !RunsManaged(entry, managed) && HasManaged(entry, managed) ==>
              var cleaned := CleanAll(Nested(entry), managed).0;
              && HasHooks(entry)
              && StripEntry(entry, managed).0 ==
                 if cleaned == [] then Null else Object(entry.fields["hooks" := Array(cleaned)])
  {
    StripRemovesManaged(entry, managed);
    FieldNames();
    hide CleanAll;
  }

  /** An entry vanishes exactly when it does not survive: a mixed one survives with some nested entry. */
  lemma {:induction false} SurvivesIff(entry: Json, managed: Commands)
    ensures StripEntry(entry, managed).0 != Null <==> Survives(entry, managed)
    decreases entry, 1
  {
    StripCases(entry, managed);
    if HasHooks(entry) {
      AnySurvivesIff(entry.fields["hooks"].items, managed);
    }
    hide StripEntry, CleanAll, HasManaged, RunsManaged;
  }

  lemma {:induction false} AnySurvivesIff(entries: seq<Json>, managed: Commands)
    ensures CleanAll(entries, managed).0 != [] <==> AnySurvives(entries, managed)
    decreases entries, 0
  {
    if entries != [] {
      SurvivesIff(entries[0], managed);
      AnySurvivesIff(entries[1..], managed);
      hide StripEntry, Survives;
      assert forall i :: 0 < i < |entries| ==> entries[i] == entries[1..][i - 1];
      if AnySurvives(entries[1..], managed) {
        var i :| 0 <= i < |entries[1..]| && Survives(entries[1..][i], managed);
        assert Survives(entries[i + 1], managed);
      }
    }
  }

  // ----- what is left of an entry -----

  /** The same entry but for its `hooks`: an object with the same other fields, or the very same value. */
  predicate SameButHooks(was: Json, now: Json) {
    if was.Object? then
      && now.Object? && now.fields.Keys == was.fields.Keys
      && forall field :: field in was.fields && field != "hooks" ==> now.fields[field] == was.fields[field]
    else now == was
  }

  /**
   `now` is what is left of `was`: the entry itself if it holds no managed command, and otherwise the
   same entry with exactly what is left of its nested entries.
   */
  ghost predicate LeftOf(was: Json, now: Json, managed: Commands)
    decreases was, 1
  {
    if !HasManaged(was, managed) then now == was
    else
      && HasHooks(was) && HasHooks(now) && SameButHooks(was, now)
      && AllLeft(was.fields["hooks"].items, now.fields["hooks"].items, managed)
  }

  /** `now` lists what is left of the surviving entries of `was`, in order, and nothing else. */
  ghost predicate AllLeft(was: seq<Json>, now: seq<Json>, managed: Commands)
    decreases was, 0
  {
    if was == [] then now == []
    else if Survives(was[0], managed) then
      now != [] && LeftOf(was[0], now[0], managed) && AllLeft(was[1..], now[1..], managed)
    else AllLeft(was[1..], now, managed)
  }

  /** A surviving entry keeps its own fields, and so does every surviving entry nested in it. */
  lemma {:induction false} StripLeaves(entry: Json, managed: Commands)
    requires Survives(entry, managed)
    ensures LeftOf(entry, StripEntry(entry, managed).0, managed) && SameButHooks(entry, StripEntry(entry, managed).0)
    decreases entry, 1
  {
    StripCases(entry, managed);
    if HasManaged(entry, managed) {
      SurvivesIff(entry, managed);
      CleanLeaves(entry.fields["hooks"].items, managed);
      hide StripEntry, CleanAll, HasManaged, Survives, AllLeft;
      var cleaned := CleanAll(Nested(entry), managed).0;
      assert StripEntry(entry, managed).0 == Object(entry.fields["hooks" := Array(cleaned)]);
    }
  }

  /** Cleaning a list leaves exactly what is left of its surviving entries. */
  lemma {:induction false} CleanLeaves(entries: seq<Json>, managed: Commands)
    ensures AllLeft(entries, CleanAll(entries, managed).0, managed)
    decreases entries, 0
  {
    if entries != [] {
      SurvivesIff(entries[0], managed);
      CleanLeaves(entries[1..], managed);
      if Survives(entries[0], managed) {
        StripLeaves(entries[0], managed);
      }
      hide StripEntry, Survives, LeftOf;
      var (first, rest) := (StripEntry(entries[0], managed).0, CleanAll(entries[1..], managed).0);
      assert CleanAll(entries, managed).0 == (if first.Null? then [] else [first]) + rest;
      assert ([first] + rest)[1..] == rest && [] + rest == rest;
    }
  }

  // ----- the entries around a third-party command -----

  /** A chain of entries, each nested under the `hooks` of the one before it, the first one in the list. */
  ghost predicate Along(entries: seq<Json>, chain: seq<Json>)
    decreases |chain|
  {
    chain == [] || (chain[0] in entries && Along(Nested(chain[0]), chain[1..]))
  }

  /** The chain as it is found after cleaning: entry by entry the same but for `hooks`. */
  ghost predicate SameChain(was: seq<Json>, now: seq<Json>) {
    |now| == |was| && forall i :: 0 <= i < |was| ==> SameButHooks(was[i], now[i])
  }

  lemma {:induction false} SameEntry(entry: Json)
    ensures SameButHooks(entry, entry)
  {
  }

  lemma {:induction false} InCleaned(entries: seq<Json>, entry: Json, managed: Commands)
    requires entry in entries && Survives(entry, managed)
    ensures StripEntry(entry, managed).0 in CleanAll(entries, managed).0
  {
    SurvivesIff(entry, managed);
    hide StripEntry, Survives;
    if entry != entries[0] {
      assert entry in entries[1..];
      InCleaned(entries[1..], entry, managed);
    }
  }

  lemma {:induction false} AroundSurvives(entry: Json, inner: Json, managed: Commands)
    requires !RunsManaged(entry, managed) && inner in Nested(entry) && Survives(inner, managed)
    ensures Survives(entry, managed)
  {
    hide HasManaged, RunsManaged;
    var i :| 0 <= i < |entry.fields["hooks"].items| && entry.fields["hooks"].items[i] == inner;
    assert Survives(entry.fields["hooks"].items[i], managed);
  }

  /** If the last entry of a chain survives and none on the way to it runs a managed command, all survive. */
  lemma {:induction false} ChainSurvives(entries: seq<Json>, chain: seq<Json>, managed: Commands)
    requires chain != [] && Along(entries, chain) && Survives(chain[|chain| - 1], managed)
    requires forall i :: 0 <= i < |chain| ==> !RunsManaged(chain[i], managed)
    ensures Survives(chain[0], managed)
  {
    hide Survives, RunsManaged;
    if |chain| > 1 {
      assert chain[1..][|chain| - 2] == chain[|chain| - 1];
      ChainSurvives(Nested(chain[0]), chain[1..], managed);
      AroundSurvives(chain[0], chain[1], managed);
    }
  }

  /** The entries nested in a rewritten entry are the cleaned ones. */
  lemma {:induction false} InnerCleaned(entry: Json, managed: Commands)
    requires HasManaged(entry, managed) && Survives(entry, managed)
    ensures Nested(StripEntry(entry, managed).0) == CleanAll(Nested(entry), managed).0
  {
    StripCases(entry, managed);
    SurvivesIff(entry, managed);
    NestedRewritten(entry, CleanAll(Nested(entry), managed).0);
    hide StripEntry, CleanAll, Survives, HasManaged;
  }

  lemma {:induction false} NestedRewritten(entry: Json, items: seq<Json>)
    requires entry.Object?
    ensures Nested(Object(entry.fields["hooks" := Array(items)])) == items
  {
  }

  lemma {:induction false} UnmanagedChain(chain: seq<Json>, managed: Commands)
    requires chain != [] && Along([chain[0]], chain) && !HasManaged(chain[0], managed)
    ensures StripEntry(chain[0], managed).0 == chain[0] && SameChain(chain, chain)
    ensures StripEntry(chain[|chain| - 1], managed).0 == chain[|chain| - 1]
  {
    StripRemovesManaged(chain[0], managed);
    NothingManagedAlong(chain[0], chain, managed);
    hide StripEntry, HasManaged, SameButHooks;
    forall i | 0 <= i < |chain| ensures SameButHooks(chain[i], chain[i]) {
      SameEntry(chain[i]);
    }
  }

  lemma {:induction false} AlongInner(entries: seq<Json>, chain: seq<Json>)
    requires chain != [] && Along(entries, chain)
    ensures chain[0] in entries && Along([chain[0]], chain) && Along(Nested(chain[0]), chain[1..])
    ensures |chain| > 1 ==> chain[1..][|chain| - 2] == chain[|chain| - 1]
  {
  }

  /**
   A third-party entry is found again after cleaning, at the same depth, and every entry around it has
   kept all of its fields but `hooks`.
   */
  lemma {:induction false} ChainKept(entries: seq<Json>, chain: seq<Json>, managed: Commands) returns (kept: seq<Json>)
    requires chain != [] && Along(entries, chain) && Survives(chain[|chain| - 1], managed)
    requires forall i :: 0 <= i < |chain| ==> !RunsManaged(chain[i], managed)
    ensures Along(CleanAll(entries, managed).0, kept) && SameChain(chain, kept)
    ensures kept[|kept| - 1] == StripEntry(chain[|chain| - 1], managed).0
    decreases |chain|
  {
    hide StripEntry, CleanAll, Survives, RunsManaged, HasManaged, SameButHooks, LeftOf, Nested, Along;
    ChainSurvives(entries, chain, managed);
    AlongInner(entries, chain);
    InCleaned(entries, chain[0], managed);
    StripLeaves(chain[0], managed);
    var first := StripEntry(chain[0], managed).0;
    var rest: seq<Json> := [];
    AlongNothing(Nested(first));
    if !HasManaged(chain[0], managed) {
      rest := chain[1..];
      UnmanagedChain(chain, managed);
    } else if |chain| > 1 {
      rest := ChainKept(Nested(chain[0]), chain[1..], managed);
      InnerCleaned(chain[0], managed);
    }
    kept := [first] + rest;
    ChainGrows(CleanAll(entries, managed).0, chain, first, rest);
  }

  lemma {:induction false} AlongNothing(entries: seq<Json>)
    ensures Along(entries, [])
  {
  }

  lemma {:induction false} ChainGrows(cleaned: seq<Json>, chain: seq<Json>, first: Json, rest: seq<Json>)
    requires chain != [] && SameButHooks(chain[0], first) && first in cleaned
    requires SameChain(chain[1..], rest) && Along(Nested(first), rest)
    ensures SameChain(chain, [first] + rest) && Along(cleaned, [first] + rest)
  {
    hide SameButHooks, Nested;
    var kept := [first] + rest;
    assert kept[1..] == rest;
    forall i | 0 <= i < |chain| ensures SameButHooks(chain[i], kept[i]) {
      assert i > 0 ==> chain[i] == chain[1..][i - 1] && kept[i] == rest[i - 1];
    }
  }

  /** Below an entry without managed commands everything stays as it is. */
  lemma {:induction false} NothingManagedAlong(entry: Json, chain: seq<Json>, managed: Commands)
    requires chain != [] && chain[0] == entry && Along([entry], chain) && !HasManaged(entry, managed)
    ensures StripEntry(chain[|chain| - 1], managed).0 == chain[|chain| - 1]
    decreases |chain|
  {
    StripRemovesManaged(entry, managed);
    if |chain| > 1 {
      FieldNames();
      var i :| 0 <= i < |Nested(entry)| && Nested(entry)[i] == chain[1];
      assert !HasManaged(entry.fields["hooks"].items[i], managed);
      assert chain[1..][0] == chain[1] && Along([chain[1]], chain[1..]);
      assert chain[1..][|chain| - 2] == chain[|chain| - 1];
      NothingManagedAlong(chain[1], chain[1..], managed);
    }
  }

  lemma {:induction false} AlongMore(entries: seq<Json>, more: seq<Json>, chain: seq<Json>)
    requires Along(entries, chain) && forall e :: e in entries ==> e in more
    ensures Along(more, chain)
  {
  }

  // ----- settings -----

  /**
   Merging an event puts the managed entries between what is left of the surviving entries in front of
   the first one with a managed command and what is left of the others; at the end if there is none.
   */
  lemma {:induction false} MergeLeaves(current: Json, entries: Json, managed: Commands)
    returns (k: nat, front: seq<Json>, back: seq<Json>)
    requires current.Array?
    ensures k <= |current.items| && NoneManaged(current.items[..k], managed)
    ensures k < |current.items| ==> HasManaged(current.items[k], managed)
    ensures AllLeft(current.items[..k], front, managed) && AllLeft(current.items[k..], back, managed)
    ensures MergeEvent(current, entries, managed) == front + (if entries.Array? then entries.items else []) + back
  {
    var items := current.items;
    CleanRemovesManaged(items, managed);
    hide CleanAll, InsertionIndex, AllLeft, HasManaged;
    k := |items|;
    if CleanAll(items, managed).1 {
      k := InsertionPlace(items, managed);
    } else {
      assert items[..k] == items && InsertionIndex(items, managed) == None;
      NothingCleaned(managed);
      assert items[k..] == [];
    }
    front, back := CleanAll(items[..k], managed).0, CleanAll(items[k..], managed).0;
    assert items == items[..k] + items[k..];
    CleanAppend(items[..k], items[k..], managed);
    CleanLeaves(items[..k], managed);
    CleanLeaves(items[k..], managed);
    assert (front + back)[..|front|] == front && (front + back)[|front|..] == back;
  }

  lemma {:induction false} NothingCleaned(managed: Commands)
    ensures CleanAll([], managed) == ([], false)
  {
  }

  /** An event that is no array is replaced by the managed entries. */
  lemma {:induction false} OtherEventReplaced(current: Json, entries: Json, managed: Commands)
    requires !current.Array?
    ensures MergeEvent(current, entries, managed) == if entries.Array? then entries.items else []
  {
  }

  /** What installing does to the settings: the other keys, the other events, and each managed event. */
  lemma {:induction false} InstallKeeps(current: Json, content: Json, managed: Commands)
    requires MergeSettings(current, content, managed).Ok?
    ensures content.Object? && "hooks" in content.fields && content.fields["hooks"].Object?
    ensures var was: Fields := if current.Object? then current.fields else map[];
            var hooks: Fields := if "hooks" in was && was["hooks"].Object? then was["hooks"].fields else map[];
            var additions := content.fields["hooks"].fields;
            var now := MergeSettings(current, content, managed).value;
            && now.Keys == was.Keys + {"hooks"} && now["hooks"].Object?
            && (forall key :: key in was && key != "hooks" ==> now[key] == was[key])
            && now["hooks"].fields.Keys == hooks.Keys + additions.Keys
            && (forall event :: event in hooks && event !in additions ==> now["hooks"].fields[event] == hooks[event])
            && (forall event :: event in additions ==> now["hooks"].fields[event].Array?)
            && (forall event :: event in additions && !(event in hooks && hooks[event].Array?) ==>
                  now["hooks"].fields[event].items == if additions[event].Array? then additions[event].items else [])
            && (forall event :: event in additions && event in hooks && hooks[event].Array? ==>
                  now["hooks"].fields[event].items == MergeEvent(hooks[event], additions[event], managed))
  {
    FieldNames();
    hide CleanAll, InsertionIndex;
  }

  /** Installing fails exactly on managed settings that hold no hooks object. */
  lemma {:induction false} InstallFailsIff(current: Json, content: Json, managed: Commands)
    ensures MergeSettings(current, content, managed).Err?
            <==> !(content.Object? && "hooks" in content.fields && content.fields["hooks"].Object?)
  {
    FieldNames();
    hide MergeHooks;
  }

  /** What uninstalling does to the settings, and that it fails exactly on settings that are no object. */
  lemma {:induction false} UninstallKeeps(existing: Json, managed: Commands)
    ensures RemoveSettings(existing, managed).Err? <==> !existing.Object?
    ensures existing.Object? ==>
              var was, now := existing.fields, RemoveSettings(existing, managed).value;
              && (forall key :: key in now && key != "hooks" ==> key in was && now[key] == was[key])
              && (forall key :: key in was && key != "hooks" ==> key in now)
              && ("hooks" in now ==> "hooks" in was)
              && ("hooks" in was && !was["hooks"].Object? ==> now == was)
              && ("hooks" in was && was["hooks"].Object? && "hooks" !in now ==>
                    RemoveHooks(was["hooks"].fields, managed) == map[])
              && ("hooks" in was && was["hooks"].Object? && "hooks" in now ==>
                    now["hooks"] == Object(RemoveHooks(was["hooks"].fields, managed)))
  {
    FieldNames();
    if existing.Object? && Get(existing.fields, HOOKS).Object? {
      UntouchedStays(existing.fields["hooks"].fields, managed);
    }
    hide RemoveHooks, AnyTouched;
  }

  /** What removal leaves of one event: it goes when a command was removed and nothing survives. */
  lemma {:induction false} RemoveLeaves(hooks: Fields, event: string, managed: Commands)
    requires event in hooks
    ensures !(hooks[event].Array? && !NoneManaged(hooks[event].items, managed)) ==>
              event in RemoveHooks(hooks, managed) && RemoveHooks(hooks, managed)[event] == hooks[event]
    ensures hooks[event].Array? && !NoneManaged(hooks[event].items, managed) ==>
              && (event in RemoveHooks(hooks, managed) <==> AnySurvives(hooks[event].items, managed))
              && (event in RemoveHooks(hooks, managed) ==>
                    RemoveHooks(hooks, managed)[event].Array?
                    && AllLeft(hooks[event].items, RemoveHooks(hooks, managed)[event].items, managed))
    ensures RemoveHooks(hooks, managed).Keys <= hooks.Keys
  {
    if hooks[event].Array? {
      CleanRemovesManaged(hooks[event].items, managed);
      CleanLeaves(hooks[event].items, managed);
      AnySurvivesIff(hooks[event].items, managed);
    }
    hide CleanAll, NoneManaged, AnySurvives, AllLeft;
  }

  /** Uninstalling drops the hooks object exactly when every event in it is left empty, and there is one. */
  lemma {:induction false} HooksVanishIff(payload: Fields, managed: Commands)
    requires "hooks" in payload && payload["hooks"].Object?
    ensures RemoveSettings(Object(payload), managed).Ok?
    ensures var hooks := payload["hooks"].fields;
            "hooks" !in RemoveSettings(Object(payload), managed).value <==>
            && hooks != map[]
            && forall event :: event in hooks ==>
                 hooks[event].Array? && !NoneManaged(hooks[event].items, managed)
                 && !AnySurvives(hooks[event].items, managed)
  {
    FieldNames();
    var hooks := payload["hooks"].fields;
    forall event | event in hooks
      ensures event !in RemoveHooks(hooks, managed) <==>
              && hooks[event].Array? && !NoneManaged(hooks[event].items, managed)
              && !AnySurvives(hooks[event].items, managed)
      ensures Touched(hooks[event], managed) <==> hooks[event].Array? && !NoneManaged(hooks[event].items, managed)
      ensures RemoveHooks(hooks, managed).Keys <= hooks.Keys
    {
      RemoveLeaves(hooks, event, managed);
      if hooks[event].Array? {
        CleanRemovesManaged(hooks[event].items, managed);
      }
    }
    hide RemoveHooks, NoneManaged, AnySurvives, CleanAll, Touched;
    if hooks != map[] {
      var event :| event in hooks;
      assert RemoveHooks(hooks, managed) == map[] <==> RemoveHooks(hooks, managed).Keys == {};
    }
  }

  /** A third-party command under some event. */
  ghost predicate ThirdParty(hooks: Fields, event: string, chain: seq<Json>, managed: Commands) {
    && event in hooks && hooks[event].Array? && chain != [] && Along(hooks[event].items, chain)
    && Survives(chain[|chain| - 1], managed)
    && forall i :: 0 <= i < |chain| ==> !RunsManaged(chain[i], managed)
  }

  /** Installing keeps every third-party command, and all fields of the entries around it. */
  lemma {:induction false} InstallKeepsThirdParty(
    payload: Fields, content: Json, event: string, chain: seq<Json>, managed: Commands)
    returns (kept: seq<Json>)
    requires MergeSettings(Object(payload), content, managed).Ok?
    requires "hooks" in payload && payload["hooks"].Object?
    requires ThirdParty(payload["hooks"].fields, event, chain, managed)
    ensures var now := MergeSettings(Object(payload), content, managed).value;
            && "hooks" in now && now["hooks"].Object? && event in now["hooks"].fields
            && now["hooks"].fields[event].Array? && Along(now["hooks"].fields[event].items, kept)
            && SameChain(chain, kept)
  {
    hide CleanAll, StripEntry, Survives, RunsManaged, MergeEvent, MergeSettings, SameButHooks, Along;
    var hooks := payload["hooks"].fields;
    InstallKeeps(Object(payload), content, managed);
    var additions := content.fields["hooks"].fields;
    if event in additions {
      kept := ChainKept(hooks[event].items, chain, managed);
      var front, back := MergeEventShape(hooks[event], additions[event], managed);
      AlongMore(CleanAll(hooks[event].items, managed).0, MergeEvent(hooks[event], additions[event], managed), kept);
    } else {
      kept := chain;
      forall i | 0 <= i < |chain| ensures SameButHooks(chain[i], chain[i]) {
        SameEntry(chain[i]);
      }
    }
  }

  /** Uninstalling keeps every third-party command, and all fields of the entries around it. */
  lemma {:induction false} UninstallKeepsThirdParty(
    payload: Fields, event: string, chain: seq<Json>, managed: Commands)
    returns (kept: seq<Json>)
    requires "hooks" in payload && payload["hooks"].Object?
    requires ThirdParty(payload["hooks"].fields, event, chain, managed)
    ensures RemoveSettings(Object(payload), managed).Ok?
    ensures var now := RemoveSettings(Object(payload), managed).value;
            && "hooks" in now && now["hooks"].Object? && event in now["hooks"].fields
            && now["hooks"].fields[event].Array? && Along(now["hooks"].fields[event].items, kept)
            && SameChain(chain, kept)
  {
    hide StripEntry, Survives, RunsManaged, RemoveSettings, SameButHooks, Along, CleanAll, NoneManaged;
    var hooks := payload["hooks"].fields;
    var items := hooks[event].items;
    UninstallKeeps(Object(payload), managed);
    CleanRemovesManaged(items, managed);
    AnySurvivesIff(items, managed);
    SomeChainSurvives(items, chain, managed);
    assert event in RemoveHooks(hooks, managed);
    if NoneManaged(items, managed) {
      kept := chain;
      forall i | 0 <= i < |chain| ensures SameButHooks(chain[i], chain[i]) {
        SameEntry(chain[i]);
      }
    } else {
      kept := ChainKept(items, chain, managed);
    }
  }

  lemma {:induction false} SomeChainSurvives(entries: seq<Json>, chain: seq<Json>, managed: Commands)
    requires chain != [] && Along(entries, chain) && Survives(chain[|chain| - 1], managed)
    requires forall i :: 0 <= i < |chain| ==> !RunsManaged(chain[i], managed)
    ensures AnySurvives(entries, managed)
  {
    ChainSurvives(entries, chain, managed);
    hide Survives;
    var i :| 0 <= i < |entries| && entries[i] == chain[0];
    assert Survives(entries[i], managed);
  }
}
