/**
 Merging managed hook entries into Claude settings and removing them again, on decoded JSON.

 `Null` is also the absent result of the source: a stripped entry is `Null` when it is gone,
 and a JSON null entry is dropped by the same test. Which commands are managed is a parameter.
 */
module ClaudeHooks {
  import opened Wrappers

  datatype Json =
    | Null
    | Scalar(text: string)
    | Text(value: string)
    | Array(items: seq<Json>)
    | Object(fields: map<string, Json>)

  type Commands = string -> bool

  const COMMAND := "command"
  const HOOKS := "hooks"

  function Get(fields: map<string, Json>, key: string): Json {
    if key in fields then fields[key] else Null
  }

  // ----- stripping one entry -----

  /** The entry without managed commands (`Null` if nothing is left) and whether any was removed. */
  function StripEntry(entry: Json, managed: Commands): (Json, bool)
    decreases entry, 1
  {
    if !entry.Object? then (entry, false)
    else if COMMAND in entry.fields && entry.fields[COMMAND].Text? &&
        managed(entry.fields[COMMAND].value) then (Null, true)
    else if HOOKS !in entry.fields || !entry.fields[HOOKS].Array? then (entry, false)
    else
      var (cleaned, removed) := CleanAll(entry.fields[HOOKS].items, managed);
      if !removed then (entry, false)
      else if cleaned == [] then (Null, true)
      else (Object(entry.fields[HOOKS := Array(cleaned)]), true)
  }

  /** Every entry stripped, the vanished ones left out, and whether any command was removed. */
  function CleanAll(entries: seq<Json>, managed: Commands): (seq<Json>, bool)
    decreases entries, 0
  {
    if entries == [] then ([], false)
    else
      var (first, removedFirst) := StripEntry(entries[0], managed);
      var (rest, removedRest) := CleanAll(entries[1..], managed);
      ((if first.Null? then [] else [first]) + rest, removedFirst || removedRest)
  }

  /** One more entry of a list being cleaned. */
  lemma {:induction false} CleanNext(entries: seq<Json>, managed: Commands, i: nat)
    requires i < |entries|
    ensures var (first, removed) := StripEntry(entries[i], managed);
            var (rest, removedRest) := CleanAll(entries[i + 1..], managed);
            CleanAll(entries[i..], managed) == ((if first.Null? then [] else [first]) + rest, removed || removedRest)
  {
  }

  lemma {:induction false} CleanStart(entries: seq<Json>, managed: Commands)
    ensures entries[0..] == entries && entries[|entries|..] == [] && CleanAll([], managed) == ([], false)
  {
  }

  /** The same two stages as the source writes them: recursion over objects, a loop over arrays. */
  method StripManagedEntry(entry: Json, managed: Commands) returns (cleaned: Json, removed: bool)
    ensures (cleaned, removed) == StripEntry(entry, managed)
    decreases entry, 1
  {
    if !entry.Object? {
      return entry, false;
    }
    if COMMAND in entry.fields && entry.fields[COMMAND].Text? && managed(entry.fields[COMMAND].value) {
      return Null, true;
    }
    if HOOKS !in entry.fields || !entry.fields[HOOKS].Array? {
      return entry, false;
    }
    var hooks;
    hooks, removed := CleanEntries(entry.fields[HOOKS].items, managed);
    if !removed {
      return entry, false;
    }
    if hooks == [] {
      return Null, true;
    }
    return Object(entry.fields[HOOKS := Array(hooks)]), true;
  }

  method CleanEntries(entries: seq<Json>, managed: Commands) returns (cleaned: seq<Json>, removed: bool)
    ensures (cleaned, removed) == CleanAll(entries, managed)
    decreases entries, 0
  {
    hide StripEntry, CleanAll;
    CleanStart(entries, managed);
    cleaned, removed := [], false;
    for i := 0 to |entries|
      invariant CleanAll(entries, managed).0 == cleaned + CleanAll(entries[i..], managed).0
      invariant CleanAll(entries, managed).1 == (removed || CleanAll(entries[i..], managed).1)
    {
      CleanNext(entries, managed, i);
      var entry, entryRemoved := StripManagedEntry(entries[i], managed);
      removed := removed || entryRemoved;
      if entry != Null {
        cleaned := cleaned + [entry];
      }
    }
    assert cleaned + CleanAll(entries[|entries|..], managed).0 == cleaned;
    assert CleanAll(entries, managed).0 == cleaned && CleanAll(entries, managed).1 == removed;
  }

  // ----- what stripping does -----

  /** A managed command sits in the entry itself or somewhere under its `hooks`. */
  ghost predicate HasManaged(entry: Json, managed: Commands) {
    entry.Object? &&
    ( || (COMMAND in entry.fields && entry.fields[COMMAND].Text? && managed(entry.fields[COMMAND].value))
      || (HOOKS in entry.fields && entry.fields[HOOKS].Array?
          && exists i :: 0 <= i < |entry.fields[HOOKS].items| && HasManaged(entry.fields[HOOKS].items[i], managed)))
  }

  ghost predicate NoneManaged(entries: seq<Json>, managed: Commands) {
    forall i :: 0 <= i < |entries| ==> !HasManaged(entries[i], managed)
  }

  predicate NullFree(entries: seq<Json>) {
    forall i :: 0 <= i < |entries| ==> entries[i] != Null
  }

  function NonNull(entries: seq<Json>): seq<Json> {
    if entries == [] then []
    else (if entries[0] == Null then [] else [entries[0]]) + NonNull(entries[1..])
  }

  /**
   Stripping reports a removal exactly when the entry holds a managed command at some depth,
   leaves no managed command behind, and leaves an entry without one alone.
   */
  lemma {:induction false} StripRemovesManaged(entry: Json, managed: Commands)
    ensures StripEntry(entry, managed).1 <==> HasManaged(entry, managed)
    ensures !HasManaged(StripEntry(entry, managed).0, managed)
    ensures !HasManaged(entry, managed) ==> StripEntry(entry, managed).0 == entry
    decreases entry, 1
  {
    if entry.Object? && HOOKS in entry.fields && entry.fields[HOOKS].Array? {
      var items := entry.fields[HOOKS].items;
      CleanRemovesManaged(items, managed);
      var rewritten := Object(entry.fields[HOOKS := Array(CleanAll(items, managed).0)]);
      assert COMMAND != HOOKS by { assert |COMMAND| != |HOOKS|; }
      hide CleanAll;
      assert rewritten.fields[HOOKS] == Array(CleanAll(items, managed).0);
      assert HasManaged(rewritten, managed) ==> HasManaged(entry, managed) && COMMAND in entry.fields;
    }
  }

  lemma {:induction false} CleanRemovesManaged(entries: seq<Json>, managed: Commands)
    ensures CleanAll(entries, managed).1 <==> !NoneManaged(entries, managed)
    ensures NoneManaged(CleanAll(entries, managed).0, managed) && NullFree(CleanAll(entries, managed).0)
    ensures NoneManaged(entries, managed) ==> CleanAll(entries, managed).0 == NonNull(entries)
    decreases entries, 0
  {
    if entries != [] {
      StripRemovesManaged(entries[0], managed);
      CleanRemovesManaged(entries[1..], managed);
      hide HasManaged, StripEntry;
      assert forall i :: 0 < i < |entries| ==> entries[i] == entries[1..][i - 1];
    }
  }

  lemma {:induction false} NullFreeIsNonNull(entries: seq<Json>)
    ensures NonNull(entries) == entries <==> NullFree(entries)
    ensures |NonNull(entries)| <= |entries| && NullFree(NonNull(entries))
  {
    if entries != [] {
      NullFreeIsNonNull(entries[1..]);
      assert entries == [entries[0]] + entries[1..];
    }
  }

  lemma {:induction false} CleanAppend(a: seq<Json>, b: seq<Json>, managed: Commands)
    ensures CleanAll(a + b, managed).0 == CleanAll(a, managed).0 + CleanAll(b, managed).0
    ensures CleanAll(a + b, managed).1 == (CleanAll(a, managed).1 || CleanAll(b, managed).1)
  {
    if a == [] {
      assert a + b == b;
    } else {
      assert (a + b)[1..] == a[1..] + b;
      CleanAppend(a[1..], b, managed);
    }
  }

  /** A cleaned list is clean already. */
  lemma {:induction false} CleanTwice(entries: seq<Json>, managed: Commands)
    requires NoneManaged(entries, managed) && NullFree(entries)
    ensures CleanAll(entries, managed) == (entries, false)
  {
    CleanRemovesManaged(entries, managed);
    NullFreeIsNonNull(entries);
  }

  /** A third-party entry keeps its place between whatever is left of its neighbours. */
  lemma {:induction false} ThirdPartyStays(before: seq<Json>, entry: Json, after: seq<Json>, managed: Commands)
    requires entry != Null && !HasManaged(entry, managed)
    ensures CleanAll(before + [entry] + after, managed).0
            == CleanAll(before, managed).0 + [entry] + CleanAll(after, managed).0
  {
    StripRemovesManaged(entry, managed);
    CleanAppend(before + [entry], after, managed);
    CleanAppend(before, [entry], managed);
    assert CleanAll([], managed) == ([], false);
  }

  // ----- merging one event -----

  /** How many entries are kept in front of the first one a command is removed from. */
  function InsertionIndex(entries: seq<Json>, managed: Commands): (r: Option<nat>)
    ensures r.Some? ==> r.value <= |CleanAll(entries, managed).0|
    ensures r.None? <==> !CleanAll(entries, managed).1
  {
    if entries == [] then None
    else if StripEntry(entries[0], managed).1 then Some(0)
    else
      Shifted(InsertionIndex(entries[1..], managed), if StripEntry(entries[0], managed).0.Null? then 0 else 1)
  }

  function Shifted(index: Option<nat>, kept: nat): Option<nat> {
    if index.None? then None else Some(kept + index.value)
  }

  function Items(value: Json): seq<Json> {
    if value.Array? then value.items else []
  }

  /** The kept entries with the managed ones put in at the insertion index, or at the end. */
  function MergeEvent(current: Json, entries: Json, managed: Commands): seq<Json> {
    if !current.Array? then Items(entries)
    else
      var kept := CleanAll(current.items, managed).0;
      var index := InsertionIndex(current.items, managed);
      var at := if index.None? then |kept| else index.value;
      kept[..at] + Items(entries) + kept[at..]
  }

  lemma {:induction false} IndexNext(entries: seq<Json>, managed: Commands, i: nat)
    requires i < |entries|
    ensures var (first, removed) := StripEntry(entries[i], managed);
            InsertionIndex(entries[i..], managed) ==
            if removed then Some(0)
            else Shifted(InsertionIndex(entries[i + 1..], managed), if first.Null? then 0 else 1)
  {
  }

  lemma {:induction false} IndexStart(managed: Commands)
    ensures InsertionIndex([], managed) == None
  {
  }

  method MergeClaudeEvent(current: Json, entries: Json, managed: Commands) returns (merged: seq<Json>)
    ensures merged == MergeEvent(current, entries, managed)
  {
    hide StripEntry, CleanAll, InsertionIndex;
    if !current.Array? {
      return Items(entries);
    }
    CleanStart(current.items, managed);
    IndexStart(managed);
    var preserved: seq<Json> := [];
    var index: Option<nat> := None;
    for i := 0 to |current.items|
      invariant CleanAll(current.items, managed).0 == preserved + CleanAll(current.items[i..], managed).0
      invariant index.Some? ==> index.value <= |preserved|
      invariant InsertionIndex(current.items, managed) ==
                if index.Some? then index else Shifted(InsertionIndex(current.items[i..], managed), |preserved|)
    {
      CleanNext(current.items, managed, i);
      IndexNext(current.items, managed, i);
      var cleaned, removed := StripManagedEntry(current.items[i], managed);
      if removed && index.None? {
        index := Some(|preserved|);
      }
      if cleaned != Null {
        preserved := preserved + [cleaned];
      }
    }
    assert preserved + CleanAll(current.items[|current.items|..], managed).0 == preserved;
    var at := if index.None? then |preserved| else index.value;
    merged := preserved[..at] + Items(entries) + preserved[at..];
  }

  /** The managed entries go where the first managed command was: behind what is kept of the entries before it. */
  lemma {:induction false} InsertionPlace(entries: seq<Json>, managed: Commands) returns (k: nat)
    requires CleanAll(entries, managed).1
    ensures k < |entries| && HasManaged(entries[k], managed) && NoneManaged(entries[..k], managed)
    ensures var front := CleanAll(entries[..k], managed).0;
            InsertionIndex(entries, managed) == Some(|front|) && front <= CleanAll(entries, managed).0
  {
    hide StripEntry, HasManaged;
    StripRemovesManaged(entries[0], managed);
    if StripEntry(entries[0], managed).1 {
      k := 0;
      assert entries[..0] == [];
    } else {
      var j := InsertionPlace(entries[1..], managed);
      k := j + 1;
      assert entries[..k][0] == entries[0] && entries[..k][1..] == entries[1..][..j];
    }
  }

  /** Every entry vanishes when stripped. */
  ghost predicate FullyManaged(entries: seq<Json>, managed: Commands) {
    forall i :: 0 <= i < |entries| ==> StripEntry(entries[i], managed) == (Null, true)
  }

  lemma {:induction false} FullyManagedVanishes(entries: seq<Json>, managed: Commands)
    requires FullyManaged(entries, managed)
    ensures CleanAll(entries, managed) == ([], entries != [])
  {
    if entries != [] {
      FullyManagedVanishes(entries[1..], managed);
      assert CleanAll(entries, managed).0 == [] + CleanAll(entries[1..], managed).0 == [];
    }
  }

  lemma {:induction false} IndexAfterClean(entries: seq<Json>, rest: seq<Json>, managed: Commands)
    requires NoneManaged(entries, managed) && NullFree(entries)
    requires rest != [] && StripEntry(rest[0], managed).1
    ensures InsertionIndex(entries + rest, managed) == Some(|entries|)
  {
    if entries == [] {
      assert entries + rest == rest;
    } else {
      StripRemovesManaged(entries[0], managed);
      assert (entries + rest)[1..] == entries[1..] + rest;
      IndexAfterClean(entries[1..], rest, managed);
    }
  }

  /**
   The merged event is the kept entries with the managed ones as one contiguous run, and no
   managed command anywhere else.
   */
  lemma {:induction false} MergeEventShape(current: Json, entries: Json, managed: Commands)
    returns (front: seq<Json>, back: seq<Json>)
    ensures MergeEvent(current, entries, managed) == front + Items(entries) + back
    ensures front + back == if current.Array? then CleanAll(current.items, managed).0 else []
    ensures NoneManaged(front, managed) && NoneManaged(back, managed) && NullFree(front) && NullFree(back)
  {
    hide CleanAll, HasManaged;
    front, back := [], [];
    if current.Array? {
      var kept := CleanAll(current.items, managed).0;
      var index := InsertionIndex(current.items, managed);
      var at := if index.None? then |kept| else index.value;
      front, back := kept[..at], kept[at..];
      CleanRemovesManaged(current.items, managed);
    }
  }

  lemma {:induction false} MergeCleaned(front: seq<Json>, run: seq<Json>, back: seq<Json>, managed: Commands)
    requires NoneManaged(front, managed) && NoneManaged(back, managed) && NullFree(front) && NullFree(back)
    requires FullyManaged(run, managed)
    ensures CleanAll(front + run + back, managed) == (front + back, run != [])
  {
    hide CleanAll, FullyManaged, HasManaged;
    CleanTwice(front, managed);
    CleanTwice(back, managed);
    FullyManagedVanishes(run, managed);
    CleanAppend(front + run, back, managed);
    CleanAppend(front, run, managed);
    assert front + [] + back == front + back;
    assert CleanAll(front + run + back, managed).0 == front + back;
  }

  /** Merging the same fully managed entries again changes nothing, whatever the event held. */
  lemma {:induction false} MergeEventIdempotent(current: Json, entries: Json, managed: Commands)
    requires FullyManaged(Items(entries), managed)
    ensures MergeEvent(Array(MergeEvent(current, entries, managed)), entries, managed)
      == MergeEvent(current, entries, managed)
  {
    hide CleanAll, HasManaged, InsertionIndex;
    var front, back := MergeEventShape(current, entries, managed);
    var run := Items(entries);
    MergeCleaned(front, run, back, managed);
    if run == [] {
      assert front + run + back == front + back;
    } else {
      IndexAfterClean(front, run + back, managed);
      assert front + (run + back) == front + run + back;
      assert (front + back)[..|front|] == front && (front + back)[|front|..] == back;
    }
  }

  // ----- merging and removing whole settings -----

  type Fields = map<string, Json>

  function ObjectFields(value: Json): Fields {
    if value.Object? then value.fields else map[]
  }

  function MergeHooks(hooks: Fields, additions: Fields, managed: Commands): Fields {
    hooks + map event | event in additions :: Array(MergeEvent(Get(hooks, event), additions[event], managed))
  }

  datatype SettingsError = NoManagedHooks | NotAnObject

  function MergeSettings(current: Json, content: Json, managed: Commands): Result<Fields, SettingsError> {
    if !content.Object? || !Get(content.fields, HOOKS).Object? then Err(NoManagedHooks)
    else
      var payload := ObjectFields(current);
      var hooks := ObjectFields(Get(payload, HOOKS));
      Ok(payload[HOOKS := Object(MergeHooks(hooks, Get(content.fields, HOOKS).fields, managed))])
  }

  /** Whether removal touches an event. */
  predicate Touched(value: Json, managed: Commands) {
    value.Array? && CleanAll(value.items, managed).1
  }

  predicate Emptied(value: Json, managed: Commands) {
    Touched(value, managed) && CleanAll(value.items, managed).0 == []
  }

  function RemoveHooks(hooks: Fields, managed: Commands): Fields {
    map event | event in hooks && !Emptied(hooks[event], managed) ::
      if Touched(hooks[event], managed) then Array(CleanAll(hooks[event].items, managed).0) else hooks[event]
  }

  predicate AnyTouched(hooks: Fields, managed: Commands) {
    exists event :: event in hooks && Touched(hooks[event], managed)
  }

  /** The payload that is left; an empty one is written as an empty file when something was removed. */
  function RemoveSettings(existing: Json, managed: Commands): Result<Fields, SettingsError> {
    if !existing.Object? then Err(NotAnObject)
    else if !Get(existing.fields, HOOKS).Object? then Ok(existing.fields)
    else
      var hooks := existing.fields[HOOKS].fields;
      if !AnyTouched(hooks, managed) then Ok(existing.fields)
      else if RemoveHooks(hooks, managed) == map[] then Ok(existing.fields - {HOOKS})
      else Ok(existing.fields[HOOKS := Object(RemoveHooks(hooks, managed))])
  }

  function Part(additions: Fields, done: set<string>): Fields {
    map event | event in additions && event in done :: additions[event]
  }

  lemma {:induction false} MergeNothing(hooks: Fields, additions: Fields, managed: Commands)
    ensures MergeHooks(hooks, Part(additions, additions.Keys - additions.Keys), managed) == hooks
  {
  }

  lemma {:induction false} MergeNext(
    hooks: Fields, additions: Fields, done: set<string>, event: string, managed: Commands)
    requires event in additions && event !in done
    ensures var sofar := MergeHooks(hooks, Part(additions, done), managed);
            && Get(sofar, event) == Get(hooks, event)
            && MergeHooks(hooks, Part(additions, done + {event}), managed)
               == sofar[event := Array(MergeEvent(Get(hooks, event), additions[event], managed))]
  {
    hide MergeEvent;
    var before, after := Part(additions, done), Part(additions, done + {event});
    assert after == before[event := additions[event]] && event !in before;
  }

  /** The removal loop: pops and assigns the events of one hooks object in place. */
  class HooksObject {
    var hooks: Fields

    constructor (initial: Fields)
      ensures hooks == initial
    {
      hooks := initial;
    }

    method MergeAll(additions: Fields, managed: Commands)
      modifies this
      ensures hooks == MergeHooks(old(hooks), additions, managed)
    {
      hide MergeHooks;
      var rest := additions.Keys;
      MergeNothing(hooks, additions, managed);
      while rest != {}
        invariant rest <= additions.Keys
        invariant hooks == MergeHooks(old(hooks), Part(additions, additions.Keys - rest), managed)
        decreases |rest|
      {
        var event :| event in rest;
        MergeNext(old(hooks), additions, additions.Keys - rest, event, managed);
        var merged := MergeClaudeEvent(Get(hooks, event), additions[event], managed);
        hooks := hooks[event := Array(merged)];
        assert additions.Keys - rest + {event} == additions.Keys - (rest - {event});
        rest := rest - {event};
      }
      assert Part(additions, additions.Keys - rest) == additions;
    }

    method RemoveManagedEvents(managed: Commands) returns (changed: bool)
      modifies this
      ensures hooks == RemoveHooks(old(hooks), managed) && changed == AnyTouched(old(hooks), managed)
    {
      hide CleanAll;
      changed := false;
      var rest := hooks.Keys;
      while rest != {}
        invariant rest <= old(hooks).Keys && rest <= hooks.Keys <= old(hooks).Keys
        invariant changed == exists e :: e in old(hooks) && e !in rest && Touched(old(hooks)[e], managed)
        invariant forall e :: e in old(hooks) && e !in rest ==> (e in hooks <==> !Emptied(old(hooks)[e], managed))
        invariant forall e :: e in hooks ==>
                    hooks[e] == if e !in rest && Touched(old(hooks)[e], managed)
                                then Array(CleanAll(old(hooks)[e].items, managed).0) else old(hooks)[e]
        decreases |rest|
      {
        var event :| event in rest;
        rest := rest - {event};
        if hooks[event].Array? {
          var cleaned, removed := CleanEntries(hooks[event].items, managed);
          if removed {
            changed := true;
            if cleaned != [] {
              hooks := hooks[event := Array(cleaned)];
            } else {
              hooks := hooks - {event};
            }
          }
        }
      }
      assert hooks == RemoveHooks(old(hooks), managed);
    }
  }

  /** The managed hooks as they are rendered: at least one event, each a non-empty fully managed array. */
  ghost predicate ManagedContent(additions: Fields, managed: Commands) {
    && additions != map[]
    && forall event :: event in additions ==>
         additions[event].Array? && additions[event].items != [] && FullyManaged(additions[event].items, managed)
  }

  lemma {:induction false} MergeHooksIdempotent(hooks: Fields, additions: Fields, managed: Commands)
    requires forall event :: event in additions ==> FullyManaged(Items(additions[event]), managed)
    ensures MergeHooks(MergeHooks(hooks, additions, managed), additions, managed)
      == MergeHooks(hooks, additions, managed)
  {
    forall event | event in additions
      ensures MergeEvent(Array(MergeEvent(Get(hooks, event), additions[event], managed)), additions[event], managed)
              == MergeEvent(Get(hooks, event), additions[event], managed)
    {
      MergeEventIdempotent(Get(hooks, event), additions[event], managed);
    }
  }

  /** Installing twice equals installing once, for any current settings at all. */
  lemma {:induction false} MergeSettingsIdempotent(current: Json, content: Json, managed: Commands)
    requires MergeSettings(current, content, managed).Ok?
    requires forall event :: event in content.fields[HOOKS].fields ==>
               FullyManaged(Items(content.fields[HOOKS].fields[event]), managed)
    ensures var once := MergeSettings(current, content, managed).value;
            MergeSettings(Object(once), content, managed) == Ok(once)
  {
    hide MergeHooks, FullyManaged;
    MergeHooksIdempotent(ObjectFields(Get(ObjectFields(current), HOOKS)), content.fields[HOOKS].fields, managed);
    var once := MergeSettings(current, content, managed).value;
    assert once[HOOKS := once[HOOKS]] == once;
  }

  /** An event the installer may add to and the uninstaller restores. */
  predicate Restorable(value: Json, managed: Commands) {
    value.Array? && (CleanAll(value.items, managed).1 || (value.items != [] && NullFree(value.items)))
  }

  /** What removal leaves of one event. */
  function Remainder(value: Json, managed: Commands): Option<Json> {
    if !Touched(value, managed) then Some(value)
    else if CleanAll(value.items, managed).0 == [] then None
    else Some(Array(CleanAll(value.items, managed).0))
  }

  /** Removing after merging leaves the kept entries of the event, or nothing. */
  lemma {:induction false} MergedRemainder(current: Json, entries: Json, managed: Commands)
    requires entries.Array? && entries.items != [] && FullyManaged(entries.items, managed)
    ensures Touched(Array(MergeEvent(current, entries, managed)), managed)
    ensures var kept := if current.Array? then CleanAll(current.items, managed).0 else [];
            Remainder(Array(MergeEvent(current, entries, managed)), managed)
            == if kept == [] then None else Some(Array(kept))
  {
    var front, back := MergeEventShape(current, entries, managed);
    MergeCleaned(front, entries.items, back, managed);
  }

  lemma {:induction false} RestorableIff(value: Json, entries: Json, managed: Commands)
    requires entries.Array? && entries.items != [] && FullyManaged(entries.items, managed)
    ensures Remainder(Array(MergeEvent(value, entries, managed)), managed) == Remainder(value, managed)
            <==> Restorable(value, managed)
  {
    MergedRemainder(value, entries, managed);
    if value.Array? && !CleanAll(value.items, managed).1 {
      CleanRemovesManaged(value.items, managed);
      NullFreeIsNonNull(value.items);
    }
  }

  lemma {:induction false} RemoveHooksAt(hooks: Fields, managed: Commands, event: string)
    ensures event in RemoveHooks(hooks, managed) <==> event in hooks && Remainder(hooks[event], managed).Some?
    ensures event in RemoveHooks(hooks, managed) ==>
      Some(RemoveHooks(hooks, managed)[event]) == Remainder(hooks[event], managed)
  {
  }

  /** On the hooks object: uninstalling after installing equals uninstalling exactly for restorable events. */
  lemma {:induction false} HooksCancelIff(hooks: Fields, additions: Fields, managed: Commands)
    requires ManagedContent(additions, managed)
    ensures RemoveHooks(MergeHooks(hooks, additions, managed), managed) == RemoveHooks(hooks, managed)
            <==> forall event :: event in additions && event in hooks ==> Restorable(hooks[event], managed)
    ensures AnyTouched(MergeHooks(hooks, additions, managed), managed)
  {
    var merged := MergeHooks(hooks, additions, managed);
    hide MergeEvent, Remainder, Restorable, FullyManaged, RemoveHooks, CleanAll;
    forall event | event in additions
      ensures Touched(merged[event], managed)
      ensures event !in hooks ==> Remainder(merged[event], managed) == None
      ensures event in hooks ==>
                (Remainder(merged[event], managed) == Remainder(hooks[event], managed)
                 <==> Restorable(hooks[event], managed))
    {
      MergedRemainder(Get(hooks, event), additions[event], managed);
      if event in hooks {
        RestorableIff(hooks[event], additions[event], managed);
      }
    }
    var some :| some in additions;
    assert some in merged;
    forall event
      ensures event in RemoveHooks(merged, managed) <==> event in merged && Remainder(merged[event], managed).Some?
      ensures event in RemoveHooks(merged, managed) ==>
        Some(RemoveHooks(merged, managed)[event]) == Remainder(merged[event], managed)
      ensures event in RemoveHooks(hooks, managed) <==> event in hooks && Remainder(hooks[event], managed).Some?
      ensures event in RemoveHooks(hooks, managed) ==>
        Some(RemoveHooks(hooks, managed)[event]) == Remainder(hooks[event], managed)
    {
      RemoveHooksAt(merged, managed, event);
      RemoveHooksAt(hooks, managed, event);
    }
    CancelByEvent(hooks, merged, additions, RemoveHooks(hooks, managed), RemoveHooks(merged, managed), managed);
  }

  lemma {:induction false} CancelByEvent(
    hooks: Fields, merged: Fields, additions: Fields, left: Fields, right: Fields, managed: Commands)
    requires merged.Keys == hooks.Keys + additions.Keys
    requires forall e :: e in hooks && e !in additions ==> merged[e] == hooks[e]
    requires forall e :: e in additions && e !in hooks ==> Remainder(merged[e], managed) == None
    requires forall e :: e in additions && e in hooks ==>
               (Remainder(merged[e], managed) == Remainder(hooks[e], managed) <==> Restorable(hooks[e], managed))
    requires forall e :: e in left <==> e in hooks && Remainder(hooks[e], managed).Some?
    requires forall e :: e in left ==> Some(left[e]) == Remainder(hooks[e], managed)
    requires forall e :: e in right <==> e in merged && Remainder(merged[e], managed).Some?
    requires forall e :: e in right ==> Some(right[e]) == Remainder(merged[e], managed)
    ensures right == left <==> forall e :: e in additions && e in hooks ==> Restorable(hooks[e], managed)
  {
    hide Remainder, Restorable;
    assert forall e :: e in merged && e !in hooks ==> e in additions;
    if forall e :: e in additions && e in hooks ==> Restorable(hooks[e], managed) {
      assert forall e :: e in right <==> e in left;
      assert forall e :: e in left ==> right[e] == left[e];
      assert right == left;
    }
    if right == left {
      assert forall e :: e in additions && e in hooks ==> (e in left <==> e in right);
    }
  }

  /** The payload with a hooks object put back, or without `hooks` if nothing is left of it. */
  function Rebuilt(payload: Fields, hooks: Fields): Fields {
    if hooks == map[] then payload - {HOOKS} else payload[HOOKS := Object(hooks)]
  }

  lemma {:induction false} RebuiltInjective(payload: Fields, a: Fields, b: Fields)
    ensures Rebuilt(payload, a) == Rebuilt(payload, b) <==> a == b
  {
    assert HOOKS !in payload - {HOOKS};
    if a != map[] && b != map[] && Rebuilt(payload, a) == Rebuilt(payload, b) {
      assert Rebuilt(payload, a)[HOOKS] == Rebuilt(payload, b)[HOOKS];
    }
  }

  lemma {:induction false} RemovedIsRebuilt(payload: Fields, managed: Commands)
    requires HOOKS in payload && payload[HOOKS].Object?
    requires payload[HOOKS].fields != map[]
    ensures RemoveSettings(Object(payload), managed)
      == Ok(Rebuilt(payload, RemoveHooks(payload[HOOKS].fields, managed)))
  {
    UntouchedStays(payload[HOOKS].fields, managed);
    hide RemoveHooks, AnyTouched;
    assert payload[HOOKS := payload[HOOKS]] == payload;
  }

  /**
   Install then uninstall equals uninstall exactly when `hooks` is absent, or is a non-empty
   object in which every managed event is absent or a restorable array.
   */
  lemma {:induction false} InstallUninstallCancelsIff(payload: Fields, content: Json, managed: Commands)
    requires content.Object? && Get(content.fields, HOOKS).Object?
    requires ManagedContent(content.fields[HOOKS].fields, managed)
    ensures var additions := content.fields[HOOKS].fields;
            var installed := MergeSettings(Object(payload), content, managed).value;
            RemoveSettings(Object(installed), managed) == RemoveSettings(Object(payload), managed)
            <==> || HOOKS !in payload
                 || (payload[HOOKS].Object? && payload[HOOKS].fields != map[]
                     && forall event :: event in additions && event in payload[HOOKS].fields ==>
                          Restorable(payload[HOOKS].fields[event], managed))
  {
    hide RemoveHooks, AnyTouched, Restorable, FullyManaged, MergeEvent, RemoveSettings;
    var additions := content.fields[HOOKS].fields;
    var hooks := ObjectFields(Get(payload, HOOKS));
    var merged := MergeHooks(hooks, additions, managed);
    var installed := payload[HOOKS := Object(merged)];
    HooksCancelIff(hooks, additions, managed);
    UntouchedStays(hooks, managed);
    var some :| some in additions;
    assert some in merged;
    RemovedIsRebuilt(installed, managed);
    var left := RemoveHooks(merged, managed);
    assert Rebuilt(installed, left) == Rebuilt(payload, left) by {
      assert installed - {HOOKS} == payload - {HOOKS};
    }
    if HOOKS in payload && payload[HOOKS].Object? && payload[HOOKS].fields != map[] {
      RemovedIsRebuilt(payload, managed);
      RebuiltInjective(payload, left, RemoveHooks(hooks, managed));
    } else {
      NothingToRemove(payload, managed);
      assert left == map[];
      assert Rebuilt(payload, left) == payload <==> HOOKS !in payload by {
        assert HOOKS !in payload ==> payload - {HOOKS} == payload;
        assert HOOKS !in payload - {HOOKS};
      }
    }
  }

  lemma {:induction false} NothingToRemove(payload: Fields, managed: Commands)
    requires !(HOOKS in payload && payload[HOOKS].Object? && payload[HOOKS].fields != map[])
    ensures RemoveSettings(Object(payload), managed) == Ok(payload)
  {
  }

  lemma {:induction false} UntouchedStays(hooks: Fields, managed: Commands)
    ensures !AnyTouched(hooks, managed) ==> RemoveHooks(hooks, managed) == hooks
    ensures hooks == map[] ==> RemoveHooks(hooks, managed) == map[] && !AnyTouched(hooks, managed)
  {
  }
}
