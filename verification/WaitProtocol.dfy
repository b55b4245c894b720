/**
 The durable wait protocol at the level of atomic transitions: a run is a sequence of
 registrations and locked sections applied to a map from wait id to record. Every
 statement quantifies over all runs.
 */
module WaitProtocol {
  import opened Wrappers
  import opened WaitRecords

  type Store = map<WaitId, WaitRecord>

  datatype Event =
    | Register(inputs: RegisterWait, id: WaitId, now: Time)
    | Locked(id: WaitId, section: Section)
    | Idle

  /** Each record is stored under its own id: the file name is derived from the record. */
  predicate Keyed(store: Store) {
    forall id :: id in store ==> store[id].waitId == id
  }

  predicate HasMatch(store: Store, inputs: RegisterWait) {
    exists id :: id in store && Matches(store[id], inputs)
  }

  function RegisterStep(store: Store, inputs: RegisterWait, id: WaitId, now: Time): Store {
    if HasMatch(store, inputs) then store else store[id := NewRecord(inputs, id, now)]
  }

  function SectionStep(store: Store, id: WaitId, section: Section): Store {
    if id !in store then store
    else match Run(store[id], section)
         case Write(w) => store[w.waitId := w]
         case _ => store
  }

  function Step(store: Store, event: Event): Store {
    match event
    case Register(inputs, id, now) => RegisterStep(store, inputs, id, now)
    case Locked(id, section) => SectionStep(store, id, section)
    case Idle => store
  }

  /** The store after a run. */
  function After(store: Store, events: seq<Event>): Store {
    if events == [] then store
    else Step(After(store, events[..|events| - 1]), events[|events| - 1])
  }

  /** A registration that creates a record uses an id that is not stored yet. */
  predicate Fresh(store: Store, event: Event) {
    event.Register? && !HasMatch(store, event.inputs) ==> event.id !in store
  }

  predicate FreshRun(store: Store, events: seq<Event>) {
    forall k :: 0 <= k < |events| ==> Fresh(After(store, events[..k]), events[k])
  }

  /** Event `k` of the run is a section of wait `id` that writes. */
  predicate Effective(store: Store, events: seq<Event>, k: nat, id: WaitId)
    requires k < |events|
  {
    events[k].Locked? && events[k].id == id &&
    var before := After(store, events[..k]);
    id in before && Run(before[id], events[k].section).Write?
  }

  lemma {:induction false} AfterNothing(store: Store, events: seq<Event>)
    requires events == []
    ensures After(store, events) == store
  {
  }

  lemma {:induction false} AfterNext(store: Store, events: seq<Event>, k: nat)
    requires k < |events|
    ensures After(store, events[..k + 1]) == Step(After(store, events[..k]), events[k])
  {
    assert events[..k + 1][..k] == events[..k];
  }

  // ----- one step -----

  /** What a record keeps from one state to a later one. */
  ghost predicate Advances(r: WaitRecord, w: WaitRecord) {
    && w.waitId == r.waitId
    && RecordIdentity(w) == RecordIdentity(r)
    && w.createdAt == r.createdAt
    && Rank(r.status) <= Rank(w.status)
    && (w.IsActive() ==> r.IsActive())
    && (forall k :: k in ONCE_KEYS && k in r.Meta() ==> k in w.Meta() && w.Meta()[k] == r.Meta()[k])
    && (r.status != Pending ==> Terminal(w) == Terminal(r))
  }

  lemma {:induction false} AdvancesReflexive(r: WaitRecord)
    ensures Advances(r, r)
  {
  }

  lemma {:induction false} AdvancesTransitive(r: WaitRecord, v: WaitRecord, w: WaitRecord)
    requires Advances(r, v) && Advances(v, w)
    ensures Advances(r, w)
  {
  }

  lemma {:induction false} StepAdvances(store: Store, event: Event)
    requires Keyed(store) && Fresh(store, event)
    ensures Keyed(Step(store, event))
    ensures forall id :: id in store ==> id in Step(store, event) && Advances(store[id], Step(store, event)[id])
  {
    if event.Locked? && event.id in store && Run(store[event.id], event.section).Write? {
      SectionKeeps(store[event.id], event.section);
    }
  }

  /** A registration finds what it registered: registering the same inputs again adds nothing. */
  lemma {:induction false} RegisterTwice(
    store: Store, inputs: RegisterWait, id: WaitId, now: Time, again: WaitId, later: Time)
    ensures var once := RegisterStep(store, inputs, id, now);
            HasMatch(once, inputs) && RegisterStep(once, inputs, again, later) == once
  {
    var r := NewRecord(inputs, id, now);
    assert r.kind == inputs.kind && Matches(r, inputs);
    if !HasMatch(store, inputs) {
      assert RegisterStep(store, inputs, id, now)[id] == r;
    }
  }

  /** With a reused id a consumed wait can become pending again, so freshness is needed. */
  lemma {:induction false} ReusedIdReactivates(inputs: RegisterWait, id: WaitId, now: Time)
    ensures var consumed := NewRecord(inputs, id, now).(status := Resumed);
            var next := RegisterStep(map[id := consumed], inputs, id, now);
            id in next && Rank(next[id].status) < Rank(consumed.status)
  {
  }

  // ----- whole runs -----

  /** Status, identity, once-only metadata and terminal facts only ever advance along a run. */
  lemma {:induction false} RunAdvances(store: Store, events: seq<Event>, i: nat, j: nat, id: WaitId)
    requires Keyed(store) && FreshRun(store, events)
    requires i <= j <= |events| && id in After(store, events[..i])
    ensures id in After(store, events[..j])
    ensures Advances(After(store, events[..i])[id], After(store, events[..j])[id])
    decreases j
  {
    hide Step, After, Advances;
    if i == j {
      AdvancesReflexive(After(store, events[..i])[id]);
    } else {
      RunAdvances(store, events, i, j - 1, id);
      RunKeyed(store, events, j - 1);
      AfterNext(store, events, j - 1);
      StepAdvances(After(store, events[..j - 1]), events[j - 1]);
      AdvancesTransitive(After(store, events[..i])[id], After(store, events[..j - 1])[id],
          After(store, events[..j])[id]);
    }
  }

  lemma {:induction false} RunKeyed(store: Store, events: seq<Event>, j: nat)
    requires Keyed(store) && FreshRun(store, events) && j <= |events|
    ensures Keyed(After(store, events[..j]))
  {
    hide Step, Advances, Keyed;
    if j > 0 {
      RunKeyed(store, events, j - 1);
      AfterNext(store, events, j - 1);
      StepAdvances(After(store, events[..j - 1]), events[j - 1]);
    }
  }

  /** The record an effective section leaves behind. */
  lemma {:induction false} EffectiveWrites(store: Store, events: seq<Event>, k: nat, id: WaitId)
    requires Keyed(store) && FreshRun(store, events) && k < |events| && Effective(store, events, k, id)
    ensures var before := After(store, events[..k]);
            var after := After(store, events[..k + 1]);
            id in after && after[id] == Run(before[id], events[k].section).record
  {
    RunKeyed(store, events, k);
    AfterNext(store, events, k);
    SectionKeeps(After(store, events[..k])[id], events[k].section);
  }

  /** Two sections make the same claim, one that may succeed at most once per wait. */
  predicate SameClaim(s: Section, t: Section) {
    || (s.Complete? && t.Complete?)
    || (s.ClaimNotification? && t.ClaimNotification?)
    || (s.ClaimHeartbeat? && t.ClaimHeartbeat?)
    || (s.ExpireReady? && t.ExpireReady?)
    || (s.ClaimObservation? && t.ClaimObservation? && s.kind == t.kind)
  }

  /** After a one-shot section succeeds, no later state lets the same claim succeed again. */
  lemma {:induction false} SpentClaim(before: WaitRecord, s: Section, later: WaitRecord, t: Section)
    requires SameClaim(s, t) && Run(before, s).Write? && Advances(Run(before, s).record, later)
    ensures Run(later, t) == Keep
  {
  }

  /**
   Exactly-once claims: completion, the notification claim, each observation claim, the
   heartbeat claim and expiry each take effect at most once per wait in any run, with any
   other sections (stale-lease repair and unguarded resumption included) in between.
   */
  lemma {:induction false} ClaimSucceedsAtMostOnce(store: Store, events: seq<Event>, i: nat, j: nat, id: WaitId)
    requires Keyed(store) && FreshRun(store, events) && i < |events| && j < |events|
    requires Effective(store, events, i, id) && Effective(store, events, j, id)
    requires SameClaim(events[i].section, events[j].section)
    ensures i == j
  {
    if i != j {
      var (first, second) := if i < j then (i, j) else (j, i);
      EffectiveWrites(store, events, first, id);
      RunAdvances(store, events, first + 1, second, id);
      SpentClaim(After(store, events[..first])[id], events[first].section,
                 After(store, events[..second])[id], events[second].section);
      assert false;
    }
  }

  /** The terminal facts a completion carries. */
  function Carried(s: Section): TerminalFacts
    requires s.Complete?
  {
    TerminalFacts(s.terminalResult, s.resumeMessage, s.state)
  }

  /** From the moment a completion takes effect, every later state shows exactly what it wrote. */
  lemma {:induction false} CompletionIsPermanent(store: Store, events: seq<Event>, k: nat, j: nat, id: WaitId)
    requires Keyed(store) && FreshRun(store, events) && k < j <= |events|
    requires Effective(store, events, k, id) && events[k].section.Complete?
    ensures id in After(store, events[..j])
    ensures Terminal(After(store, events[..j])[id]) == Carried(events[k].section)
  {
    EffectiveWrites(store, events, k, id);
    RunAdvances(store, events, k + 1, j, id);
  }

  predicate Completed(s: Status) {
    s in {Ready, Notifying, NotifyFailed, ExpiredReady}
  }

  /** Only an effective completion brings a record into one of the completed statuses. */
  lemma {:induction false} StepCompletes(store: Store, event: Event, id: WaitId)
    requires Keyed(store) && id in Step(store, event) && Completed(Step(store, event)[id].status)
    requires id in store ==> !Completed(store[id].status)
    ensures id in store && event.Locked? && event.id == id && event.section.Complete?
    ensures Run(store[id], event.section).Write?
  {
  }

  lemma {:induction false} CompletesAt(events: seq<Event>, i: nat, id: WaitId)
    requires FreshRun(map[], events) && i < |events|
    requires id in After(map[], events[..i + 1]) && Completed(After(map[], events[..i + 1])[id].status)
    requires id in After(map[], events[..i]) ==> !Completed(After(map[], events[..i])[id].status)
    ensures Effective(map[], events, i, id) && events[i].section.Complete?
  {
    assert Keyed(map[]);
    hide Step, After, Run, FreshRun, Completed, Keyed;
    RunKeyed(map[], events, i);
    AfterNext(map[], events, i);
    StepCompletes(After(map[], events[..i]), events[i], id);
  }

  /**
   In a run from an empty store, a record that is ready, being notified, failed to notify or
   expired was completed by some earlier event.
   */
  lemma {:induction false} CompletionHappened(events: seq<Event>, j: nat, id: WaitId) returns (k: nat)
    requires FreshRun(map[], events) && j <= |events|
    requires id in After(map[], events[..j]) && Completed(After(map[], events[..j])[id].status)
    ensures k < j && Effective(map[], events, k, id) && events[k].section.Complete?
    decreases j
  {
    hide *;
    AfterNothing(map[], events[..0]);
    if j > 0 {
      var before := After(map[], events[..j - 1]);
      if id in before && Completed(before[id].status) {
        k := CompletionHappened(events, j - 1, id);
      } else {
        CompletesAt(events, j - 1, id);
        k := j - 1;
      }
    }
  }

  /**
   Completion is unique and faithful: in every reachable state, the terminal facts of a
   completed record are those of the one event that completed it.
   */
  lemma {:induction false} CompletedByExactlyOne(events: seq<Event>, j: nat, id: WaitId)
    requires FreshRun(map[], events) && j <= |events|
    requires id in After(map[], events[..j]) && Completed(After(map[], events[..j])[id].status)
    ensures exists k :: && 0 <= k < j && Effective(map[], events, k, id) && events[k].section.Complete?
                        && Terminal(After(map[], events[..j])[id]) == Carried(events[k].section)
    ensures forall k, l | && 0 <= k < j && Effective(map[], events, k, id) && events[k].section.Complete?
                          && 0 <= l < j && Effective(map[], events, l, id) && events[l].section.Complete?
              :: k == l
  {
    assert Keyed(map[]);
    var k := CompletionHappened(events, j, id);
    CompletionIsPermanent(map[], events, k, j, id);
    forall k, l | && 0 <= k < j && Effective(map[], events, k, id) && events[k].section.Complete?
                  && 0 <= l < j && Effective(map[], events, l, id) && events[l].section.Complete?
      ensures k == l
    {
      ClaimSucceedsAtMostOnce(map[], events, k, l, id);
    }
  }

  // ----- one active record per identity -----

  ghost predicate UniqueActive(store: Store) {
    forall a, b | && a in store && b in store && store[a].IsActive() && store[b].IsActive()
                  && RecordIdentity(store[a]) == RecordIdentity(store[b])
      :: a == b
  }

  lemma {:induction false} LockedKeepsKeys(store: Store, event: Event)
    requires Keyed(store) && !(event.Register? && !HasMatch(store, event.inputs))
    ensures Step(store, event).Keys == store.Keys
  {
  }

  lemma {:induction false} CreatedIsUnmatched(store: Store, inputs: RegisterWait, id: WaitId, now: Time)
    requires !HasMatch(store, inputs)
    ensures forall a :: a in store && store[a].IsActive() ==>
      RecordIdentity(store[a]) != RecordIdentity(NewRecord(inputs, id, now))
  {
  }

  lemma {:induction false} StepKeepsUniqueActive(store: Store, event: Event)
    requires Keyed(store) && Fresh(store, event) && UniqueActive(store)
    ensures UniqueActive(Step(store, event))
  {
    if event.Register? && !HasMatch(store, event.inputs) {
      CreatedIsUnmatched(store, event.inputs, event.id, event.now);
    } else {
      assert Step(store, event).Keys == store.Keys by { LockedKeepsKeys(store, event); }
      StepAdvances(store, event);
      hide Step, RecordIdentity, WaitRecord.IsActive;
    }
  }

  /** Every reachable state has at most one active record per identity. */
  lemma {:induction false} RunKeepsUniqueActive(store: Store, events: seq<Event>, j: nat)
    requires Keyed(store) && UniqueActive(store) && FreshRun(store, events) && j <= |events|
    ensures UniqueActive(After(store, events[..j]))
  {
    hide Step, UniqueActive, Keyed;
    if j > 0 {
      RunKeepsUniqueActive(store, events, j - 1);
      RunKeyed(store, events, j - 1);
      AfterNext(store, events, j - 1);
      StepKeepsUniqueActive(After(store, events[..j - 1]), events[j - 1]);
    }
  }

  // ----- spacing of watcher repairs -----

  /** Every clock reading a section stores is at least `since`. */
  predicate StampsFrom(s: Section, since: Time) {
    match s
    case WatcherStarted(_, _, stamp, now) => since <= stamp && since <= now
    case WatcherPoll(stamp, now) => since <= stamp && since <= now
    case _ => since <= s.now
  }

  /** The watcher shows a sign of life, or a repair claim, no older than `since`. */
  predicate AttendedSince(r: WaitRecord, since: Time) {
    if Field(r, WatcherStrategy) == Some(WATCHER_REPAIRING)
    then since <= r.updatedAt &&
         match Field(r, WatcherRepairClaimedAt)
         case Some(Stamp(t)) => since <= t
         case None => true
         case _ => false
    else match Field(r, WatcherLastPollAt)
         case Some(Stamp(t)) => since <= t
         case _ => false
  }

  lemma {:induction false} SectionKeepsAttended(r: WaitRecord, s: Section, since: Time)
    requires AttendedSince(r, since) && Run(r, s).Write?
    requires !s.WatcherFailed? && StampsFrom(s, since)
    ensures AttendedSince(Run(r, s).record, since)
  {
  }

  lemma {:induction false} ClaimLeavesAttended(r: WaitRecord, s: Section)
    requires s.ClaimRepair? && Run(r, s).Write?
    ensures AttendedSince(Run(r, s).record, s.now)
  {
  }

  /** Between events `i` and `j`, wait `id` reports no failed watcher and stores no reading older than `since`. */
  ghost predicate QuietBetween(events: seq<Event>, i: nat, j: nat, id: WaitId, since: Time)
    requires j <= |events|
  {
    forall k :: i < k < j && events[k].Locked? && events[k].id == id ==>
      !events[k].section.WatcherFailed? && StampsFrom(events[k].section, since)
  }

  lemma {:induction false} StaysAttended(store: Store, events: seq<Event>, i: nat, j: nat, id: WaitId)
    requires Keyed(store) && FreshRun(store, events) && i < j <= |events|
    requires Effective(store, events, i, id) && events[i].section.ClaimRepair?
    requires QuietBetween(events, i, j, id, events[i].section.now)
    ensures id in After(store, events[..j]) && AttendedSince(After(store, events[..j])[id], events[i].section.now)
    decreases j
  {
    hide Step, After, Run, AttendedSince, StampsFrom, Keyed;
    if j == i + 1 {
      EffectiveWrites(store, events, i, id);
      ClaimLeavesAttended(After(store, events[..i])[id], events[i].section);
    } else {
      StaysAttended(store, events, i, j - 1, id);
      RunKeyed(store, events, j - 1);
      AfterNext(store, events, j - 1);
      if Effective(store, events, j - 1, id) {
        EffectiveWrites(store, events, j - 1, id);
        SectionKeepsAttended(After(store, events[..j - 1])[id], events[j - 1].section, events[i].section.now);
      } else {
        StepElsewhere(store, events, j - 1, id);
      }
    }
  }

  /** An event that is not an effective section of `id` leaves a stored `id` alone. */
  lemma {:induction false} StepElsewhere(store: Store, events: seq<Event>, k: nat, id: WaitId)
    requires Keyed(store) && FreshRun(store, events) && k < |events|
    requires id in After(store, events[..k]) && !Effective(store, events, k, id)
    ensures id in After(store, events[..k + 1]) && After(store, events[..k + 1])[id] == After(store, events[..k])[id]
  {
    RunKeyed(store, events, k);
    AfterNext(store, events, k);
    var before := After(store, events[..k]);
    if events[k].Locked? && events[k].id in before && Run(before[events[k].id], events[k].section).Write? {
      SectionKeeps(before[events[k].id], events[k].section);
    }
  }

  /**
   Two successful repair claims of one wait are at least the second call's staleness bound
   apart, whatever polls and starts intervene, when no watcher failure is recorded and no
   clock reading taken before the first claim is stored between them.
   */
  lemma {:induction false} RepairsAreSpaced(store: Store, events: seq<Event>, i: nat, j: nat, id: WaitId)
    requires Keyed(store) && FreshRun(store, events) && i < j < |events|
    requires Effective(store, events, i, id) && events[i].section.ClaimRepair?
    requires Effective(store, events, j, id) && events[j].section.ClaimRepair?
    requires QuietBetween(events, i, j, id, events[i].section.now)
    ensures events[j].section.checkedAt - events[i].section.now >= events[j].section.staleAfter
  {
    StaysAttended(store, events, i, j, id);
  }

  /**
   A start stamped before the lock was taken can undercut the spacing: the claim at `t` is
   followed by a start stamped one second earlier, and a second claim succeeds too soon.
   */
  lemma {:induction false} EarlyStampUndercutsSpacing(r: WaitRecord, t: Time, staleAfter: nat)
    requires r.status == Pending && r.metadata == None && r.createdAt + staleAfter <= t && staleAfter >= 1
    ensures var started := WatcherStarted(Text("background"), None, t - 1, t);
            var again := ClaimRepair(false, staleAfter, t + staleAfter - 1, t + staleAfter - 1);
            var claimed := Run(r, ClaimRepair(false, staleAfter, t, t)).record;
            Run(r, ClaimRepair(false, staleAfter, t, t)).Write?
            && Run(claimed, started).Write?
            && Run(Run(claimed, started).record, again).Write?
  {
  }
}
