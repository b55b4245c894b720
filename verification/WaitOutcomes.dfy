/**
 What the locked sections and registrations leave behind, said by statuses, fields and metadata keys:
 when a section takes effect, what it changes, and which event brought a record into its status.
 */
module WaitOutcomes {
  import opened Wrappers
  import opened WaitRecords
  import opened WaitProtocol

  // ----- when a section takes effect -----

  predicate Holds(r: WaitRecord, key: MetaKey, value: MetaValue) {
    r.metadata.Some? && key in r.metadata.value && r.metadata.value[key] == value
  }

  predicate Lacks(r: WaitRecord, key: MetaKey) {
    r.metadata.None? || key !in r.metadata.value
  }

  /** A stored text that counts as given: not empty, and no other kind of value. */
  predicate Given(r: WaitRecord, key: MetaKey) {
    r.metadata.Some? && key in r.metadata.value
    && (r.metadata.value[key].Stamp? || (r.metadata.value[key].Text? && r.metadata.value[key].text != ""))
  }

  /**
   The last sign of life of a watcher: while a repair is under way the time it was claimed, otherwise
   the last poll, or else the start; where these are not given, the last update or the creation.
   */
  predicate LastReading(r: WaitRecord, reading: MetaValue) {
    if Holds(r, WatcherStrategy, Text("repairing")) then
      if Given(r, WatcherRepairClaimedAt) then Holds(r, WatcherRepairClaimedAt, reading)
      else reading == Stamp(r.updatedAt)
    else if Given(r, WatcherLastPollAt) then Holds(r, WatcherLastPollAt, reading)
    else if Given(r, WatcherStartedAt) then Holds(r, WatcherStartedAt, reading)
    else reading == Stamp(r.createdAt)
  }

  lemma {:induction false} ReadingExists(r: WaitRecord)
    ensures LastReading(r, Reference(r)) && forall reading :: LastReading(r, reading) ==> reading == Reference(r)
  {
  }

  predicate WaitsForAnswer(status: Status) {
    status == Ready || status == NotifyFailed
  }

  /** The section takes effect on the record. */
  ghost predicate Due(r: WaitRecord, s: Section) {
    match s
    case MarkResumed(_) => true
    case ClaimHeartbeat(_) =>
      WaitsForAnswer(r.status) && Holds(r, HeartbeatMode, Text("repo")) && Lacks(r, HeartbeatNotifiedAt)
    case ExpireReady(olderThan, now) => WaitsForAnswer(r.status) && 0 <= olderThan <= now - r.updatedAt
    case ClaimNotification(_) => r.status == Ready
    case ClaimObservation(RegistrationSeen, _) => Lacks(r, RegistrationObservedAt)
    case ClaimObservation(WatcherStartSeen, _) => Lacks(r, WatcherStartedObservedAt)
    case ClaimObservation(FallbackSeen, _) => Lacks(r, FallbackUsedObservedAt)
    case ClaimObservation(TerminalSeen, _) => Lacks(r, TerminalObservedAt) && WaitsForAnswer(r.status)
    case FinishNotification(_, _, _) => r.status == Notifying
    case RepairNotification(lease, checkedAt, _) => r.status == Notifying && 0 <= lease <= checkedAt - r.updatedAt
    case ClaimRepair(active, staleAfter, checkedAt, _) =>
      && r.status == Pending && !active
      && exists at :: LastReading(r, Stamp(at)) && 0 <= staleAfter <= checkedAt - at
    case _ => r.status == Pending
  }

  /**
   A section writes exactly when it is due. It raises only for a repair claim on a pending wait without
   an active watcher whose last sign of life is no timestamp.
   */
  lemma {:induction false} WritesIffDue(r: WaitRecord, s: Section)
    ensures Run(r, s).Write? <==> Due(r, s)
    ensures Run(r, s).Raise? <==>
            s.ClaimRepair? && r.status == Pending && !s.active && forall at :: !LastReading(r, Stamp(at))
  {
    ReadingExists(r);
    hide LastReading, Reference;
    if s.ClaimRepair? && Reference(r).Stamp? {
      assert LastReading(r, Stamp(Reference(r).at));
    }
  }

  // ----- what it changes -----

  /** The status a section leads to, if it is about the status at all. */
  function LeadsTo(s: Section): Option<Status> {
    match s
    case Complete(_, _, _, _) => Some(Ready)
    case ClaimNotification(_) => Some(Notifying)
    case MarkResumed(_) => Some(Resumed)
    case FinishNotification(resumed, _, _) => if resumed then Some(Resumed) else Some(NotifyFailed)
    case RepairNotification(_, _, _) => Some(NotifyFailed)
    case ExpireReady(_, _) => Some(ExpiredReady)
    case _ => None
  }

  /** The reason a failed notification is stored with: the one given if it is allowed. */
  function FailsWith(s: Section): Option<string> {
    match s
    case RepairNotification(_, _, _) => Some("notification_lease_expired")
    case FinishNotification(resumed, reason, _) =>
      if resumed then None
      else if reason in {"app_server_error", "visible_wake_unconfirmed", "notification_lease_expired"} then Some(reason)
      else Some("notification_failed")
    case _ => None
  }

  function If(condition: bool, value: MetaValue): Option<MetaValue> {
    if condition then Some(value) else None
  }

  /** What a section stores under a metadata key, if anything. */
  function StoredBy(s: Section, key: MetaKey): Option<MetaValue> {
    match key
    case HeartbeatNotifiedAt => If(s.ClaimHeartbeat?, Stamp(s.now))
    case RegistrationObservedAt => If(s.ClaimObservation? && s.kind == RegistrationSeen, Stamp(s.now))
    case WatcherStartedObservedAt => If(s.ClaimObservation? && s.kind == WatcherStartSeen, Stamp(s.now))
    case FallbackUsedObservedAt => If(s.ClaimObservation? && s.kind == FallbackSeen, Stamp(s.now))
    case TerminalObservedAt => If(s.ClaimObservation? && s.kind == TerminalSeen, Stamp(s.now))
    case NotificationClaimedAt => If(s.ClaimNotification?, Stamp(s.now))
    case NotificationFinishedAt => If(s.FinishNotification? || s.RepairNotification?, Stamp(s.now))
    case NotificationFailureReason => if FailsWith(s).Some? then Some(Text(FailsWith(s).value)) else None
    case ExpiredReason => If(s.ExpireReady?, Text("ready_ttl"))
    case WatcherStrategy =>
      if s.WatcherStarted? then Some(s.strategy)
      else if s.WatcherFailed? then Some(Text("failed"))
      else If(s.ClaimRepair?, Text("repairing"))
    case WatcherPid => if s.WatcherStarted? && s.pid.Some? then Some(Number(s.pid.value)) else None
    case WatcherStartedAt => if s.WatcherStarted? then Some(Stamp(s.stamp)) else None
    case WatcherLastPollAt => if s.WatcherStarted? || s.WatcherPoll? then Some(Stamp(s.stamp)) else None
    case WatcherError =>
      if !s.WatcherFailed? then None
      else if s.code in {"launchd_required", "watcher_start_failed", "watcher_repair_failed"} then Some(Text(s.code))
      else Some(Text("watcher_failed"))
    case WatcherRepairClaimedAt => If(s.ClaimRepair?, Stamp(s.now))
    case _ => None
  }

  /** The section removes the key. */
  predicate Removes(s: Section, key: MetaKey) {
    match key
    case NotificationFailureReason => s.FinishNotification? && s.resumed
    case WatcherPid => (s.WatcherStarted? && s.pid.None?) || s.WatcherFailed? || s.ClaimRepair?
    case WatcherError => s.WatcherStarted?
    case WatcherRepairClaimedAt => s.WatcherStarted?
    case _ => false
  }

  /** What a record holds under a key. */
  function Held(r: WaitRecord, key: MetaKey): Option<MetaValue> {
    if r.metadata.Some? && key in r.metadata.value then Some(r.metadata.value[key]) else None
  }

  /** The section is about the watcher. */
  predicate AboutWatcher(s: Section) {
    s.WatcherStarted? || s.WatcherPoll? || s.WatcherFailed? || s.ClaimRepair?
  }

  lemma {:induction false} WatcherKeyChanges(r: WaitRecord, s: Section, key: MetaKey)
    requires Run(r, s).Write? && AboutWatcher(s)
    ensures Held(Run(r, s).record, key) ==
            if StoredBy(s, key).Some? then StoredBy(s, key) else if Removes(s, key) then None else Held(r, key)
  {
    hide Reference;
  }

  lemma {:induction false} OtherKeyChanges(r: WaitRecord, s: Section, key: MetaKey)
    requires Run(r, s).Write? && !AboutWatcher(s)
    ensures Held(Run(r, s).record, key) ==
            if StoredBy(s, key).Some? then StoredBy(s, key) else if Removes(s, key) then None else Held(r, key)
  {
    hide Reference;
  }

  /** Every key is stored or removed exactly by the sections about it, and is otherwise as it was. */
  lemma {:induction false} KeyChanges(r: WaitRecord, s: Section, key: MetaKey)
    requires Run(r, s).Write?
    ensures Held(Run(r, s).record, key) ==
            if StoredBy(s, key).Some? then StoredBy(s, key) else if Removes(s, key) then None else Held(r, key)
  {
    hide Run, Held, StoredBy, Removes;
    if AboutWatcher(s) {
      WatcherKeyChanges(r, s, key);
    } else {
      OtherKeyChanges(r, s, key);
    }
  }

  /** Status, times and terminal facts of the written record; nothing else changes. */
  lemma {:induction false} FieldChanges(r: WaitRecord, s: Section)
    requires Run(r, s).Write?
    ensures var w := Run(r, s).record;
            && w.status == (if LeadsTo(s).Some? then LeadsTo(s).value else r.status)
            && w.updatedAt == (if s.ClaimObservation? then r.updatedAt else s.now)
            && w.lastObservedState == (if s.Observe? || s.Complete? then s.state else r.lastObservedState)
            && w.terminalResult == (if s.Complete? then s.terminalResult else r.terminalResult)
            && w.resumeMessage == (if s.Complete? then s.resumeMessage else r.resumeMessage)
            && w.(status := r.status, updatedAt := r.updatedAt, lastObservedState := r.lastObservedState,
                  terminalResult := r.terminalResult, resumeMessage := r.resumeMessage, metadata := r.metadata) == r
  {
    hide Reference;
  }

  // ----- which event brought a record into its status -----

  lemma {:induction false} StepOf(store: Store, events: seq<Event>, k: nat, id: WaitId)
    requires Keyed(store) && FreshRun(store, events) && k < |events| && id in After(store, events[..k])
    ensures var was, after := After(store, events[..k])[id], After(store, events[..k + 1]);
            && id in after
            && (Effective(store, events, k, id) ==>
                  Run(was, events[k].section).Write? && after[id] == Run(was, events[k].section).record)
            && (!Effective(store, events, k, id) ==> after[id] == was)
  {
    hide After, Step, Run;
    if Effective(store, events, k, id) {
      EffectiveWrites(store, events, k, id);
    } else {
      StepElsewhere(store, events, k, id);
    }
  }

  /**
   A record comes into a status exactly at an effective section of its own that leads there: `Resumed`
   only by a resumption or a finish that resumed, `NotifyFailed` only by a finish that failed or a lease
   repair, and so on.
   */
  lemma {:induction false} BecomesIff(store: Store, events: seq<Event>, k: nat, id: WaitId, status: Status)
    requires Keyed(store) && FreshRun(store, events) && k < |events|
    requires id in After(store, events[..k]) && After(store, events[..k])[id].status != status
    ensures id in After(store, events[..k + 1])
    ensures After(store, events[..k + 1])[id].status == status
            <==> Effective(store, events, k, id) && LeadsTo(events[k].section) == Some(status)
  {
    hide After, Run;
    StepOf(store, events, k, id);
    if Effective(store, events, k, id) {
      FieldChanges(After(store, events[..k])[id], events[k].section);
    }
  }

  /** A finish or repair stores its reason, or none if it resumed, and the time it finished. */
  lemma {:induction false} FinishStores(store: Store, events: seq<Event>, k: nat, id: WaitId)
    requires Keyed(store) && FreshRun(store, events) && k < |events| && Effective(store, events, k, id)
    requires events[k].section.FinishNotification? || events[k].section.RepairNotification?
    ensures id in After(store, events[..k]) && After(store, events[..k])[id].status == Notifying
    ensures id in After(store, events[..k + 1])
    ensures var s, w := events[k].section, After(store, events[..k + 1])[id];
            && Held(w, NotificationFinishedAt) == Some(Stamp(s.now)) && w.updatedAt == s.now
            && (s.FinishNotification? && s.resumed ==>
                  w.status == Resumed && Held(w, NotificationFailureReason) == None)
            && (s.FinishNotification? && !s.resumed ==> w.status == NotifyFailed)
            && (s.RepairNotification? ==> w.status == NotifyFailed)
            && (w.status == NotifyFailed ==>
                  FailsWith(s).Some? && Held(w, NotificationFailureReason) == Some(Text(FailsWith(s).value)))
  {
    hide After, Run;
    StepOf(store, events, k, id);
    var r, s := After(store, events[..k])[id], events[k].section;
    WritesIffDue(r, s);
    FieldChanges(r, s);
    KeyChanges(r, s, NotificationFinishedAt);
    KeyChanges(r, s, NotificationFailureReason);
  }

  /** Event `k` brought the record into the status it shows in state `j`, and nothing moved it since. */
  ghost predicate Cause(store: Store, events: seq<Event>, k: nat, j: nat, id: WaitId)
    requires j <= |events| && id in After(store, events[..j])
  {
    var now := After(store, events[..j])[id];
    && k < j && Effective(store, events, k, id) && LeadsTo(events[k].section) == Some(now.status)
    && (now.status == NotifyFailed ==>
          FailsWith(events[k].section).Some?
          && Held(now, NotificationFailureReason) == Some(Text(FailsWith(events[k].section).value)))
  }

  /**
   In every reachable state, a record that is no longer pending got its status from an effective event
   of its own that leads there, and a failed notification still shows the reason of that event.
   */
  lemma {:induction false} StatusHasCause(events: seq<Event>, j: nat, id: WaitId) returns (k: nat)
    requires FreshRun(map[], events) && j <= |events|
    requires id in After(map[], events[..j]) && After(map[], events[..j])[id].status != Pending
    ensures Cause(map[], events, k, j, id)
    decreases j
  {
    assert Keyed(map[]);
    hide After, Run, Step, Keyed, FreshRun, Effective, Cause, LeadsTo;
    k := 0;
    AfterNothing(map[], events[..0]);
    if j > 0 {
      var i := j - 1;
      RunKeyed(map[], events, i);
      AfterNext(map[], events, i);
      var before := After(map[], events[..i]);
      if id !in before {
        NewIsPending(before, events[i], id);
      } else if Effective(map[], events, i, id) && LeadsTo(events[i].section).Some? {
        k := i;
        CauseNow(map[], events, i, id);
      } else {
        StatusStays(map[], events, i, id);
        k := StatusHasCause(events, i, id);
        CauseStays(map[], events, k, i, id);
      }
    }
  }

  lemma {:induction false} CauseNow(store: Store, events: seq<Event>, i: nat, id: WaitId)
    requires Keyed(store) && FreshRun(store, events) && i < |events|
    requires Effective(store, events, i, id) && LeadsTo(events[i].section).Some?
    ensures id in After(store, events[..i + 1]) && Cause(store, events, i, i + 1, id)
  {
    hide After, Run, Keyed, FreshRun;
    StepOf(store, events, i, id);
    var before, s := After(store, events[..i])[id], events[i].section;
    FieldChanges(before, s);
    KeyChanges(before, s, NotificationFailureReason);
    LedToFailure(s);
  }

  /** An event that leads to no status leaves the status and the failure reason alone. */
  lemma {:induction false} StatusStays(store: Store, events: seq<Event>, i: nat, id: WaitId)
    requires Keyed(store) && FreshRun(store, events) && i < |events| && id in After(store, events[..i])
    requires Effective(store, events, i, id) ==> LeadsTo(events[i].section).None?
    ensures id in After(store, events[..i + 1])
    ensures var was, now := After(store, events[..i])[id], After(store, events[..i + 1])[id];
            now.status == was.status
            && Held(now, NotificationFailureReason) == Held(was, NotificationFailureReason)
  {
    hide After, Run, Keyed, FreshRun, Held;
    StepOf(store, events, i, id);
    if Effective(store, events, i, id) {
      var before, s := After(store, events[..i])[id], events[i].section;
      assert Run(before, s).Write?;
      FieldChanges(before, s);
      KeyChanges(before, s, NotificationFailureReason);
      LedToFailure(s);
    }
  }

  lemma {:induction false} CauseStays(store: Store, events: seq<Event>, k: nat, i: nat, id: WaitId)
    requires Keyed(store) && FreshRun(store, events) && i < |events| && id in After(store, events[..i])
    requires Cause(store, events, k, i, id)
    requires Effective(store, events, i, id) ==> LeadsTo(events[i].section).None?
    ensures id in After(store, events[..i + 1]) && Cause(store, events, k, i + 1, id)
  {
    hide After, Keyed, FreshRun, Effective, Held, LeadsTo, FailsWith;
    StatusStays(store, events, i, id);
  }

  lemma {:induction false} LedToFailure(s: Section)
    ensures LeadsTo(s) == Some(NotifyFailed) <==> FailsWith(s).Some?
  {
  }

  lemma {:induction false} NewIsPending(store: Store, event: Event, id: WaitId)
    requires Keyed(store) && id !in store && id in Step(store, event)
    ensures event.Register? && event.id == id && Step(store, event)[id] == NewRecord(event.inputs, id, event.now)
    ensures Step(store, event)[id].status == Pending && !HasMatch(store, event.inputs)
  {
    if event.Locked? && event.id in store && Run(store[event.id], event.section).Write? {
      SectionKeeps(store[event.id], event.section);
    }
  }

  // ----- where a record comes from -----

  /** What a record shows of its registration for as long as it is stored. */
  ghost predicate ShowsInputs(r: WaitRecord, inputs: RegisterWait, id: WaitId, at: Time) {
    && r.waitId == id && r.kind == inputs.kind && r.targetId == inputs.targetId && r.repo == inputs.repo
    && r.platform == inputs.platform && r.branch == inputs.branch && r.headSha == inputs.headSha
    && r.intervalSeconds == inputs.intervalSeconds && r.timeoutSeconds == inputs.timeoutSeconds
    && r.resumeInstruction == inputs.resumeInstruction
    && r.createdAt == at && r.deadlineAt == at + inputs.timeoutSeconds
  }

  /** A fresh record: pending, nothing observed, the caller's metadata with the heartbeat mode defaulted. */
  lemma {:induction false} FreshRecord(inputs: RegisterWait, id: WaitId, now: Time)
    ensures var r := NewRecord(inputs, id, now);
            && ShowsInputs(r, inputs, id, now) && r.status == Pending && r.updatedAt == now
            && r.terminalResult == "" && r.resumeMessage == "" && r.lastObservedState == None
            && (forall key :: key != HeartbeatMode ==>
                  Held(r, key) == if inputs.metadata.Some? && key in inputs.metadata.value
                                  then Some(inputs.metadata.value[key]) else None)
            && Held(r, HeartbeatMode) ==
               if inputs.metadata.Some? && HeartbeatMode in inputs.metadata.value
               then Some(inputs.metadata.value[HeartbeatMode]) else Some(Text("repo"))
  {
  }

  /** Nothing in a wait's life changes what its registration gave it. */
  lemma {:induction false} InputsKept(r: WaitRecord, s: Section, inputs: RegisterWait, id: WaitId, at: Time)
    requires Run(r, s).Write? && ShowsInputs(r, inputs, id, at)
    ensures ShowsInputs(Run(r, s).record, inputs, id, at)
  {
    FieldChanges(r, s);
    hide Run;
  }

  /** Every record of a reachable state was added by one registration, and shows its inputs. */
  lemma {:induction false} RecordHasOrigin(events: seq<Event>, j: nat, id: WaitId) returns (k: nat)
    requires FreshRun(map[], events) && j <= |events| && id in After(map[], events[..j])
    ensures k < j && events[k].Register? && events[k].id == id && id !in After(map[], events[..k])
    ensures ShowsInputs(After(map[], events[..j])[id], events[k].inputs, id, events[k].now)
    decreases j
  {
    assert Keyed(map[]);
    hide After, Run, Step, Keyed, FreshRun, Effective, ShowsInputs;
    k := 0;
    AfterNothing(map[], events[..0]);
    if j > 0 {
      var i := j - 1;
      RunKeyed(map[], events, i);
      AfterNext(map[], events, i);
      var before := After(map[], events[..i]);
      if id !in before {
        NewIsPending(before, events[i], id);
        FreshRecord(events[i].inputs, id, events[i].now);
        k := i;
      } else {
        k := RecordHasOrigin(events, i, id);
        StepOf(map[], events, i, id);
        if Effective(map[], events, i, id) {
          InputsKept(before[id], events[i].section, events[k].inputs, id, events[k].now);
        }
      }
    }
  }

  /** A registration adds a record exactly when no stored wait of the same identity is still active. */
  lemma {:induction false} RegistrationAddsIff(store: Store, inputs: RegisterWait, id: WaitId, now: Time)
    requires id !in store
    ensures id in RegisterStep(store, inputs, id, now) <==>
            forall x :: x in store && store[x].status !in {Resumed, ExpiredReady} ==>
              RecordIdentity(store[x]) != IdentityOf(inputs.kind, inputs.targetId, inputs.repo, inputs.headSha)
    ensures forall x :: x in store ==> x in RegisterStep(store, inputs, id, now)
                                       && RegisterStep(store, inputs, id, now)[x] == store[x]
    ensures RegisterStep(store, inputs, id, now).Keys <= store.Keys + {id}
  {
    hide Matches, RecordIdentity, IdentityOf, NewRecord;
    forall x | x in store
      ensures Matches(store[x], inputs) <==>
              store[x].status !in {Resumed, ExpiredReady}
              && RecordIdentity(store[x]) == IdentityOf(inputs.kind, inputs.targetId, inputs.repo, inputs.headSha)
    {
      MatchesIff(store[x], inputs);
    }
  }

  lemma {:induction false} MatchesIff(r: WaitRecord, inputs: RegisterWait)
    ensures Matches(r, inputs) <==>
            r.status !in {Resumed, ExpiredReady}
            && RecordIdentity(r) == IdentityOf(inputs.kind, inputs.targetId, inputs.repo, inputs.headSha)
  {
    SameIdentityIsKernel(r, inputs.kind, inputs.targetId, inputs.repo, inputs.headSha);
    hide RecordIdentity, IdentityOf, SameIdentity;
    match r.status {
      case Pending | Ready | Notifying | NotifyFailed =>
      case Resumed | ExpiredReady =>
    }
  }

  /** What an identity consists of, by kind. */
  lemma {:induction false} SameIdentityMeans(r: WaitRecord, inputs: RegisterWait)
    ensures RecordIdentity(r) == IdentityOf(inputs.kind, inputs.targetId, inputs.repo, inputs.headSha) <==>
            && r.kind == inputs.kind && r.targetId == inputs.targetId
            && (r.kind != "verifier" ==> r.repo == inputs.repo)
            && (r.kind != "github-run" ==> r.headSha == inputs.headSha)
  {
  }
}
