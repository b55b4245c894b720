/**
 The file-backed registry as an object whose store the operations rewrite in place. Each
 operation is written as the source has it and proved to be the corresponding atomic step
 of the protocol; the protocol's theorems are about those steps.
 */
module WaitRegistry {
  import opened Wrappers
  import opened WaitRecords
  import opened WaitProtocol

  datatype ReadError = NotFound | BadTimestamp

  /** What a section does to every record of a store, when it is run once per record. */
  function Sweep(store: Store, section: Section): Store {
    map id | id in store :: Applied(store[id], section)
  }

  /** The same for the records in `ids` only. */
  function SweepOf(store: Store, ids: set<WaitId>, section: Section): Store {
    map id | id in store :: if id in ids then Applied(store[id], section) else store[id]
  }

  function Applied(r: WaitRecord, section: Section): WaitRecord {
    match Run(r, section)
    case Write(w) => w
    case _ => r
  }

  /** `written` lists, once each, the records a sweep wrote. */
  ghost predicate Reports(store: Store, done: set<WaitId>, section: Section, written: seq<WaitRecord>) {
    && (forall i, j :: 0 <= i < j < |written| ==> written[i] != written[j])
    && (forall w :: w in written ==> exists id :: id in done && id in store && Run(store[id], section) == Write(w))
    && (forall id :: id in done && id in store && Run(store[id], section).Write? ==>
        Run(store[id], section).record in written)
  }

  function IdsOf(ids: seq<WaitId>): set<WaitId> {
    set x | x in ids
  }

  /** A sweep is the run of its sections in any order of the ids. */
  lemma {:induction false} SweepIsRun(store: Store, section: Section, ids: seq<WaitId>, events: seq<Event>, j: nat)
    requires Keyed(store) && |events| == |ids|
    requires forall i, k :: 0 <= i < k < |ids| ==> ids[i] != ids[k]
    requires forall i :: 0 <= i < |ids| ==> ids[i] in store && events[i] == Locked(ids[i], section)
    requires j <= |ids|
    ensures SweptOutside(store, After(store, events[..j]), store.Keys - IdsOf(ids[..j]), section)
    ensures j == |ids| && (forall id :: id in store ==> id in ids) ==>
      After(store, events[..j]) == Sweep(store, section)
  {
    hide Run, Step, After, Reports, SweptOutside, Sweep, SectionStep, Applied;
    if j == 0 {
      AfterNothing(store, events[..j]);
      NothingSwept(store, section);
      assert store.Keys - IdsOf(ids[..j]) == store.Keys;
    } else {
      SweepIsRun(store, section, ids, events, j - 1);
      AfterNext(store, events, j - 1);
      var before := After(store, events[..j - 1]);
      var rest := store.Keys - IdsOf(ids[..j - 1]);
      NextId(store.Keys, ids, j);
      SweptNext(store, before, rest, ids[j - 1], section);
      StepLocked(before, ids[j - 1], section);
    }
    if j == |ids| && forall id :: id in store ==> id in ids {
      AllIds(store, ids);
      assert ids[..j] == ids;
      SweptAll(store, After(store, events[..j]), section);
    }
  }

  lemma {:induction false} NextId(keys: set<WaitId>, ids: seq<WaitId>, j: nat)
    requires 0 < j <= |ids| && forall i, k :: 0 <= i < k < |ids| ==> ids[i] != ids[k]
    requires ids[j - 1] in keys
    ensures var rest := keys - IdsOf(ids[..j - 1]);
            ids[j - 1] in rest && keys - IdsOf(ids[..j]) == rest - {ids[j - 1]}
  {
    assert ids[..j] == ids[..j - 1] + [ids[j - 1]];
  }

  lemma {:induction false} AllIds(store: Store, ids: seq<WaitId>)
    requires forall id :: id in store ==> id in ids
    ensures store.Keys - IdsOf(ids) == {}
  {
  }

  lemma {:induction false} StepLocked(store: Store, id: WaitId, section: Section)
    ensures Step(store, Locked(id, section)) == SectionStep(store, id, section)
  {
  }

  class WaitRegistry {
    var store: Store

    constructor ()
      ensures store == map[]
    {
      store := map[];
    }

    /** A missing wait is an error the caller sees, and reading changes nothing. */
    method Read(id: WaitId) returns (r: Result<WaitRecord, ReadError>)
      ensures r == if id in store then Ok(store[id]) else Err(NotFound)
    {
      if id !in store {
        return Err(NotFound);
      }
      return Ok(store[id]);
    }

    /** Replaces or adds one record under its own id; every other record stays. */
    method WriteRecord(r: WaitRecord)
      modifies this
      ensures store == old(store)[r.waitId := r]
    {
      store := store[r.waitId := r];
    }

    /**
     The matching active record created last, if any; otherwise a new pending record. A caller may
     rely on getting a record that matches its inputs, and on no stored record changing when one is
     found.
     */
    method Register(inputs: RegisterWait, id: WaitId, now: Time) returns (r: WaitRecord)
      modifies this
      ensures store == RegisterStep(old(store), inputs, id, now)
      ensures HasMatch(old(store), inputs) ==>
                && (exists x :: x in old(store) && old(store)[x] == r)
                && Matches(r, inputs)
                && (forall x :: x in old(store) && Matches(old(store)[x], inputs) ==>
                    old(store)[x].createdAt <= r.createdAt)
      ensures !HasMatch(old(store), inputs) ==> r == NewRecord(inputs, id, now)
    {
      var existing: Option<WaitRecord> := None;
      var rest := store.Keys;
      while rest != {}
        invariant rest <= store.Keys && store == old(store)
        invariant existing.None? ==> forall x :: x in store && x !in rest ==> !Matches(store[x], inputs)
        invariant existing.Some? ==>
                    && (exists x :: x in store && store[x] == existing.value)
                    && Matches(existing.value, inputs)
                    && (forall x :: x in store && x !in rest && Matches(store[x], inputs) ==>
                        store[x].createdAt <= existing.value.createdAt)
        decreases |rest|
      {
        var x :| x in rest;
        if Matches(store[x], inputs) && (existing.None? || existing.value.createdAt < store[x].createdAt) {
          existing := Some(store[x]);
        }
        rest := rest - {x};
      }
      if existing.Some? {
        return existing.value;
      }
      r := NewRecord(inputs, id, now);
      WriteRecord(r);
    }

    /** A caller gets the record as it is stored afterwards; once the wait is no longer pending, observing is a read. */
    method Observe(id: WaitId, state: Option<Observation>, now: Time) returns (r: Result<WaitRecord, ReadError>)
      requires Keyed(store)
      modifies this
      ensures store == SectionStep(old(store), id, Section.Observe(state, now))
      ensures r == if id in store then Ok(store[id]) else Err(NotFound)
    {
      var current := Read(id);
      if current.Err? || current.value.status != Pending {
        return current;
      }
      var observed := current.value.(updatedAt := now, lastObservedState := state);
      WriteRecord(observed);
      return Ok(observed);
    }

    /** The first completion of a pending wait stands; any later one is a read that returns what the first one wrote. */
    method Complete(id: WaitId, terminalResult: string, resumeMessage: string, state: Option<Observation>, now: Time)
      returns (r: Result<WaitRecord, ReadError>)
      requires Keyed(store)
      modifies this
      ensures store == SectionStep(old(store), id, Section.Complete(terminalResult, resumeMessage, state, now))
      ensures r == if id in store then Ok(store[id]) else Err(NotFound)
    {
      var current := Read(id);
      if current.Err? || current.value.status != Pending {
        return current;
      }
      var completed := current.value.(
        status := Ready, updatedAt := now, terminalResult := terminalResult,
        lastObservedState := state, resumeMessage := resumeMessage);
      WriteRecord(completed);
      return Ok(completed);
    }

    /** There is no status guard: whatever the record's status, the caller may rely on it being consumed afterwards. */
    method MarkResumed(id: WaitId, now: Time) returns (r: Result<WaitRecord, ReadError>)
      requires Keyed(store)
      modifies this
      ensures store == SectionStep(old(store), id, Section.MarkResumed(now))
      ensures r == if id in store then Ok(store[id]) else Err(NotFound)
    {
      var current := Read(id);
      if current.Err? {
        return current;
      }
      var resumed := current.value.(status := Resumed, updatedAt := now);
      WriteRecord(resumed);
      return Ok(resumed);
    }

    /** A caller that gets the record is the only one to notify for it: it was ready, and is no longer. */
    method ClaimTerminalNotification(id: WaitId, now: Time) returns (r: Result<Option<WaitRecord>, ReadError>)
      requires Keyed(store)
      modifies this
      ensures store == SectionStep(old(store), id, ClaimNotification(now))
      ensures r == if id !in old(store) then Err(NotFound)
                   else if old(store)[id].status == Ready then Ok(Some(store[id])) else Ok(None)
    {
      var current := Read(id);
      if current.Err? {
        return Err(current.error);
      }
      if !current.value.NotificationReady() {
        return Ok(None);
      }
      var metadata := current.value.Meta();
      metadata := metadata[NotificationClaimedAt := Stamp(now)];
      var claimed := current.value.(status := Notifying, updatedAt := now, metadata := Some(metadata));
      WriteRecord(claimed);
      return Ok(Some(claimed));
    }

    /** A caller that gets the record is the first to see this kind of observation; nobody gets it again. */
    method ClaimTheObservation(id: WaitId, kind: ObservationKind, now: Time)
      returns (r: Result<Option<WaitRecord>, ReadError>)
      requires Keyed(store)
      modifies this
      ensures store == SectionStep(old(store), id, ClaimObservation(kind, now))
      ensures r == if id !in old(store) then Err(NotFound)
                   else if Run(old(store)[id], ClaimObservation(kind, now)).Write? then Ok(Some(store[id]))
                   else Ok(None)
    {
      var current := Read(id);
      if current.Err? {
        return Err(current.error);
      }
      var metadata := current.value.Meta();
      var eligible := kind != TerminalSeen || current.value.IsReady();
      if !eligible || KeyOf(kind) in metadata {
        return Ok(None);
      }
      metadata := metadata[KeyOf(kind) := Stamp(now)];
      var observed := current.value.(metadata := Some(metadata));
      WriteRecord(observed);
      return Ok(Some(observed));
    }

    /**
     Only a claimed notification is finished; a caller that lost its claim changes nothing and sees
     the present record.
     */
    method FinishTerminalNotification(id: WaitId, resumed: bool, reason: string, now: Time)
      returns (r: Result<WaitRecord, ReadError>)
      requires Keyed(store)
      modifies this
      ensures store == SectionStep(old(store), id, FinishNotification(resumed, reason, now))
      ensures r == if id in store then Ok(store[id]) else Err(NotFound)
    {
      var current := Read(id);
      if current.Err? || current.value.status != Notifying {
        return current;
      }
      var metadata := current.value.Meta();
      metadata := metadata[NotificationFinishedAt := Stamp(now)];
      var status;
      if resumed {
        status := Resumed;
        metadata := metadata - {NotificationFailureReason};
      } else {
        status := NotifyFailed;
        metadata := metadata[NotificationFailureReason := Text(SafeFailureReason(reason))];
      }
      var finished := current.value.(status := status, updatedAt := now, metadata := Some(metadata));
      WriteRecord(finished);
      return Ok(finished);
    }

    /**
     A caller that gets the record may restart the watcher: the wait is pending and its last sign of
     life is stale.
     */
    method ClaimWatcherRepair(id: WaitId, active: bool, staleAfter: int, checkedAt: Time, now: Time)
      returns (r: Result<Option<WaitRecord>, ReadError>)
      requires Keyed(store)
      modifies this
      ensures store == SectionStep(old(store), id, ClaimRepair(active, staleAfter, checkedAt, now))
      ensures r == if id !in old(store) then Err(NotFound)
                   else match RepairEligible(old(store)[id], active, staleAfter, checkedAt)
                        case Eligible => Ok(Some(store[id]))
                        case Ineligible => Ok(None)
                        case Unparsable => Err(BadTimestamp)
    {
      var current := Read(id);
      if current.Err? {
        return Err(current.error);
      }
      var eligibility := RepairEligible(current.value, active, staleAfter, checkedAt);
      if eligibility.Unparsable? {
        return Err(BadTimestamp);
      }
      if eligibility.Ineligible? {
        return Ok(None);
      }
      var metadata := current.value.Meta();
      metadata := metadata[WatcherStrategy := WATCHER_REPAIRING];
      metadata := metadata[WatcherRepairClaimedAt := Stamp(now)];
      metadata := metadata - {WatcherPid};
      var claimed := current.value.(updatedAt := now, metadata := Some(metadata));
      WriteRecord(claimed);
      return Ok(Some(claimed));
    }

    /** The watcher marks: apply updates, then removals, while the wait is pending. Removals win over updates. */
    method UpdateMetadata(id: WaitId, updates: Metadata, remove: set<MetaKey>, clearFailure: bool, now: Time)
      returns (r: Result<WaitRecord, ReadError>)
      requires Keyed(store)
      modifies this
      ensures id !in old(store) ==> store == old(store) && r == Err(NotFound)
      ensures id in old(store) ==> r.Ok? && store == old(store)[id := r.value]
      ensures id in old(store) ==>
                var was := old(store)[id];
                var cleared: set<MetaKey> := if clearFailure then {WatcherError, WatcherRepairClaimedAt} else {};
                r.value == if was.status != Pending then was
                           else was.(updatedAt := now, metadata := Some(was.Meta() + updates - remove - cleared))
    {
      var current := Read(id);
      if current.Err? || current.value.status != Pending {
        if current.Ok? {
          assert store == store[id := current.value];
        }
        return current;
      }
      var metadata := current.value.Meta() + updates;
      metadata := metadata - remove;
      if clearFailure {
        metadata := metadata - {WatcherError};
        metadata := metadata - {WatcherRepairClaimedAt};
        assert metadata == current.value.Meta() + updates - remove - {WatcherError, WatcherRepairClaimedAt};
      } else {
        assert metadata == metadata - {};
      }
      var updated := current.value.(updatedAt := now, metadata := Some(metadata));
      WriteRecord(updated);
      return Ok(updated);
    }

    /**
     Afterwards a pending wait shows this watcher as started and polled at `stamp`, with no failure
     and no repair claim.
     */
    method MarkWatcherStarted(id: WaitId, strategy: MetaValue, pid: Option<int>, stamp: Time, now: Time)
      returns (r: Result<WaitRecord, ReadError>)
      requires Keyed(store)
      modifies this
      ensures store == SectionStep(old(store), id, WatcherStarted(strategy, pid, stamp, now))
      ensures r == if id in store then Ok(store[id]) else Err(NotFound)
    {
      var updates := map[WatcherStrategy := strategy, WatcherStartedAt := Stamp(stamp),
          WatcherLastPollAt := Stamp(stamp)];
      if pid.Some? {
        updates := updates[WatcherPid := Number(pid.value)];
      }
      var remove := if pid.None? then {WatcherPid} else {};
      r := UpdateMetadata(id, updates, remove, true, now);
      if id in old(store) && old(store)[id].status == Pending {
        assert old(store)[id].Meta() + updates - remove - {WatcherError, WatcherRepairClaimedAt}
            == StartedMetadata(old(store)[id].Meta(), strategy, pid, stamp);
      }
    }

    /** Afterwards a pending wait shows a poll at `stamp`; nothing else of its metadata changes. */
    method MarkWatcherPoll(id: WaitId, stamp: Time, now: Time) returns (r: Result<WaitRecord, ReadError>)
      requires Keyed(store)
      modifies this
      ensures store == SectionStep(old(store), id, WatcherPoll(stamp, now))
      ensures r == if id in store then Ok(store[id]) else Err(NotFound)
    {
      r := UpdateMetadata(id, map[WatcherLastPollAt := Stamp(stamp)], {}, false, now);
      if id in old(store) && old(store)[id].status == Pending {
        assert old(store)[id].Meta() + map[WatcherLastPollAt := Stamp(stamp)] - {} - {}
            == old(store)[id].Meta()[WatcherLastPollAt := Stamp(stamp)];
      }
    }

    /** Afterwards a pending wait shows a failed watcher without a process, under one of the known failure codes. */
    method MarkWatcherFailed(id: WaitId, code: string, now: Time) returns (r: Result<WaitRecord, ReadError>)
      requires Keyed(store)
      modifies this
      ensures store == SectionStep(old(store), id, WatcherFailed(code, now))
      ensures r == if id in store then Ok(store[id]) else Err(NotFound)
    {
      var updates := map[WatcherStrategy := WATCHER_FAILED, WatcherError := Text(SafeCode(code))];
      r := UpdateMetadata(id, updates, {WatcherPid}, false, now);
      if id in old(store) && old(store)[id].status == Pending {
        assert old(store)[id].Meta() + updates - {WatcherPid} - {} == FailedMetadata(old(store)[id].Meta(), code);
      }
    }

    /** The locked section of one record inside the heartbeat sweep. */
    method ClaimHeartbeatOf(id: WaitId, now: Time) returns (written: Option<WaitRecord>)
      requires Keyed(store) && id in store
      modifies this
      ensures store == SectionStep(old(store), id, ClaimHeartbeat(now))
      ensures written == WrittenBy(old(store)[id], ClaimHeartbeat(now))
    {
      var current := store[id];
      if !(current.IsReady() && Field(current, HeartbeatMode) == Some(HEARTBEAT_MODE_REPO)
           && HeartbeatNotifiedAt !in current.Meta()) {
        return None;
      }
      var metadata := current.Meta()[HeartbeatNotifiedAt := Stamp(now)];
      var notified := current.(updatedAt := now, metadata := Some(metadata));
      WriteRecord(notified);
      return Some(notified);
    }

    /** The locked section of one record inside the expiry sweep. */
    method ExpireReadyOf(id: WaitId, olderThan: int, now: Time) returns (written: Option<WaitRecord>)
      requires Keyed(store) && id in store
      modifies this
      ensures store == SectionStep(old(store), id, Section.ExpireReady(olderThan, now))
      ensures written == WrittenBy(old(store)[id], Section.ExpireReady(olderThan, now))
    {
      var latest := store[id];
      if !(latest.IsReady() && olderThan >= 0 && now - latest.updatedAt >= olderThan) {
        return None;
      }
      var metadata := latest.Meta()[ExpiredReason := Text("ready_ttl")];
      var updated := latest.(status := ExpiredReady, updatedAt := now, metadata := Some(metadata));
      WriteRecord(updated);
      return Some(updated);
    }

    /** The locked section of one record inside the lease repair. */
    method RepairNotificationOf(id: WaitId, lease: nat, checkedAt: Time, now: Time)
      returns (written: Option<WaitRecord>)
      requires Keyed(store) && id in store
      modifies this
      ensures store == SectionStep(old(store), id, RepairNotification(lease, checkedAt, now))
      ensures written == WrittenBy(old(store)[id], RepairNotification(lease, checkedAt, now))
    {
      var current := store[id];
      if !(current.status == Notifying && checkedAt - current.updatedAt >= lease) {
        return None;
      }
      var finished := FinishedNotification(current, false, FAILURE_LEASE_EXPIRED, now);
      WriteRecord(finished);
      return Some(finished);
    }

    /**
     Claims every ready repo-heartbeat record that has not notified yet. A caller may rely on each
     reported record being claimed by this call, and on no unreported record having changed.
     */
    method ClaimReadyForNotification(now: Time) returns (claimed: seq<WaitRecord>)
      requires Keyed(store)
      modifies this
      ensures store == Sweep(old(store), ClaimHeartbeat(now))
      ensures Reports(old(store), old(store).Keys, ClaimHeartbeat(now), claimed)
    {
      hide Run, Reports, SectionStep;
      claimed := [];
      ghost var s := ClaimHeartbeat(now);
      NothingSwept(store, s);
      var rest := store.Keys;
      while rest != {}
        invariant rest <= old(store).Keys && SweptOutside(old(store), store, rest, s)
        invariant Reports(old(store), old(store).Keys - rest, s, claimed)
        decreases |rest|
      {
        var id :| id in rest;
        SweepNext(old(store), store, rest, id, s, claimed);
        var written := ClaimHeartbeatOf(id, now);
        rest := rest - {id};
        if written.Some? {
          claimed := claimed + [written.value];
        }
      }
      SweptAll(old(store), store, s);
      assert old(store).Keys - rest == old(store).Keys;
    }

    /** Expires the ready records left alone for too long; exactly those reported have changed. */
    method ExpireReadyRecords(olderThan: int, now: Time) returns (expired: seq<WaitRecord>)
      requires Keyed(store)
      modifies this
      ensures store == Sweep(old(store), Section.ExpireReady(olderThan, now))
      ensures Reports(old(store), old(store).Keys, Section.ExpireReady(olderThan, now), expired)
    {
      hide Run, Reports, SectionStep;
      expired := [];
      ghost var s := Section.ExpireReady(olderThan, now);
      NothingSwept(store, s);
      var rest := store.Keys;
      while rest != {}
        invariant rest <= old(store).Keys && SweptOutside(old(store), store, rest, s)
        invariant Reports(old(store), old(store).Keys - rest, s, expired)
        decreases |rest|
      {
        var id :| id in rest;
        SweepNext(old(store), store, rest, id, s, expired);
        var written := ExpireReadyOf(id, olderThan, now);
        rest := rest - {id};
        if written.Some? {
          expired := expired + [written.value];
        }
      }
      SweptAll(old(store), store, s);
      assert old(store).Keys - rest == old(store).Keys;
    }

    /**
     Fails closed the abandoned notification claims, of all waits or of the one given. A caller may
     rely on a claim younger than the lease, and on every other wait, being left alone.
     */
    method RepairStaleNotifications(lease: int, only: Option<WaitId>, checkedAt: Time, now: Time)
      returns (repaired: seq<WaitRecord>)
      requires Keyed(store)
      modifies this
      ensures store == SweepOf(old(store), Targets(old(store), only), RepairNotification(lease, checkedAt, now))
      ensures Reports(old(store), Targets(old(store), only), RepairNotification(lease, checkedAt, now), repaired)
    {
      hide Run, Reports, SectionStep, SweepOf, Applied, SweptSoFar;
      repaired := [];
      ghost var s := RepairNotification(lease, checkedAt, now);
      ghost var targets := Targets(store, only);
      if lease < 0 {
        NothingRepaired(store, targets, lease, checkedAt, now);
        return;
      }
      var rest := store.Keys;
      SweepStarts(store, targets, s);
      while rest != {}
        invariant rest <= old(store).Keys == store.Keys && Keyed(store)
        invariant SweptSoFar(old(store), store, rest, targets, s, repaired)
        decreases |rest|
      {
        var id :| id in rest;
        SweepGoesOn(old(store), store, rest, targets, id, s, repaired);
        if only.None? || id == only.value {
          var written := RepairNotificationOf(id, lease, checkedAt, now);
          if written.Some? {
            repaired := repaired + [written.value];
          }
        }
        rest := rest - {id};
      }
      SweepEnds(old(store), store, targets, s, repaired);
    }
  }

  /** The targets outside `rest` have been swept and reported, and nothing else has changed. */
  ghost predicate SweptSoFar(
    was: Store, store: Store, rest: set<WaitId>, targets: set<WaitId>, section: Section, written: seq<WaitRecord>)
  {
    var unswept := rest + (was.Keys - targets);
    SweptOutside(was, store, unswept, section) && Reports(was, was.Keys - unswept, section, written)
  }

  lemma {:induction false} SweepStarts(store: Store, targets: set<WaitId>, section: Section)
    requires Keyed(store)
    ensures SweptSoFar(store, store, store.Keys, targets, section, [])
  {
    hide Reports, SweptOutside;
    NothingSwept(store, section);
    assert store.Keys + (store.Keys - targets) == store.Keys;
  }

  /** The next record, whether it is a target or skipped. */
  lemma {:induction false} SweepGoesOn(
    was: Store, store: Store, rest: set<WaitId>, targets: set<WaitId>, id: WaitId, section: Section,
    written: seq<WaitRecord>)
    requires Keyed(was) && SweptSoFar(was, store, rest, targets, section, written) && id in rest && rest <= was.Keys
    ensures id !in targets ==> SweptSoFar(was, store, rest - {id}, targets, section, written)
    ensures id in targets && id in store ==>
              var after, w := SectionStep(store, id, section), WrittenBy(store[id], section);
              && SweptSoFar(was, after, rest - {id}, targets, section, if w.Some? then written + [w.value] else written)
              && after.Keys == was.Keys && Keyed(after)
  {
    hide Reports, Run;
    var skipped := was.Keys - targets;
    OneLess(rest, skipped, id);
    if id in targets {
      SweepNext(was, store, rest + skipped, id, section, written);
    }
  }

  lemma {:induction false} SweepEnds(
    was: Store, store: Store, targets: set<WaitId>, section: Section, written: seq<WaitRecord>)
    requires SweptSoFar(was, store, {}, targets, section, written) && targets <= was.Keys
    ensures store == SweepOf(was, targets, section) && Reports(was, targets, section, written)
  {
    hide Reports, Applied;
    assert {} + (was.Keys - targets) == was.Keys - targets && was.Keys - (was.Keys - targets) == targets;
  }

  lemma {:induction false} OneLess(rest: set<WaitId>, skipped: set<WaitId>, id: WaitId)
    requires id in rest
    ensures id in skipped ==> rest - {id} + skipped == rest + skipped
    ensures id !in skipped ==> rest - {id} + skipped == rest + skipped - {id}
  {
  }

  lemma {:induction false} NothingRepaired(store: Store, ids: set<WaitId>, lease: int, checkedAt: Time, now: Time)
    requires lease < 0
    ensures var s := RepairNotification(lease, checkedAt, now);
            SweepOf(store, ids, s) == store && Reports(store, ids, s, [])
  {
  }

  /** The records a repair is about: all of them, or the one it is given if that is stored. */
  function Targets(store: Store, only: Option<WaitId>): set<WaitId> {
    if only.None? then store.Keys else store.Keys * {only.value}
  }

  function WrittenBy(r: WaitRecord, section: Section): Option<WaitRecord> {
    match Run(r, section)
    case Write(w) => Some(w)
    case _ => None
  }

  /** Every record outside `rest` has been swept, the others are as they were. */
  ghost predicate SweptOutside(was: Store, store: Store, rest: set<WaitId>, section: Section) {
    && store.Keys == was.Keys
    && Keyed(store)
    && forall x :: x in was ==> store[x] == if x in rest then was[x] else Applied(was[x], section)
  }

  lemma {:induction false} NothingSwept(store: Store, section: Section)
    requires Keyed(store)
    ensures SweptOutside(store, store, store.Keys, section)
    ensures Reports(store, store.Keys - store.Keys, section, [])
  {
  }

  lemma {:induction false} SweptAll(was: Store, store: Store, section: Section)
    requires SweptOutside(was, store, {}, section)
    ensures store == Sweep(was, section)
  {
  }

  lemma {:induction false} SweptNext(was: Store, store: Store, rest: set<WaitId>, id: WaitId, section: Section)
    requires SweptOutside(was, store, rest, section) && id in rest && rest <= was.Keys
    ensures SweptOutside(was, SectionStep(store, id, section), rest - {id}, section)
  {
    RunKeepsId(store[id], section);
    hide Run;
  }

  /** Running the section on one more record extends what is swept and what is reported. */
  lemma {:induction false} SweepNext(
    was: Store, store: Store, rest: set<WaitId>, id: WaitId, section: Section, written: seq<WaitRecord>)
    requires Keyed(was) && SweptOutside(was, store, rest, section) && id in rest && rest <= was.Keys
    requires Reports(was, was.Keys - rest, section, written)
    ensures SweptOutside(was, SectionStep(store, id, section), rest - {id}, section)
    ensures var w := WrittenBy(store[id], section);
            Reports(was, was.Keys - (rest - {id}), section, if w.Some? then written + [w.value] else written)
  {
    var done := was.Keys - (rest - {id});
    assert done - {id} == was.Keys - rest;
    ReportsMore(was, done, id, section, written);
    SweptNext(was, store, rest, id, section);
    hide Run, Reports;
  }

  lemma {:induction false} RunKeepsId(r: WaitRecord, section: Section)
    ensures Run(r, section).Write? ==> Run(r, section).record.waitId == r.waitId
  {
  }

  /** One more record: the report grows by what the section writes for it. */
  lemma {:induction false} ReportsMore(
    store: Store, done: set<WaitId>, id: WaitId, section: Section, written: seq<WaitRecord>)
    requires Keyed(store) && id in store && id in done
    requires Reports(store, done - {id}, section, written)
    ensures Run(store[id], section).Write? ==> Reports(store, done, section, written + [Run(store[id], section).record])
    ensures !Run(store[id], section).Write? ==> Reports(store, done, section, written)
  {
    if Run(store[id], section).Write? {
      var w := Run(store[id], section).record;
      SectionKeeps(store[id], section);
      forall i | 0 <= i < |written| ensures written[i] != w {
        assert written[i] in written;
        var x :| x in done - {id} && x in store && Run(store[x], section) == Write(written[i]);
        SectionKeeps(store[x], section);
      }
    }
  }
}
