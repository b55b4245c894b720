/**
 When two repair claims of one watcher are spaced: which clock reading decides about the next claim,
 in terms of the sections that took effect since the last one.
 */
module WaitSpacing {
  import opened Wrappers
  import opened WaitRecords
  import opened WaitProtocol

  /** The watcher shows a sign of life. */
  predicate IsSign(s: Section) {
    s.WatcherStarted? || s.WatcherPoll?
  }

  /** The section replaces the watcher strategy that a repair claim sets. */
  predicate Moves(s: Section) {
    s.WatcherStarted? || s.WatcherFailed?
  }

  /** The section writes the update time of the record. */
  predicate Touches(s: Section) {
    !s.ClaimObservation?
  }

  /** The last section of a kind in a list. */
  function Last(sections: seq<Section>, kind: Section -> bool): (last: Option<Section>)
    ensures last.Some? ==> kind(last.value)
  {
    if sections == [] then None
    else
      var end := sections[|sections| - 1];
      if kind(end) then Some(end) else Last(sections[..|sections| - 1], kind)
  }

  lemma {:induction false} LastIs(sections: seq<Section>, kind: Section -> bool, k: nat)
    requires k < |sections| && kind(sections[k]) && forall m :: k < m < |sections| ==> !kind(sections[m])
    ensures Last(sections, kind) == Some(sections[k])
  {
    if k < |sections| - 1 {
      LastIs(sections[..|sections| - 1], kind, k);
    }
  }

  lemma {:induction false} LastNone(sections: seq<Section>, kind: Section -> bool)
    ensures Last(sections, kind).None? <==> forall k :: 0 <= k < |sections| ==> !kind(sections[k])
  {
    if sections != [] {
      LastNone(sections[..|sections| - 1], kind);
    }
  }

  lemma {:induction false} LastPlace(sections: seq<Section>, kind: Section -> bool) returns (k: nat)
    requires Last(sections, kind).Some?
    ensures k < |sections| && Last(sections, kind) == Some(sections[k]) && kind(sections[k])
    ensures forall m :: k < m < |sections| ==> !kind(sections[m])
  {
    k := |sections| - 1;
    if !kind(sections[k]) {
      k := LastPlace(sections[..k], kind);
    }
  }

  /** The last sign of life a record shows, or the time of its creation. */
  function LastSign(r: WaitRecord): MetaValue {
    Preferred(Field(r, WatcherLastPollAt), Preferred(Field(r, WatcherStartedAt), Stamp(r.createdAt)))
  }

  /**
   The reading that decides about the next claim: the claim's own time while no start or failure took
   effect since; the time of the last update after a start that calls its own strategy repairing;
   otherwise the last start or poll since the claim, or the last sign of life before it.
   */
  function Deciding(
    claimedAt: Time, before: WaitRecord, moved: Option<Section>, sign: Option<Section>,
    touched: Option<Section>): MetaValue
    requires moved.Some? ==> Moves(moved.value)
    requires sign.Some? ==> IsSign(sign.value)
  {
    if moved.None? then Stamp(claimedAt)
    else if moved.value.WatcherStarted? && moved.value.strategy == WATCHER_REPAIRING
    then Stamp(if touched.Some? then touched.value.now else claimedAt)
    else if sign.Some? then Stamp(sign.value.stamp)
    else LastSign(before)
  }

  /** What a record shows after a claim, in terms of the last sections of each kind since. */
  ghost predicate Shows(
    r: WaitRecord, before: WaitRecord, claimedAt: Time, moved: Option<Section>, sign: Option<Section>,
    touched: Option<Section>)
    requires moved.Some? ==> Moves(moved.value)
    requires sign.Some? ==> IsSign(sign.value)
  {
    && (moved.None? ==>
          && Field(r, WatcherStrategy) == Some(WATCHER_REPAIRING)
          && Field(r, WatcherRepairClaimedAt) == Some(Stamp(claimedAt)))
    && (moved.Some? && moved.value.WatcherStarted? ==>
          && Field(r, WatcherStrategy) == Some(moved.value.strategy)
          && Field(r, WatcherRepairClaimedAt) == None)
    && (moved.Some? && moved.value.WatcherFailed? ==> Field(r, WatcherStrategy) == Some(WATCHER_FAILED))
    && (if sign.Some? then Field(r, WatcherLastPollAt) == Some(Stamp(sign.value.stamp))
        else && Field(r, WatcherLastPollAt) == Field(before, WatcherLastPollAt)
             && Field(r, WatcherStartedAt) == Field(before, WatcherStartedAt))
    && r.updatedAt == (if touched.Some? then touched.value.now else claimedAt)
    && r.createdAt == before.createdAt
  }

  lemma {:induction false} ClaimShows(before: WaitRecord, s: Section)
    requires s.ClaimRepair? && Run(before, s).Write?
    ensures Shows(Run(before, s).record, before, s.now, None, None, None)
  {
  }

  /** What the sections do to the four watcher fields the reference depends on. */
  lemma {:induction false} FieldsNext(r: WaitRecord, s: Section)
    requires Run(r, s).Write? && !s.ClaimRepair?
    ensures var w := Run(r, s).record;
            && Field(w, WatcherStrategy) == (if s.WatcherStarted? then Some(s.strategy)
                                             else if s.WatcherFailed? then Some(WATCHER_FAILED)
                                             else Field(r, WatcherStrategy))
            && Field(w, WatcherRepairClaimedAt)
                == (if s.WatcherStarted? then None else Field(r, WatcherRepairClaimedAt))
            && Field(w, WatcherLastPollAt) == (if IsSign(s) then Some(Stamp(s.stamp)) else Field(r, WatcherLastPollAt))
            && (!s.WatcherStarted? ==> Field(w, WatcherStartedAt) == Field(r, WatcherStartedAt))
            && w.updatedAt == (if Touches(s) then s.now else r.updatedAt) && w.createdAt == r.createdAt
  {
  }

  lemma {:induction false} ShowsNext(
    r: WaitRecord, s: Section, before: WaitRecord, claimedAt: Time,
    moved: Option<Section>, sign: Option<Section>, touched: Option<Section>)
    requires (moved.Some? ==> Moves(moved.value)) && (sign.Some? ==> IsSign(sign.value))
    requires Shows(r, before, claimedAt, moved, sign, touched) && Run(r, s).Write? && !s.ClaimRepair?
    ensures Shows(Run(r, s).record, before, claimedAt,
              if Moves(s) then Some(s) else moved, if IsSign(s) then Some(s) else sign,
                  if Touches(s) then Some(s) else touched)
  {
    FieldsNext(r, s);
    hide Run, Field;
  }

  lemma {:induction false} ShownReference(
    r: WaitRecord, before: WaitRecord, claimedAt: Time, moved: Option<Section>, sign: Option<Section>,
    touched: Option<Section>)
    requires (moved.Some? ==> Moves(moved.value)) && (sign.Some? ==> IsSign(sign.value))
    requires Shows(r, before, claimedAt, moved, sign, touched)
    ensures Reference(r) == Deciding(claimedAt, before, moved, sign, touched)
  {
    assert "failed"[0] != "repairing"[0];
  }

  // ----- over a run -----

  /** The sections that took effect on wait `id` between events `i` and `j`, in order. */
  function Taken(store: Store, events: seq<Event>, i: nat, j: nat, id: WaitId): seq<Section>
    requires j <= |events|
    decreases j
  {
    if j <= i + 1 then []
    else
      Taken(store, events, i, j - 1, id) + if Effective(store, events, j - 1, id) then [events[j - 1].section] else []
  }

  predicate Claims(s: Section) { s.ClaimRepair? }

  /** Event `i` is a successful repair claim of wait `id`, and no other one succeeds before event `j`. */
  ghost predicate LastClaim(store: Store, events: seq<Event>, i: nat, j: nat, id: WaitId) {
    && i < j <= |events| && Effective(store, events, i, id) && events[i].section.ClaimRepair?
    && forall k :: 0 <= k < |Taken(store, events, i, j, id)| ==> !Claims(Taken(store, events, i, j, id)[k])
  }

  function DecidingReading(claimedAt: Time, before: WaitRecord, taken: seq<Section>): MetaValue {
    Deciding(claimedAt, before, Last(taken, Moves), Last(taken, IsSign), Last(taken, Touches))
  }

  ghost predicate ShowsAll(r: WaitRecord, before: WaitRecord, claimedAt: Time, taken: seq<Section>) {
    Shows(r, before, claimedAt, Last(taken, Moves), Last(taken, IsSign), Last(taken, Touches))
  }

  lemma {:induction false} ShowsAllNext(
    r: WaitRecord, before: WaitRecord, claimedAt: Time, taken: seq<Section>, s: Section)
    requires ShowsAll(r, before, claimedAt, taken) && Run(r, s).Write? && !s.ClaimRepair?
    ensures ShowsAll(Run(r, s).record, before, claimedAt, taken + [s])
  {
    assert (taken + [s])[..|taken|] == taken;
    ShowsNext(r, s, before, claimedAt, Last(taken, Moves), Last(taken, IsSign), Last(taken, Touches));
    hide Run, Shows, Moves, IsSign, Touches;
  }

  lemma {:induction false} NothingTaken(r: WaitRecord, before: WaitRecord, claimedAt: Time)
    ensures ShowsAll(r, before, claimedAt, []) == Shows(r, before, claimedAt, None, None, None)
  {
  }

  lemma {:induction false} RunShows(store: Store, events: seq<Event>, i: nat, j: nat, id: WaitId)
    requires Keyed(store) && FreshRun(store, events) && LastClaim(store, events, i, j, id)
    ensures id in After(store, events[..i]) && id in After(store, events[..j])
    ensures ShowsAll(After(store, events[..j])[id], After(store, events[..i])[id], events[i].section.now,
      Taken(store, events, i, j, id))
    decreases j
  {
    hide Step, After, Run, Shows, ShowsAll, Keyed, Fresh, FreshRun;
    var taken := Taken(store, events, i, j, id);
    if j == i + 1 {
      EffectiveWrites(store, events, i, id);
      ClaimShows(After(store, events[..i])[id], events[i].section);
      NothingTaken(After(store, events[..j])[id], After(store, events[..i])[id], events[i].section.now);
    } else {
      var earlier := Taken(store, events, i, j - 1, id);
      assert forall k :: 0 <= k < |earlier| ==> earlier[k] == taken[k];
      RunShows(store, events, i, j - 1, id);
      if Effective(store, events, j - 1, id) {
        EffectiveWrites(store, events, j - 1, id);
        assert taken[|earlier|] == events[j - 1].section;
        ShowsAllNext(After(store, events[..j - 1])[id], After(store, events[..i])[id], events[i].section.now,
            earlier, events[j - 1].section);
      } else {
        assert taken == earlier;
        StepElsewhere(store, events, j - 1, id);
      }
    }
  }

  /** Every later successful claim of the record comes at least its staleness bound after `since`. */
  ghost predicate ClaimsSpaced(r: WaitRecord, since: Time) {
    forall active, staleAfter, checkedAt, now ::
      since <= checkedAt && Run(r, ClaimRepair(active, staleAfter, checkedAt, now)).Write? ==>
          checkedAt - since >= staleAfter
  }

  lemma {:induction false} ClaimsSpacedIff(r: WaitRecord, since: Time)
    ensures ClaimsSpaced(r, since) <==> (r.status == Pending && Reference(r).Stamp? ==> since <= Reference(r).at)
  {
    if r.status == Pending && Reference(r).Stamp? && Reference(r).at < since {
      assert Run(r, ClaimRepair(false, since - Reference(r).at, since, since)).Write?;
    }
  }

  /**
   After a repair claim, the next one can only come at least its staleness bound later exactly when the
   deciding reading is not older than the claim, failures and starts of any kind included.
   */
  lemma {:induction false} RepairsSpacedIff(store: Store, events: seq<Event>, i: nat, j: nat, id: WaitId)
    requires Keyed(store) && FreshRun(store, events) && LastClaim(store, events, i, j, id)
    ensures id in After(store, events[..i]) && id in After(store, events[..j])
    ensures var r, since := After(store, events[..j])[id], events[i].section.now;
            var reading := DecidingReading(since, After(store, events[..i])[id], Taken(store, events, i, j, id));
            ClaimsSpaced(r, since) <==> (r.status == Pending && reading.Stamp? ==> since <= reading.at)
  {
    hide After, Taken, Last, Deciding, Shows, ClaimsSpaced, Run, Reference, Keyed, FreshRun;
    RunShows(store, events, i, j, id);
    var taken := Taken(store, events, i, j, id);
    var since, before, r := events[i].section.now, After(store, events[..i])[id], After(store, events[..j])[id];
    ShownReference(r, before, since, Last(taken, Moves), Last(taken, IsSign), Last(taken, Touches));
    ClaimsSpacedIff(r, since);
  }

  /** A failure, or a start that calls its own strategy repairing. */
  predicate Unusual(s: Section) {
    s.WatcherFailed? || (s.WatcherStarted? && s.strategy == WATCHER_REPAIRING)
  }

  /** The last start or poll carries a stamp at or after the claim. */
  predicate LastSignSince(taken: seq<Section>, since: Time) {
    exists k :: 0 <= k < |taken| && IsSign(taken[k]) && since <= taken[k].stamp && forall m :: k < m < |taken| ==>
        !IsSign(taken[m])
  }

  lemma {:induction false} UsualReading(claimedAt: Time, before: WaitRecord, taken: seq<Section>)
    requires forall k :: 0 <= k < |taken| ==> !Unusual(taken[k])
    ensures var reading := DecidingReading(claimedAt, before, taken);
            (reading.Stamp? ==> claimedAt <= reading.at)
            <==> (forall k :: 0 <= k < |taken| ==> !taken[k].WatcherStarted?) || LastSignSince(taken, claimedAt)
  {
    hide LastSign;
    LastNone(taken, Moves);
    LastNone(taken, IsSign);
    if Last(taken, Moves).Some? {
      var m := LastPlace(taken, Moves);
      assert !Unusual(taken[m]) && IsSign(taken[m]);
      var k := LastPlace(taken, IsSign);
      if LastSignSince(taken, claimedAt) {
        var n :| 0 <= n < |taken| && IsSign(taken[n]) && claimedAt <= taken[n].stamp &&
            forall l :: n < l < |taken| ==> !IsSign(taken[l]);
        LastIs(taken, IsSign, n);
      }
    }
  }

  /**
   Without failures, that is exactly when no start took effect since the claim, or the last start or poll
   since then carries a stamp at or after the claim.
   */
  lemma {:induction false} RepairsSpacedWithoutFailure(store: Store, events: seq<Event>, i: nat, j: nat, id: WaitId)
    requires Keyed(store) && FreshRun(store, events) && LastClaim(store, events, i, j, id)
    requires forall k :: 0 <= k < |Taken(store, events, i, j, id)| ==> !Unusual(Taken(store, events, i, j, id)[k])
    ensures id in After(store, events[..j])
    ensures var r, since, taken := After(store, events[..j])[id], events[i].section.now, Taken(store, events, i, j, id);
            ClaimsSpaced(r, since)
            <==> (r.status == Pending ==>
                   (forall k :: 0 <= k < |taken| ==> !taken[k].WatcherStarted?) || LastSignSince(taken, since))
  {
    hide After, Taken, DecidingReading, LastSignSince, ClaimsSpaced, Unusual, Keyed, FreshRun, Run;
    RepairsSpacedIff(store, events, i, j, id);
    UsualReading(events[i].section.now, After(store, events[..i])[id], Taken(store, events, i, j, id));
  }
}
