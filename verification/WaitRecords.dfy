/**
 Durable wait records and the read-modify-write sections that change them.

 A timestamp is an integer; parsing and rendering are inverse. A locked section of the
 registry, notification and watcher modules reads one record, decides, and writes at most
 one record back. `Run` is that decision. Sections that take the clock twice (before and
 inside the lock) carry both readings.
 */
module WaitRecords {
  import opened Wrappers

  type WaitId = string
  type Time = int

  datatype Status = Pending | Ready | Notifying | NotifyFailed | Resumed | ExpiredReady

  /** The metadata keys the wait modules own; `Custom` is any key a caller registers. */
  datatype MetaKey =
    | HeartbeatMode
    | HeartbeatNotifiedAt
    | RegistrationObservedAt
    | WatcherStartedObservedAt
    | FallbackUsedObservedAt
    | TerminalObservedAt
    | NotificationClaimedAt
    | NotificationFinishedAt
    | NotificationFailureReason
    | ExpiredReason
    | WatcherStrategy
    | WatcherPid
    | WatcherStartedAt
    | WatcherLastPollAt
    | WatcherError
    | WatcherRepairClaimedAt
    | Custom(name: string)

  /** A stored JSON value: a timestamp string, any other string, a number, or anything else. */
  datatype MetaValue = Stamp(at: Time) | Text(text: string) | Number(number: int) | Other(json: string)

  type Metadata = map<MetaKey, MetaValue>
  type Observation = map<string, MetaValue>

  datatype WaitRecord = WaitRecord(
    waitId: WaitId,
    kind: string,
    status: Status,
    targetId: string,
    repo: Option<string>,
    platform: string,
    branch: string,
    headSha: string,
    intervalSeconds: int,
    timeoutSeconds: int,
    createdAt: Time,
    updatedAt: Time,
    deadlineAt: Time,
    resumeInstruction: string,
    terminalResult: string,
    lastObservedState: Option<Observation>,
    resumeMessage: string,
    metadata: Option<Metadata>)
  {
    predicate IsReady() { status in {Ready, NotifyFailed} }

    predicate NotificationReady() { status == Ready }

    predicate IsActive() { status in {Pending, Ready, Notifying, NotifyFailed} }

    function Meta(): Metadata { if metadata.Some? then metadata.value else map[] }
  }

  /** The persisted inputs of a registration; `resumeInstruction` already holds its default. */
  datatype RegisterWait = RegisterWait(
    kind: string,
    targetId: string,
    repo: Option<string>,
    platform: string,
    branch: string,
    headSha: string,
    intervalSeconds: int,
    timeoutSeconds: int,
    resumeInstruction: string,
    metadata: Option<Metadata>)

  const HEARTBEAT_MODE_REPO := Text("repo")
  const WATCHER_REPAIRING := Text("repairing")
  const WATCHER_FAILED := Text("failed")
  const FAILURE_LEASE_EXPIRED := "notification_lease_expired"
  const FAILURE_GENERIC := "notification_failed"
  const ALLOWED_FAILURE_REASONS :=
    {"app_server_error", "visible_wake_unconfirmed", FAILURE_LEASE_EXPIRED}
  const WATCHER_FAILURE_CODES :=
    {"launchd_required", "watcher_start_failed", "watcher_repair_failed"}

  // ----- registration -----

  predicate SameIdentity(r: WaitRecord, kind: string, targetId: string, repo: Option<string>, headSha: string) {
    if r.kind != kind || r.targetId != targetId then false
    else if kind == "github-pr" then r.repo == repo && r.headSha == headSha
    else if kind == "github-run" then r.repo == repo
    else if kind == "verifier" then r.headSha == headSha
    else r.repo == repo && r.headSha == headSha
  }

  predicate Matches(r: WaitRecord, inputs: RegisterWait) {
    SameIdentity(r, inputs.kind, inputs.targetId, inputs.repo, inputs.headSha) && r.IsActive()
  }

  function RegistrationMetadata(metadata: Option<Metadata>): Metadata {
    var current: Metadata := if metadata.Some? then metadata.value else map[];
    if HeartbeatMode in current then current else current[HeartbeatMode := HEARTBEAT_MODE_REPO]
  }

  function NewRecord(inputs: RegisterWait, id: WaitId, now: Time): WaitRecord {
    WaitRecord(
      id, inputs.kind, Pending, inputs.targetId, inputs.repo, inputs.platform, inputs.branch,
      inputs.headSha, inputs.intervalSeconds, inputs.timeoutSeconds, now, now,
      now + inputs.timeoutSeconds, inputs.resumeInstruction, "", None, "",
      Some(RegistrationMetadata(inputs.metadata)))
  }

  // ----- watcher facts -----

  predicate Truthy(v: Option<MetaValue>) {
    v.Some? && (v.value.Stamp? || (v.value.Text? && v.value.text != ""))
  }

  function Field(r: WaitRecord, key: MetaKey): Option<MetaValue> {
    if key in r.Meta() then Some(r.Meta()[key]) else None
  }

  /** A record's field if it holds non-empty text, otherwise the fallback. */
  function Preferred(v: Option<MetaValue>, fallback: MetaValue): MetaValue {
    if Truthy(v) then v.value else fallback
  }

  /** The text whose age decides whether the watcher is stale. */
  function Reference(r: WaitRecord): MetaValue {
    if Field(r, WatcherStrategy) == Some(WATCHER_REPAIRING)
    then Preferred(Field(r, WatcherRepairClaimedAt), Stamp(r.updatedAt))
    else Preferred(Field(r, WatcherLastPollAt), Preferred(Field(r, WatcherStartedAt), Stamp(r.createdAt)))
  }

  datatype Eligibility = Eligible | Ineligible | Unparsable

  function RepairEligible(r: WaitRecord, active: bool, staleAfter: int, now: Time): Eligibility {
    if r.status != Pending || active then Ineligible
    else if !Reference(r).Stamp? then Unparsable
    else if 0 <= staleAfter <= now - Reference(r).at then Eligible
    else Ineligible
  }

  // ----- the locked sections -----

  datatype ObservationKind = RegistrationSeen | WatcherStartSeen | FallbackSeen | TerminalSeen

  function KeyOf(kind: ObservationKind): MetaKey {
    match kind
    case RegistrationSeen => RegistrationObservedAt
    case WatcherStartSeen => WatcherStartedObservedAt
    case FallbackSeen => FallbackUsedObservedAt
    case TerminalSeen => TerminalObservedAt
  }

  datatype Section =
    | Observe(state: Option<Observation>, now: Time)
    | Complete(terminalResult: string, resumeMessage: string, state: Option<Observation>, now: Time)
    | MarkResumed(now: Time)
    | ClaimHeartbeat(now: Time)
    | ExpireReady(olderThan: int, now: Time)
    | ClaimNotification(now: Time)
    | ClaimObservation(kind: ObservationKind, now: Time)
    | FinishNotification(resumed: bool, reason: string, now: Time)
    | RepairNotification(lease: int, checkedAt: Time, now: Time)
    | WatcherStarted(strategy: MetaValue, pid: Option<int>, stamp: Time, now: Time)
    | WatcherPoll(stamp: Time, now: Time)
    | WatcherFailed(code: string, now: Time)
    | ClaimRepair(active: bool, staleAfter: int, checkedAt: Time, now: Time)

  /** What a section does with the record it read: leave it, write a new one, or raise. */
  datatype Outcome = Keep | Write(record: WaitRecord) | Raise

  function SafeFailureReason(reason: string): string {
    if reason in ALLOWED_FAILURE_REASONS then reason else FAILURE_GENERIC
  }

  function SafeCode(code: string): string {
    if code in WATCHER_FAILURE_CODES then code else "watcher_failed"
  }

  function FinishedNotification(r: WaitRecord, resumed: bool, reason: string, now: Time): WaitRecord {
    var finished := r.Meta()[NotificationFinishedAt := Stamp(now)];
    if resumed then
      r.(status := Resumed, updatedAt := now, metadata := Some(finished - {NotificationFailureReason}))
    else
      r.(status := NotifyFailed, updatedAt := now,
         metadata := Some(finished[NotificationFailureReason := Text(SafeFailureReason(reason))]))
  }

  function StartedMetadata(m: Metadata, strategy: MetaValue, pid: Option<int>, stamp: Time): Metadata {
    var updated := m[WatcherStrategy := strategy][WatcherStartedAt := Stamp(stamp)][WatcherLastPollAt := Stamp(stamp)];
    var withPid := if pid.Some? then updated[WatcherPid := Number(pid.value)] else updated - {WatcherPid};
    withPid - {WatcherError, WatcherRepairClaimedAt}
  }

  function FailedMetadata(m: Metadata, code: string): Metadata {
    m[WatcherStrategy := WATCHER_FAILED][WatcherError := Text(SafeCode(code))] - {WatcherPid}
  }

  function RepairingMetadata(m: Metadata, now: Time): Metadata {
    m[WatcherStrategy := WATCHER_REPAIRING][WatcherRepairClaimedAt := Stamp(now)] - {WatcherPid}
  }

  function Run(r: WaitRecord, s: Section): Outcome {
    match s
    case Observe(state, now) =>
      if r.status != Pending then Keep
      else Write(r.(updatedAt := now, lastObservedState := state))
    case Complete(terminalResult, resumeMessage, state, now) =>
      if r.status != Pending then Keep
      else Write(r.(status := Ready, updatedAt := now, terminalResult := terminalResult,
                    lastObservedState := state, resumeMessage := resumeMessage))
    case MarkResumed(now) => Write(r.(status := Resumed, updatedAt := now))
    case ClaimHeartbeat(now) =>
      if r.IsReady() && Field(r, HeartbeatMode) == Some(HEARTBEAT_MODE_REPO) && HeartbeatNotifiedAt !in r.Meta()
      then Write(r.(updatedAt := now, metadata := Some(r.Meta()[HeartbeatNotifiedAt := Stamp(now)])))
      else Keep
    case ExpireReady(olderThan, now) =>
      if !r.IsReady() || olderThan < 0 || now - r.updatedAt < olderThan then Keep
      else Write(r.(status := ExpiredReady, updatedAt := now,
                    metadata := Some(r.Meta()[ExpiredReason := Text("ready_ttl")])))
    case ClaimNotification(now) =>
      if !r.NotificationReady() then Keep
      else Write(r.(status := Notifying, updatedAt := now,
                    metadata := Some(r.Meta()[NotificationClaimedAt := Stamp(now)])))
    case ClaimObservation(kind, now) =>
      if (kind == TerminalSeen && !r.IsReady()) || KeyOf(kind) in r.Meta() then Keep
      else Write(r.(metadata := Some(r.Meta()[KeyOf(kind) := Stamp(now)])))
    case FinishNotification(resumed, reason, now) =>
      if r.status != Notifying then Keep
      else Write(FinishedNotification(r, resumed, reason, now))
    case RepairNotification(lease, checkedAt, now) =>
      if lease < 0 || r.status != Notifying || checkedAt - r.updatedAt < lease then Keep
      else Write(FinishedNotification(r, false, FAILURE_LEASE_EXPIRED, now))
    case WatcherStarted(strategy, pid, stamp, now) =>
      if r.status != Pending then Keep
      else Write(r.(updatedAt := now, metadata := Some(StartedMetadata(r.Meta(), strategy, pid, stamp))))
    case WatcherPoll(stamp, now) =>
      if r.status != Pending then Keep
      else Write(r.(updatedAt := now, metadata := Some(r.Meta()[WatcherLastPollAt := Stamp(stamp)])))
    case WatcherFailed(code, now) =>
      if r.status != Pending then Keep
      else Write(r.(updatedAt := now, metadata := Some(FailedMetadata(r.Meta(), code))))
    case ClaimRepair(active, staleAfter, checkedAt, now) =>
      match RepairEligible(r, active, staleAfter, checkedAt)
      case Ineligible => Keep
      case Unparsable => Raise
      case Eligible => Write(r.(updatedAt := now, metadata := Some(RepairingMetadata(r.Meta(), now))))
  }

  // ----- facts about one section -----

  function Rank(s: Status): nat {
    match s
    case Pending => 0
    case Ready => 1
    case Notifying => 2
    case NotifyFailed => 3
    case ExpiredReady => 4
    case Resumed => 5
  }

  /** Metadata keys that record an event which may be reported only once. */
  const ONCE_KEYS: set<MetaKey> :=
    {HeartbeatNotifiedAt, RegistrationObservedAt, WatcherStartedObservedAt, FallbackUsedObservedAt, TerminalObservedAt}

  /** The three fields the single completion writes. */
  datatype TerminalFacts = TerminalFacts(result: string, message: string, state: Option<Observation>)

  function Terminal(r: WaitRecord): TerminalFacts {
    TerminalFacts(r.terminalResult, r.resumeMessage, r.lastObservedState)
  }

  /** The identity of a wait: what a registration is matched on. */
  datatype Identity = Identity(kind: string, targetId: string, repo: Option<Option<string>>, headSha: Option<string>)

  function IdentityOf(kind: string, targetId: string, repo: Option<string>, headSha: string): Identity {
    if kind == "github-run" then Identity(kind, targetId, Some(repo), None)
    else if kind == "verifier" then Identity(kind, targetId, None, Some(headSha))
    else Identity(kind, targetId, Some(repo), Some(headSha))
  }

  function RecordIdentity(r: WaitRecord): Identity {
    IdentityOf(r.kind, r.targetId, r.repo, r.headSha)
  }

  /** The matching rule is equality of identities, hence an equivalence relation. */
  lemma {:induction false} SameIdentityIsKernel(
    r: WaitRecord, kind: string, targetId: string, repo: Option<string>, headSha: string)
    ensures SameIdentity(r, kind, targetId, repo, headSha)
      <==> RecordIdentity(r) == IdentityOf(kind, targetId, repo, headSha)
  {
  }

  /**
   What every section keeps, from any status: identity and id never change, the status rank
   never falls, an inactive record stays inactive, once-only keys keep their value, and the
   terminal facts are frozen outside `Pending`.
   */
  lemma {:induction false} SectionKeeps(r: WaitRecord, s: Section)
    requires Run(r, s).Write?
    ensures var w := Run(r, s).record;
            && w.waitId == r.waitId
            && RecordIdentity(w) == RecordIdentity(r)
            && w.createdAt == r.createdAt
            && Rank(r.status) <= Rank(w.status)
            && (w.IsActive() ==> r.IsActive())
            && (forall k :: k in ONCE_KEYS && k in r.Meta() ==> k in w.Meta() && w.Meta()[k] == r.Meta()[k])
            && (r.status != Pending ==> Terminal(w) == Terminal(r))
  {
  }
}
