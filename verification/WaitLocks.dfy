/**
 The per-record lock file as timed steps of many processes, and its refinement of the
 atomic protocol.

 Creating the lock file, looking at its age, unlinking it, reading the record, writing it and
 releasing are separate steps; any process may run between them and may crash anywhere. A
 registration takes no lock and is one atomic step with a fresh id. Replacing a record file
 is atomic. Clock readings of the lock are in milliseconds.
 */
module WaitLocks {
  import opened Wrappers
  import opened WaitRecords
  import opened WaitProtocol

  type Pid = nat

  const LOCK_WAIT: Time := 5_000
  const LOCK_STALE: Time := 30_000

  /** A lock file. Only `mtime` is on disk; no step reads `creator`, which serves the invariant. */
  datatype LockFile = LockFile(mtime: Time, creator: Pid)

  datatype Process =
    | Resting
    | Creating(id: WaitId, section: Section, deadline: Time)
    | Checking(id: WaitId, section: Section, deadline: Time)
    | Breaking(id: WaitId, section: Section, deadline: Time)
    | Polling(id: WaitId, section: Section, deadline: Time)
    | Acquired(id: WaitId, section: Section, since: Time)
    | HasRead(id: WaitId, section: Section, since: Time, seen: Option<WaitRecord>)
    | Leaving(id: WaitId, section: Section, since: Time)
    | Crashed
  {
    predicate Inside() { Acquired? || HasRead? || Leaving? }
  }

  datatype State = State(clock: Time, store: Store, locks: map<WaitId, LockFile>, processes: map<Pid, Process>)
  {
    function At(p: Pid): Process { if p in processes then processes[p] else Resting }

    function Put(p: Pid, process: Process): State { this.(processes := processes[p := process]) }
  }

  datatype Action =
    | Tick(delta: nat)
    | Start(p: Pid, id: WaitId, section: Section)
    | Create(p: Pid)
    | Stat(p: Pid)
    | Unlink(p: Pid)
    | Poll(p: Pid)
    | Read(p: Pid)
    | Commit(p: Pid)
    | Release(p: Pid)
    | Crash(p: Pid)
    | RegisterUnlocked(inputs: RegisterWait, id: WaitId, now: Time)

  predicate Enabled(s: State, a: Action) {
    match a
    case Tick(_) => true
    case Start(p, _, _) => s.At(p).Resting?
    case Create(p) => s.At(p).Creating?
    case Stat(p) => s.At(p).Checking?
    case Unlink(p) => s.At(p).Breaking?
    case Poll(p) => s.At(p).Polling?
    case Read(p) => s.At(p).Acquired?
    case Commit(p) => s.At(p).HasRead?
    case Release(p) => s.At(p).Leaving?
    case Crash(_) => true
    case RegisterUnlocked(inputs, id, now) => Fresh(s.store, Register(inputs, id, now))
  }

  function Next(s: State, a: Action): State
    requires Enabled(s, a)
  {
    match a
    case Tick(delta) => s.(clock := s.clock + delta)
    case Start(p, id, section) => s.Put(p, Creating(id, section, s.clock + LOCK_WAIT))
    case Create(p) =>
      var me := s.At(p);
      if me.id in s.locks then s.Put(p, Checking(me.id, me.section, me.deadline))
      else s.Put(p, Acquired(me.id, me.section, s.clock)).(locks := s.locks[me.id := LockFile(s.clock, p)])
    case Stat(p) =>
      var me := s.At(p);
      if me.id in s.locks && s.clock - s.locks[me.id].mtime > LOCK_STALE
      then s.Put(p, Breaking(me.id, me.section, me.deadline))
      else s.Put(p, Polling(me.id, me.section, me.deadline))
    case Unlink(p) =>
      var me := s.At(p);
      s.Put(p, Polling(me.id, me.section, me.deadline)).(locks := s.locks - {me.id})
    case Poll(p) =>
      var me := s.At(p);
      if s.clock >= me.deadline then s.Put(p, Resting)
      else s.Put(p, Creating(me.id, me.section, me.deadline))
    case Read(p) =>
      var me := s.At(p);
      var seen := if me.id in s.store then Some(s.store[me.id]) else None;
      s.Put(p, HasRead(me.id, me.section, me.since, seen))
    case Commit(p) =>
      var me := s.At(p);
      var left := s.Put(p, Leaving(me.id, me.section, me.since));
      if me.seen.Some? && Run(me.seen.value, me.section).Write? then
        var w := Run(me.seen.value, me.section).record;
        left.(store := s.store[w.waitId := w])
      else left
    case Release(p) => s.Put(p, Resting).(locks := s.locks - {s.At(p).id})
    case Crash(p) => s.Put(p, Crashed)
    case RegisterUnlocked(inputs, id, now) => s.(store := RegisterStep(s.store, inputs, id, now))
  }

  /** The atomic event an action stands for. */
  function Abstract(s: State, a: Action): Event
    requires Enabled(s, a)
  {
    match a
    case Commit(p) => if s.At(p).seen.Some? then Locked(s.At(p).id, s.At(p).section) else Idle
    case RegisterUnlocked(inputs, id, now) => Register(inputs, id, now)
    case _ => Idle
  }

  ghost predicate MutualExclusion(s: State) {
    forall p, q :: s.At(p).Inside() && s.At(q).Inside() && s.At(p).id == s.At(q).id ==> p == q
  }

  /** Every process inside a section entered it at most `LOCK_STALE` ago. */
  ghost predicate Timely(s: State) {
    forall p :: s.At(p).Inside() ==> s.clock - s.At(p).since <= LOCK_STALE
  }

  /** The file a breaking process is about to remove belongs to a process that is inside. */
  predicate BreaksHeldLock(s: State, p: Pid)
    requires s.At(p).Breaking?
  {
    s.At(p).id in s.locks && var owner := s.locks[s.At(p).id].creator;
    s.At(owner).Inside() && s.At(owner).id == s.At(p).id
  }

  /** No unlink breaks a held lock. */
  predicate SparesHolders(s: State, a: Action)
    requires Enabled(s, a)
  {
    a.Unlink? ==> !BreaksHeldLock(s, a.p)
  }

  /** An unlink hits a file that is stale at that moment, or no file at all. */
  predicate UnlinksStale(s: State, a: Action)
    requires Enabled(s, a)
  {
    a.Unlink? && s.At(a.p).id in s.locks ==> s.clock - s.locks[s.At(a.p).id].mtime > LOCK_STALE
  }

  /** Whoever is inside owns the lock file, and has read what the store still holds. */
  ghost predicate Protected(s: State) {
    && Keyed(s.store)
    && (forall p :: s.At(p).Inside() ==> s.At(p).id in s.locks && s.locks[s.At(p).id] == LockFile(s.At(p).since, p))
    && (forall p :: s.At(p).HasRead? && s.At(p).seen.Some? ==>
          s.At(p).id in s.store && s.store[s.At(p).id] == s.At(p).seen.value)
  }

  lemma {:induction false} ProtectedExcludes(s: State)
    requires Protected(s)
    ensures MutualExclusion(s)
  {
  }

  /** A write under protection is exactly one atomic transition of the current record. */
  lemma {:induction false} CommitIsAtomic(s: State, p: Pid)
    requires Protected(s) && s.At(p).HasRead? && s.At(p).seen.Some?
    ensures Next(s, Commit(p)).store == SectionStep(s.store, s.At(p).id, s.At(p).section)
    ensures Protected(Next(s, Commit(p)))
  {
    var me := s.At(p);
    var t := Next(s, Commit(p));
    assert forall q :: q != p ==> t.At(q) == s.At(q);
    if Run(me.seen.value, me.section).Write? {
      SectionKeeps(me.seen.value, me.section);
      forall q | t.At(q).HasRead? && t.At(q).seen.Some?
        ensures t.At(q).id in t.store && t.store[t.At(q).id] == t.At(q).seen.value
      {
        assert q != p && s.At(q) == t.At(q) && s.At(q).id != me.id;
      }
    }
  }

  /** The unlink step loses the protection exactly when it breaks a held lock. */
  lemma {:induction false} UnlinkIsSafeIff(s: State, p: Pid)
    requires Protected(s) && s.At(p).Breaking?
    ensures Protected(Next(s, Unlink(p))) <==> !BreaksHeldLock(s, p)
  {
    var t := Next(s, Unlink(p));
    var id := s.At(p).id;
    assert forall q :: q != p ==> t.At(q) == s.At(q);
    if id in s.locks && s.At(s.locks[id].creator).Inside() && s.At(s.locks[id].creator).id == id {
      assert t.At(s.locks[id].creator).Inside() && id !in t.locks;
    }
  }

  /** One step keeps the protection and refines one atomic step, unless it breaks a held lock. */
  lemma {:induction false} StepRefines(s: State, a: Action)
    requires Protected(s) && Enabled(s, a) && SparesHolders(s, a)
    ensures Protected(Next(s, a))
    ensures Next(s, a).store == Step(s.store, Abstract(s, a))
    ensures Fresh(s.store, Abstract(s, a))
  {
    if a.Commit? && s.At(a.p).seen.Some? {
      CommitIsAtomic(s, a.p);
    } else {
      if a.Unlink? {
        UnlinkIsSafeIff(s, a.p);
      } else {
        OtherStepProtects(s, a);
      }
      hide Run, Protected;
    }
  }

  lemma {:induction false} OtherStepProtects(s: State, a: Action)
    requires Protected(s) && Enabled(s, a) && !a.Unlink?
    requires a.Commit? ==> s.At(a.p).seen.None?
    ensures Protected(Next(s, a))
  {
    hide Run;
    var t := Next(s, a);
    if a.RegisterUnlocked? || a.Tick? {
      assert forall q :: t.At(q) == s.At(q);
    } else {
      assert forall q :: q != a.p ==> t.At(q) == s.At(q);
    }
  }

  /** Under protection, timely holders and unlinks of stale files spare the holders. */
  lemma {:induction false} StaleIsNotHeld(s: State, a: Action)
    requires Protected(s) && Timely(s) && Enabled(s, a) && UnlinksStale(s, a)
    ensures SparesHolders(s, a)
  {
  }

  // ----- whole runs -----

  predicate ValidRun(states: seq<State>, actions: seq<Action>) {
    && |states| == |actions| + 1
    && forall k :: 0 <= k < |actions| ==> Enabled(states[k], actions[k]) && states[k + 1] == Next(states[k], actions[k])
  }

  /** No unlink of the run breaks a held lock. */
  predicate Sparing(states: seq<State>, actions: seq<Action>)
    requires ValidRun(states, actions)
  {
    forall k :: 0 <= k < |actions| ==> SparesHolders(states[k], actions[k])
  }

  ghost predicate AllTimely(states: seq<State>) {
    forall k :: 0 <= k < |states| ==> Timely(states[k])
  }

  ghost predicate AllProtected(states: seq<State>) {
    forall k :: 0 <= k < |states| ==> Protected(states[k])
  }

  /** Nobody is at work and every record is stored under its own id. */
  predicate Initial(s: State) {
    s.processes == map[] && s.locks == map[] && Keyed(s.store)
  }

  /** The atomic run a run of the lock machine stands for. */
  ghost function AbstractRun(states: seq<State>, actions: seq<Action>): (events: seq<Event>)
    requires ValidRun(states, actions)
    ensures |events| == |actions|
    ensures forall k :: 0 <= k < |actions| ==> events[k] == Abstract(states[k], actions[k])
  {
    seq(|actions|, k requires 0 <= k < |actions| => Abstract(states[k], actions[k]))
  }

  /**
   Refinement: every run in which no unlink breaks a held lock excludes concurrent sections of one
   wait in every state, and its stores are those of the atomic run it stands for.
   */
  lemma {:induction false} RunRefines(states: seq<State>, actions: seq<Action>, j: nat)
    requires ValidRun(states, actions) && Initial(states[0]) && Sparing(states, actions) && j <= |actions|
    ensures Protected(states[j]) && MutualExclusion(states[j])
    ensures states[j].store == After(states[0].store, AbstractRun(states, actions)[..j])
    ensures FreshRun(states[0].store, AbstractRun(states, actions)[..j])
  {
    hide Step, Next, Run, Protected, SparesHolders, MutualExclusion, Fresh, FreshRun, After, Enabled;
    var events := AbstractRun(states, actions);
    if j == 0 {
      StartsProtected(states[0]);
      AfterNothing(states[0].store, events[..0]);
      FreshMore(states[0].store, events, 0);
    } else {
      RunRefines(states, actions, j - 1);
      assert Enabled(states[j - 1], actions[j - 1]) && states[j - 1 + 1] == Next(states[j - 1], actions[j - 1]);
      StepRefines(states[j - 1], actions[j - 1]);
      AfterNext(states[0].store, events, j - 1);
      FreshMore(states[0].store, events, j);
    }
    ProtectedExcludes(states[j]);
  }

  lemma {:induction false} StartsProtected(s: State)
    requires Initial(s)
    ensures Protected(s)
  {
    assert forall p :: s.At(p) == Resting;
  }

  lemma {:induction false} FreshMore(store: Store, events: seq<Event>, j: nat)
    requires j <= |events|
    requires j > 0 ==> FreshRun(store, events[..j - 1]) && Fresh(After(store, events[..j - 1]), events[j - 1])
    ensures FreshRun(store, events[..j])
  {
    hide After, Fresh;
    forall k | 0 <= k < j ensures Fresh(After(store, events[..j][..k]), events[..j][k]) {
      assert events[..j][..k] == events[..k];
      if k < j - 1 {
        assert events[..j - 1][..k] == events[..k] && events[..j - 1][k] == events[k];
      }
    }
  }

  lemma {:induction false} StaysProtected(states: seq<State>, actions: seq<Action>, j: nat)
    requires ValidRun(states, actions) && Protected(states[0]) && Sparing(states, actions) && j <= |actions|
    ensures Protected(states[j])
  {
    hide Step, Next, Run, Protected, SparesHolders;
    if j > 0 {
      StaysProtected(states, actions, j - 1);
      assert Enabled(states[j - 1], actions[j - 1]) && states[j - 1 + 1] == Next(states[j - 1], actions[j - 1]);
      StepRefines(states[j - 1], actions[j - 1]);
    }
  }

  /** Over every run from a protected state, the protection is kept exactly when no unlink breaks a held lock. */
  lemma {:induction false} RunProtectedIff(states: seq<State>, actions: seq<Action>)
    requires ValidRun(states, actions) && Protected(states[0])
    ensures AllProtected(states) <==> Sparing(states, actions)
  {
    hide Step, Next, Run, Protected, BreaksHeldLock;
    if Sparing(states, actions) {
      forall j | 0 <= j < |states| ensures Protected(states[j]) {
        StaysProtected(states, actions, j);
      }
    } else {
      var k :| 0 <= k < |actions| && !SparesHolders(states[k], actions[k]);
      assert states[k + 1] == Next(states[k], actions[k]);
      if AllProtected(states) {
        UnlinkIsSafeIff(states[k], actions[k].p);
        assert false;
      }
    }
  }

  /** A run of timely holders whose unlinks all hit stale files spares the holders. */
  lemma {:induction false} StaleRunSpares(states: seq<State>, actions: seq<Action>)
    requires ValidRun(states, actions) && Initial(states[0]) && AllTimely(states)
    requires forall k :: 0 <= k < |actions| ==> UnlinksStale(states[k], actions[k])
    ensures Sparing(states, actions)
  {
    hide Step, Next, Run, Protected, SparesHolders, Initial, Timely, UnlinksStale;
    StartsProtected(states[0]);
    for j := 0 to |actions|
      invariant Protected(states[j])
      invariant forall k :: 0 <= k < j ==> SparesHolders(states[k], actions[k])
    {
      assert Enabled(states[j], actions[j]) && states[j + 1] == Next(states[j], actions[j]);
      StaleIsNotHeld(states[j], actions[j]);
      StepRefines(states[j], actions[j]);
    }
  }

  /** Only process `p` has moved on, at the same time, and is inside no longer than that. */
  ghost predicate OnlyMoved(s: State, t: State, p: Pid) {
    && t.clock == s.clock && (forall q :: q != p ==> t.At(q) == s.At(q))
    && (t.At(p).Inside() ==> t.At(p).since == t.clock)
  }

  lemma {:induction false} MovedTimely(s: State, t: State, p: Pid)
    requires Timely(s) && OnlyMoved(s, t, p)
    ensures Timely(t)
  {
  }

  /** A waiting process enters once the lock file is gone, again from the start if its time is up. */
  lemma {:induction false} WaiterEnters(s: State, p: Pid) returns (states: seq<State>, actions: seq<Action>)
    requires s.At(p).Polling? && s.At(p).id !in s.locks
    ensures ValidRun(states, actions) && states[0] == s && Sparing(states, actions)
    ensures forall k :: 0 <= k < |states| ==> OnlyMoved(s, states[k], p)
    ensures states[|actions|].At(p).Inside() && states[|actions|].At(p).id == s.At(p).id
  {
    var me := s.At(p);
    var polled := Next(s, Poll(p));
    var again := polled.At(p).Resting?;
    var ready := if again then Next(polled, Start(p, me.id, me.section)) else polled;
    var entered := Next(ready, Create(p));
    hide Run, RegisterStep, SectionStep, Timely;
    actions := [Poll(p)] + (if again then [Start(p, me.id, me.section)] else []) + [Create(p)];
    states := [s, polled] + (if again then [ready] else []) + [entered];
    assert OnlyMoved(s, polled, p) && OnlyMoved(s, ready, p) && OnlyMoved(s, entered, p) && OnlyMoved(s, s, p);
  }

  /** After breaking a held lock, the breaker itself can go on to enter beside the holder. */
  lemma {:induction false} BreakerEnters(s: State, p: Pid) returns (states: seq<State>, actions: seq<Action>)
    requires Protected(s) && Timely(s) && s.At(p).Breaking? && BreaksHeldLock(s, p)
    ensures ValidRun(states, actions) && states[0] == Next(s, Unlink(p))
    ensures AllTimely(states) && Sparing(states, actions) && !MutualExclusion(states[|actions|])
  {
    var owner := s.locks[s.At(p).id].creator;
    var broken := Next(s, Unlink(p));
    assert OnlyMoved(s, broken, p);
    states, actions := WaiterEnters(broken, p);
    hide Next, Protected, Sparing, ValidRun, Timely;
    MovedTimely(s, broken, p);
    forall k | 0 <= k < |states| ensures Timely(states[k]) {
      MovedTimely(broken, states[k], p);
    }
    var entered := states[|actions|];
    assert entered.At(owner) == s.At(owner) && entered.At(p).id == entered.At(owner).id;
  }

  /**
   However the processes go on from here, in time and without breaking a lock that is held, no two of
   them are ever inside a section of one wait.
   */
  ghost predicate Excludes(s: State) {
    forall states: seq<State>, actions: seq<Action> ::
      ValidRun(states, actions) && states[0] == s && AllTimely(states) && Sparing(states, actions) ==>
        MutualExclusion(states[|actions|])
  }

  lemma {:induction false} ProtectedStaysExclusive(s: State)
    requires Protected(s)
    ensures Excludes(s)
  {
    hide Next, Protected, Timely, Run, MutualExclusion, Sparing;
    forall states: seq<State>, actions: seq<Action> |
      ValidRun(states, actions) && states[0] == s && AllTimely(states) && Sparing(states, actions)
      ensures MutualExclusion(states[|actions|])
    {
      StaysProtected(states, actions, |actions|);
      ProtectedExcludes(states[|actions|]);
    }
  }

  /**
   Breaking a lock leaves a state that excludes concurrent sections exactly when the lock is not held:
   every timely continuation in which no later unlink breaks a held lock keeps them apart.
   */
  lemma {:induction false} UnlinkExcludesIff(s: State, p: Pid)
    requires Protected(s) && Timely(s) && s.At(p).Breaking?
    ensures Excludes(Next(s, Unlink(p))) <==> !BreaksHeldLock(s, p)
  {
    hide Next, Protected, Timely, Run, MutualExclusion, BreaksHeldLock, Sparing, AllTimely;
    UnlinkIsSafeIff(s, p);
    if BreaksHeldLock(s, p) {
      var states, actions := BreakerEnters(s, p);
    } else {
      ProtectedStaysExclusive(Next(s, Unlink(p)));
    }
  }

  /**
   A timely run from the start stays exclusive, whatever follows any of its states, exactly when none
   of its own unlinks breaks a held lock.
   */
  lemma {:induction false} RunExcludesIff(states: seq<State>, actions: seq<Action>)
    requires ValidRun(states, actions) && Initial(states[0]) && AllTimely(states)
    ensures (forall j :: 0 <= j < |states| ==> Excludes(states[j])) <==> Sparing(states, actions)
  {
    hide Next, Protected, Timely, Run, BreaksHeldLock, Excludes, Initial;
    StartsProtected(states[0]);
    if Sparing(states, actions) {
      forall j | 0 <= j < |states| ensures Excludes(states[j]) {
        StaysProtected(states, actions, j);
        ProtectedStaysExclusive(states[j]);
      }
    } else {
      var k := FirstBroken(states, actions);
      assert states[k + 1] == Next(states[k], actions[k]);
      UnlinkExcludesIff(states[k], actions[k].p);
      assert !Excludes(states[k + 1]);
    }
  }

  /** The first unlink that breaks a held lock finds the protection still intact. */
  lemma {:induction false} FirstBroken(states: seq<State>, actions: seq<Action>) returns (k: nat)
    requires ValidRun(states, actions) && Protected(states[0]) && !Sparing(states, actions)
    ensures k < |actions| && !SparesHolders(states[k], actions[k]) && Protected(states[k])
  {
    hide Next, Protected, Run, SparesHolders;
    k := 0;
    while SparesHolders(states[k], actions[k])
      invariant k < |actions| && Protected(states[k])
      invariant forall i :: 0 <= i < k ==> SparesHolders(states[i], actions[i])
      decreases |actions| - k
    {
      assert states[k + 1] == Next(states[k], actions[k]);
      StepRefines(states[k], actions[k]);
      k := k + 1;
    }
  }

  /** Event `k` commits a section of `id` that writes. */
  ghost predicate Commits(states: seq<State>, actions: seq<Action>, k: nat, id: WaitId)
    requires ValidRun(states, actions) && k < |actions|
  {
    actions[k].Commit? && states[k].At(actions[k].p).id == id &&
    states[k].At(actions[k].p).seen.Some? &&
    Run(states[k].At(actions[k].p).seen.value, states[k].At(actions[k].p).section).Write?
  }

  /**
   The exactly-once guarantee under real interleaving: in a run in which no unlink breaks a held
   lock, two processes never both commit the same one-shot claim of one wait.
   */
  lemma {:induction false} InterleavedClaimsAreUnique(
    states: seq<State>, actions: seq<Action>, i: nat, j: nat, id: WaitId)
    requires ValidRun(states, actions) && Initial(states[0]) && Sparing(states, actions)
    requires i < |actions| && j < |actions| && Commits(states, actions, i, id) && Commits(states, actions, j, id)
    requires SameClaim(states[i].At(actions[i].p).section, states[j].At(actions[j].p).section)
    ensures i == j
  {
    hide Step, Next, Run;
    var events := AbstractRun(states, actions);
    RunRefines(states, actions, |actions|);
    assert events[..|actions|] == events;
    RunRefines(states, actions, i);
    RunRefines(states, actions, j);
    assert Effective(states[0].store, events, i, id);
    assert Effective(states[0].store, events, j, id);
    ClaimSucceedsAtMostOnce(states[0].store, events, i, j, id);
  }

  // ----- runs in which every holder releases -----

  /** No process dies inside a section; elsewhere it may. */
  predicate KeepsHolders(s: State, a: Action) {
    a.Crash? ==> !s.At(a.p).Inside()
  }

  /** Every lock file belongs to a process inside. */
  ghost predicate LocksOwned(s: State) {
    forall id :: id in s.locks ==>
      var p := s.locks[id].creator;
      s.At(p).Inside() && s.At(p).id == id && s.At(p).since == s.locks[id].mtime
  }

  /** So none is ever found stale. */
  ghost predicate NoneBreaking(s: State) {
    forall p :: !s.At(p).Breaking?
  }

  lemma {:induction false} Others(s: State, a: Action, q: Pid)
    requires Enabled(s, a)
    ensures a.RegisterUnlocked? || a.Tick? || q != a.p ==> Next(s, a).At(q) == s.At(q)
  {
  }

  lemma {:induction false} StepKeepsOwned(s: State, a: Action)
    requires Protected(s) && LocksOwned(s) && NoneBreaking(s) && Enabled(s, a) && KeepsHolders(s, a)
    ensures LocksOwned(Next(s, a))
  {
    hide Run, RegisterStep, Keyed;
    var t := Next(s, a);
    forall id | id in t.locks
      ensures var p := t.locks[id].creator; t.At(p).Inside() && t.At(p).id == id && t.At(p).since == t.locks[id].mtime
    {
      Others(s, a, t.locks[id].creator);
    }
  }

  lemma {:induction false} StepBreaksNothing(s: State, a: Action)
    requires LocksOwned(s) && NoneBreaking(s) && Enabled(s, a) && Timely(s)
    ensures NoneBreaking(Next(s, a)) && SparesHolders(s, a)
  {
    hide Run, RegisterStep;
    forall q ensures !Next(s, a).At(q).Breaking? {
      Others(s, a, q);
    }
  }

  ghost predicate HoldersRelease(states: seq<State>, actions: seq<Action>)
    requires ValidRun(states, actions)
  {
    forall k :: 0 <= k < |actions| ==> Timely(states[k]) && KeepsHolders(states[k], actions[k])
  }

  /** If every holder releases in time, no waiter ever breaks a lock. */
  lemma {:induction false} HoldersReleaseSpares(states: seq<State>, actions: seq<Action>, j: nat)
    requires ValidRun(states, actions) && Initial(states[0]) && HoldersRelease(states, actions) && j <= |actions|
    ensures Protected(states[j]) && LocksOwned(states[j]) && NoneBreaking(states[j])
    ensures forall k :: 0 <= k < j ==> SparesHolders(states[k], actions[k])
  {
    hide Step, Next, Run;
    if j == 0 {
      StartsProtected(states[0]);
      assert forall p :: states[0].At(p) == Resting;
    } else {
      HoldersReleaseSpares(states, actions, j - 1);
      assert Enabled(states[j - 1], actions[j - 1]) && states[j - 1 + 1] == Next(states[j - 1], actions[j - 1]);
      StepKeepsOwned(states[j - 1], actions[j - 1]);
      StepBreaksNothing(states[j - 1], actions[j - 1]);
      StepRefines(states[j - 1], actions[j - 1]);
    }
  }

  /**
   With any number of processes, if each holder releases within the staleness bound of creating its
   lock file, then at most one process is ever inside the section of a wait, and the stores are
   those of a run of atomic transitions.
   */
  lemma {:induction false} PromptHoldersRefine(states: seq<State>, actions: seq<Action>, j: nat)
    requires ValidRun(states, actions) && Initial(states[0]) && HoldersRelease(states, actions) && j <= |actions|
    ensures MutualExclusion(states[j])
    ensures states[j].store == After(states[0].store, AbstractRun(states, actions)[..j])
    ensures FreshRun(states[0].store, AbstractRun(states, actions)[..j])
  {
    hide Step, Next, Run, Timely, SparesHolders, MutualExclusion, LocksOwned, NoneBreaking, Protected;
    HoldersReleaseSpares(states, actions, |actions|);
    RunRefines(states, actions, j);
  }

  /** The states of the race, one per step. */
  ghost function RaceState(id: WaitId, section: Section, k: nat): State {
    var late := LOCK_STALE + 1;
    var due := late + LOCK_WAIT;
    var abandoned := map[id := LockFile(0, 0)];
    var dead := map[0 := Crashed];
    if k == 0 then State(0, map[], map[], map[])
    else if k == 1 then State(0, map[], map[], map[0 := Creating(id, section, LOCK_WAIT)])
    else if k == 2 then State(0, map[], abandoned, map[0 := Acquired(id, section, 0)])
    else if k == 3 then State(0, map[], abandoned, dead)
    else if k == 4 then State(late, map[], abandoned, dead)
    else if k == 5 then State(late, map[], abandoned, dead[1 := Creating(id, section, due)])
    else if k == 6 then State(late, map[], abandoned, dead[1 := Checking(id, section, due)])
    else if k == 7 then State(late, map[], abandoned, dead[1 := Breaking(id, section, due)])
    else if k == 8 then State(late, map[], abandoned,
        dead[1 := Breaking(id, section, due)][2 := Creating(id, section, due)])
    else if k == 9 then State(late, map[], abandoned,
        dead[1 := Breaking(id, section, due)][2 := Checking(id, section, due)])
    else if k == 10 then State(late, map[], abandoned,
        dead[1 := Breaking(id, section, due)][2 := Breaking(id, section, due)])
    else if k == 11 then State(late, map[], map[],
        dead[1 := Polling(id, section, due)][2 := Breaking(id, section, due)])
    else if k == 12 then State(late, map[], map[],
        dead[1 := Creating(id, section, due)][2 := Breaking(id, section, due)])
    else if k == 13 then State(late, map[], map[id := LockFile(late, 1)],
        dead[1 := Acquired(id, section, late)][2 := Breaking(id, section, due)])
    else if k == 14 then State(late, map[], map[],
        dead[1 := Acquired(id, section, late)][2 := Polling(id, section, due)])
    else if k == 15 then State(late, map[], map[],
        dead[1 := Acquired(id, section, late)][2 := Creating(id, section, due)])
    else State(late, map[], map[id := LockFile(late, 2)],
        dead[1 := Acquired(id, section, late)][2 := Acquired(id, section, late)])
  }

  ghost function RaceActions(id: WaitId, section: Section): (actions: seq<Action>) {
    [Start(0, id, section), Create(0), Crash(0), Tick(LOCK_STALE + 1),
     Start(1, id, section), Create(1), Stat(1), Start(2, id, section), Create(2), Stat(2),
     Unlink(1), Poll(1), Create(1), Unlink(2), Poll(2), Create(2)]
  }

  lemma {:induction false} RaceBegins(id: WaitId, section: Section, k: nat)
    requires k < 8
    ensures Enabled(RaceState(id, section, k), RaceActions(id, section)[k])
    ensures Next(RaceState(id, section, k), RaceActions(id, section)[k]) == RaceState(id, section, k + 1)
  {
  }

  lemma {:induction false} RaceEnds(id: WaitId, section: Section, k: nat)
    requires 8 <= k < 16
    ensures Enabled(RaceState(id, section, k), RaceActions(id, section)[k])
    ensures Next(RaceState(id, section, k), RaceActions(id, section)[k]) == RaceState(id, section, k + 1)
  {
    hide Run, RegisterStep;
    var next := Next(RaceState(id, section, k), RaceActions(id, section)[k]);
    assert next.processes == RaceState(id, section, k + 1).processes;
    assert next.locks == RaceState(id, section, k + 1).locks;
  }

  /** The first unlink of the race removes a file nobody holds, the second one a file that is held. */
  lemma {:induction false} RaceUnlinks(id: WaitId, section: Section)
    ensures RaceActions(id, section)[10] == Unlink(1) && RaceActions(id, section)[13] == Unlink(2)
    ensures RaceState(id, section, 10).At(1).Breaking? && !BreaksHeldLock(RaceState(id, section, 10), 1)
    ensures RaceState(id, section, 13).At(2).Breaking? && BreaksHeldLock(RaceState(id, section, 13), 2)
  {
  }

  lemma {:induction false} RaceOver(id: WaitId, section: Section)
    ensures Initial(RaceState(id, section, 0)) && !MutualExclusion(RaceState(id, section, 16))
  {
    var last := RaceState(id, section, 16);
    assert last.At(1).Inside() && last.At(2).Inside() && last.At(1).id == last.At(2).id;
  }

  lemma {:induction false} RaceTimely(id: WaitId, section: Section, k: nat)
    ensures Timely(RaceState(id, section, k))
  {
  }

  /**
   Timely holders alone are not enough once a process crashes inside: two waiters find the
   abandoned file stale, the first one breaks it, which is safe, and enters, and the second one then
   unlinks the fresh file, which is held, and enters as well.
   */
  lemma {:induction false} StaleBreakRace(id: WaitId, section: Section)
    returns (states: seq<State>, actions: seq<Action>)
    ensures ValidRun(states, actions) && Initial(states[0]) && |actions| == 16
    ensures AllTimely(states) && !MutualExclusion(states[|actions|])
    ensures actions[10] == Unlink(1) && !BreaksHeldLock(states[10], 1)
    ensures actions[13] == Unlink(2) && BreaksHeldLock(states[13], 2)
  {
    hide Next, RaceState, BreaksHeldLock, Timely, Enabled, Run;
    actions := RaceActions(id, section);
    states := seq(17, k requires 0 <= k < 17 => RaceState(id, section, k));
    RaceUnlinks(id, section);
    forall k | 0 <= k < |states| ensures Timely(states[k]) {
      RaceTimely(id, section, k);
    }
    forall k | 0 <= k < |actions|
      ensures Enabled(states[k], actions[k]) && states[k + 1] == Next(states[k], actions[k])
    {
      if k < 8 {
        RaceBegins(id, section, k);
      } else {
        RaceEnds(id, section, k);
      }
    }
    RaceOver(id, section);
  }
}
