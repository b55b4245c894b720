/**
 What one process does between a start and the next, said by the actions of a run and the clock: how
 long it waits for the lock, when it breaks one, which record its section sees, and what its commit
 stores.
 */
module WaitSessions {
  import opened Wrappers
  import opened WaitRecords
  import opened WaitProtocol
  import opened WaitLocks

  /** The process an action belongs to, if it belongs to one. */
  function Actor(a: Action): Option<Pid> {
    match a
    case Tick(_) => None
    case RegisterUnlocked(_, _, _) => None
    case _ => Some(a.p)
  }

  /** Action `c` starts process `p`, and it starts no other section before action `k`. */
  predicate StartedAt(actions: seq<Action>, p: Pid, c: nat, k: nat) {
    c < k <= |actions| && actions[c].Start? && actions[c].p == p
    && forall m :: c < m < k ==> !(actions[m].Start? && actions[m].p == p)
  }

  /** The last action of process `p` before `k` is action `m`. */
  predicate LastOf(actions: seq<Action>, p: Pid, m: nat, k: nat) {
    m < k <= |actions| && Actor(actions[m]) == Some(p) && forall l :: m < l < k ==> Actor(actions[l]) != Some(p)
  }

  // ----- one step, seen from one process -----

  lemma {:induction false} StepElsewhereKeeps(s: State, a: Action, p: Pid)
    requires Enabled(s, a) && Actor(a) != Some(p)
    ensures Next(s, a).At(p) == s.At(p)
  {
    hide Run, RegisterStep;
  }

  /** Where a process is on its way, and with which section. */
  ghost predicate Working(s: State, p: Pid, id: WaitId, section: Section) {
    var me := s.At(p);
    !me.Resting? && !me.Crashed? && me.id == id && me.section == section
  }

  predicate Waiting(me: Process) {
    me.Creating? || me.Checking? || me.Breaking? || me.Polling?
  }

  ghost predicate OnItsWay(s: State, p: Pid, id: WaitId, section: Section, due: Time) {
    s.At(p).Resting? || s.At(p).Crashed?
    || (Working(s, p, id, section) && (Waiting(s.At(p)) ==> s.At(p).deadline == due))
  }

  lemma {:induction false} OwnStep(s: State, a: Action, p: Pid, id: WaitId, section: Section, due: Time)
    requires Enabled(s, a) && Actor(a) == Some(p) && !a.Start? && OnItsWay(s, p, id, section, due)
    ensures OnItsWay(Next(s, a), p, id, section, due)
  {
    hide Run, RegisterStep;
  }

  /** From its start on, a process works on the id and section it was started with, and keeps its deadline. */
  lemma {:induction false} SessionKeeps(states: seq<State>, actions: seq<Action>, p: Pid, c: nat, k: nat)
    requires ValidRun(states, actions) && StartedAt(actions, p, c, k)
    ensures OnItsWay(states[k], p, actions[c].id, actions[c].section, states[c].clock + 5_000)
    decreases k
  {
    hide Run, Next, OnItsWay;
    assert Enabled(states[k - 1], actions[k - 1]) && states[k - 1 + 1] == Next(states[k - 1], actions[k - 1]);
    var id, section, due := actions[c].id, actions[c].section, states[c].clock + 5_000;
    if k == c + 1 {
      StartStep(states[c], p, id, section);
    } else {
      SessionKeeps(states, actions, p, c, k - 1);
      if Actor(actions[k - 1]) == Some(p) {
        OwnStep(states[k - 1], actions[k - 1], p, id, section, due);
      } else {
        StepElsewhereKeeps(states[k - 1], actions[k - 1], p);
        SameWay(states[k - 1], states[k], p, id, section, due);
      }
    }
  }

  lemma {:induction false} SameWay(s: State, t: State, p: Pid, id: WaitId, section: Section, due: Time)
    requires t.At(p) == s.At(p) && OnItsWay(s, p, id, section, due)
    ensures OnItsWay(t, p, id, section, due)
  {
  }

  lemma {:induction false} StartStep(s: State, p: Pid, id: WaitId, section: Section)
    requires s.At(p).Resting?
    ensures OnItsWay(Next(s, Start(p, id, section)), p, id, section, s.clock + 5_000)
  {
  }

  /** In a run from the start, a process that is at work was started. */
  lemma {:induction false} WasStarted(states: seq<State>, actions: seq<Action>, p: Pid, k: nat) returns (c: nat)
    requires ValidRun(states, actions) && Initial(states[0]) && k <= |actions|
    requires !states[k].At(p).Resting? && !states[k].At(p).Crashed?
    ensures StartedAt(actions, p, c, k)
    decreases k
  {
    hide Run, RegisterStep;
    c := 0;
    if k > 0 {
      assert Enabled(states[k - 1], actions[k - 1]) && states[k - 1 + 1] == Next(states[k - 1], actions[k - 1]);
      if actions[k - 1].Start? && actions[k - 1].p == p {
        c := k - 1;
      } else {
        WorkComesFromWork(states[k - 1], actions[k - 1], p);
        c := WasStarted(states, actions, p, k - 1);
      }
    }
  }

  lemma {:induction false} WorkComesFromWork(s: State, a: Action, p: Pid)
    requires Enabled(s, a) && !(a.Start? && a.p == p)
    requires !Next(s, a).At(p).Resting? && !Next(s, a).At(p).Crashed?
    ensures !s.At(p).Resting? && !s.At(p).Crashed?
  {
    hide Run, RegisterStep;
    if Actor(a) != Some(p) {
      StepElsewhereKeeps(s, a, p);
    }
  }

  // ----- giving up -----

  lemma {:induction false} PollStep(s: State, p: Pid)
    requires s.At(p).Polling?
    ensures Next(s, Poll(p)).At(p) == if s.clock < s.At(p).deadline
              then Creating(s.At(p).id, s.At(p).section, s.At(p).deadline) else Resting
  {
  }

  /**
   A waiter tries again exactly while its five seconds are not over: at every poll, counted from the
   clock at its last start, it goes back to creating the lock file before that and gives up after.
   */
  lemma {:induction false} WaiterGivesUp(states: seq<State>, actions: seq<Action>, p: Pid, k: nat) returns (c: nat)
    requires ValidRun(states, actions) && Initial(states[0]) && k < |actions| && actions[k] == Poll(p)
    ensures StartedAt(actions, p, c, k)
    ensures states[k + 1].At(p).Creating? <==> states[k].clock < states[c].clock + 5_000
    ensures states[k + 1].At(p).Resting? <==> states[k].clock >= states[c].clock + 5_000
    ensures states[k + 1].At(p).Creating? ==>
              states[k + 1].At(p).id == actions[c].id && states[k + 1].At(p).section == actions[c].section
  {
    hide Run, Next;
    assert Enabled(states[k], actions[k]) && states[k + 1] == Next(states[k], actions[k]);
    c := WasStarted(states, actions, p, k);
    SessionKeeps(states, actions, p, c, k);
    PollStep(states[k], p);
  }

  /** A process that rests gets to work, and inside a section, only after another start. */
  lemma {:induction false} RestsUntilStarted(states: seq<State>, actions: seq<Action>, p: Pid, k: nat, j: nat)
    requires ValidRun(states, actions) && k <= j < |states| && states[k].At(p).Resting?
    requires forall m :: k <= m < j ==> !(actions[m].Start? && actions[m].p == p)
    ensures states[j].At(p).Resting? || states[j].At(p).Crashed?
    decreases j
  {
    hide Run, Next;
    if k < j {
      RestsUntilStarted(states, actions, p, k, j - 1);
      assert Enabled(states[j - 1], actions[j - 1]) && states[j - 1 + 1] == Next(states[j - 1], actions[j - 1]);
      if !(states[j].At(p).Resting? || states[j].At(p).Crashed?) {
        WorkComesFromWork(states[j - 1], actions[j - 1], p);
      }
    }
  }

  // ----- breaking -----

  /** What the look at a lock file decides: to break it exactly when it is there and over thirty seconds old. */
  lemma {:induction false} BreaksOnlyStale(s: State, p: Pid)
    requires s.At(p).Checking?
    ensures Next(s, Stat(p)).At(p).Breaking? <==>
            s.At(p).id in s.locks && s.clock - s.locks[s.At(p).id].mtime > 30_000
    ensures !Next(s, Stat(p)).At(p).Breaking? ==> Next(s, Stat(p)).At(p).Polling?
    ensures Next(s, Stat(p)).locks == s.locks && Next(s, Stat(p)).store == s.store
  {
  }

  /** Breaking removes whatever lock file is there by then, and the waiter polls before it tries again. */
  lemma {:induction false} BreakingPolls(s: State, p: Pid)
    requires s.At(p).Breaking?
    ensures Next(s, Unlink(p)).At(p).Polling? && Next(s, Unlink(p)).locks.Keys == s.locks.Keys - {s.At(p).id}
    ensures Next(s, Unlink(p)).store == s.store
  {
  }

  /** Entering is creating the file: it succeeds exactly if there is none. */
  lemma {:induction false} EntersIffFree(s: State, p: Pid)
    requires s.At(p).Creating?
    ensures Next(s, Create(p)).At(p).Inside() <==> s.At(p).id !in s.locks
    ensures s.At(p).id in s.locks ==> Next(s, Create(p)).At(p).Checking? && Next(s, Create(p)).locks == s.locks
    ensures s.At(p).id !in s.locks ==>
              && Next(s, Create(p)).locks == s.locks[s.At(p).id := LockFile(s.clock, p)]
              && Next(s, Create(p)).At(p).Acquired? && Next(s, Create(p)).At(p).since == s.clock
  {
  }

  // ----- reading and committing -----

  /** A process that has read holds what the store held at its read. */
  ghost predicate Saw(states: seq<State>, p: Pid, m: nat, k: nat)
    requires m < |states| && k < |states| && states[k].At(p).HasRead?
  {
    var id := states[k].At(p).id;
    states[k].At(p).seen == if id in states[m].store then Some(states[m].store[id]) else None
  }

  lemma {:induction false} ReadStep(s: State, p: Pid)
    requires s.At(p).Acquired?
    ensures var t := Next(s, Read(p));
            t.At(p).HasRead? && t.At(p).id == s.At(p).id
            && t.At(p).seen == if s.At(p).id in s.store then Some(s.store[s.At(p).id]) else None
  {
  }

  lemma {:induction false} HasReadBefore(s: State, a: Action, p: Pid)
    requires Enabled(s, a) && Next(s, a).At(p).HasRead?
    ensures a == Read(p) || (Actor(a) != Some(p) && s.At(p).HasRead?)
  {
    hide Run, RegisterStep;
    if Actor(a) != Some(p) {
      StepElsewhereKeeps(s, a, p);
    }
  }

  /** In a run from the start, what a process holds is what its last action, a read, found. */
  lemma {:induction false} ReadFound(states: seq<State>, actions: seq<Action>, p: Pid, k: nat) returns (m: nat)
    requires ValidRun(states, actions) && Initial(states[0]) && k <= |actions| && states[k].At(p).HasRead?
    ensures LastOf(actions, p, m, k) && actions[m] == Read(p) && Saw(states, p, m, k)
    decreases k
  {
    hide Run, Next;
    m := 0;
    InitialRests(states[0], p);
    if k > 0 {
      assert Enabled(states[k - 1], actions[k - 1]) && states[k - 1 + 1] == Next(states[k - 1], actions[k - 1]);
      HasReadBefore(states[k - 1], actions[k - 1], p);
      if actions[k - 1] == Read(p) {
        m := k - 1;
        ReadStep(states[k - 1], p);
      } else {
        StepElsewhereKeeps(states[k - 1], actions[k - 1], p);
        m := ReadFound(states, actions, p, k - 1);
      }
    }
  }

  lemma {:induction false} InitialRests(s: State, p: Pid)
    requires Initial(s)
    ensures s.At(p).Resting?
  {
  }

  lemma {:induction false} CommitStep(s: State, p: Pid)
    requires s.At(p).HasRead? && s.At(p).seen.None?
    ensures Next(s, Commit(p)).store == s.store
  {
  }

  /**
   A commit applies exactly the section its process was started with to the record as it is stored by
   then, if the record was there when the process read it, and stores nothing otherwise: in every run
   in which no unlink breaks a held lock.
   */
  lemma {:induction false} CommitAppliesSection(states: seq<State>, actions: seq<Action>, p: Pid, k: nat)
    returns (c: nat, m: nat)
    requires ValidRun(states, actions) && Initial(states[0]) && Sparing(states, actions)
    requires k < |actions| && actions[k] == Commit(p)
    ensures StartedAt(actions, p, c, k) && LastOf(actions, p, m, k) && actions[m] == Read(p)
    ensures var id, section := actions[c].id, actions[c].section;
            states[k + 1].store ==
              if id in states[m].store then SectionStep(states[k].store, id, section) else states[k].store
  {
    hide Run, Next, SectionStep, Protected;
    assert Enabled(states[k], actions[k]) && states[k + 1] == Next(states[k], actions[k]);
    c := WasStarted(states, actions, p, k);
    SessionKeeps(states, actions, p, c, k);
    m := ReadFound(states, actions, p, k);
    RunRefines(states, actions, k);
    if states[k].At(p).seen.Some? {
      CommitIsAtomic(states[k], p);
    } else {
      CommitStep(states[k], p);
    }
  }

  /** Releasing removes the lock file of the section and lets the process rest. */
  lemma {:induction false} ReleaseFrees(s: State, p: Pid)
    requires s.At(p).Leaving?
    ensures Next(s, Release(p)).At(p).Resting? && Next(s, Release(p)).locks == s.locks - {s.At(p).id}
  {
  }
}
