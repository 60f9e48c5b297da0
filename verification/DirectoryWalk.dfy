/**
 * The parallel directory walk as a state machine: one step is what a thread does
 * under one lock, or one unlocked action. Threads spawn threads, take a permit
 * from a counting semaphore that may be replaced at any time, and are counted by
 * a wait group that the main thread waits on.
 */
module DirectoryWalk {
  import opened Collections

  /** A directory as the walk meets it: its path, and the sub-directories that its entries lead into. */
  datatype Dir = Dir(path: string, children: seq<Dir>)

  datatype Phase =
    | Started                                       // spawned
    | Acquiring(sem: nat)                           // has the semaphore's handle, about to lock it
    | Sleeping(sem: nat)                            // waiting on the semaphore's condition variable
    | Notified(sem: nat)                            // woken, about to lock the semaphore again
    | Holding(sem: nat)                             // has a permit, has not opened its directory
    | Walking(sem: nat, todo: seq<Dir>)             // going through its entries
    | Spawning(sem: nat, child: Dir, todo: seq<Dir>)  // has announced `child` to the wait group
    | Released                                      // has no permit, about to report to the wait group
    | Finished

  datatype Thread = Thread(dir: Dir, level: int, phase: Phase)

  datatype Semaphore = Semaphore(cap: nat, used: nat)

  /** The thread that calls `find` for each root and then `wait`. */
  datatype Main =
    | Calling(roots: seq<Dir>)
    | Announcing(root: Dir, roots: seq<Dir>)
    | Waiting
    | Woken
    | Returned

  /**
   * `current` is the semaphore that new walks pick up; `enough` is that the print limit is reached.
   * `visited` holds the paths of the directories opened, each as often as it has been.
   */
  datatype State = State(threads: seq<Thread>, sems: seq<Semaphore>, current: nat, count: nat, main: Main,
                         enough: bool, maxLevel: int, visited: multiset<string>)

  datatype Step =
    | Begin(t: nat)
    | Acquire(t: nat)
    | Open(t: nat)
    | Announce(t: nat)
    | Spawn(t: nat)
    | Release(t: nat, woken: Option<nat>)
    | Done(t: nat)
    | MainAnnounce
    | MainSpawn
    | MainWait
    // what the program does not control
    | ChangeThreads(num: nat)
    | PrintLimitReached
    | SpuriousWakeup(t: nat)
    | SpuriousMainWakeup

  predicate IsProgramStep(step: Step) {
    !step.ChangeThreads? && !step.PrintLimitReached? && !step.SpuriousWakeup? && !step.SpuriousMainWakeup?
  }

  predicate SleepsOn(st: State, t: nat, sem: nat) {
    t < |st.threads| && st.threads[t].phase == Sleeping(sem)
  }

  ghost predicate Enabled(st: State, step: Step) {
    match step
    case Begin(t) => t < |st.threads| && st.threads[t].phase.Started?
    case Acquire(t) => t < |st.threads| && (st.threads[t].phase.Acquiring? || st.threads[t].phase.Notified?)
                       && st.threads[t].phase.sem < |st.sems|
    case Open(t) => t < |st.threads| && st.threads[t].phase.Holding?
    case Announce(t) => t < |st.threads| && st.threads[t].phase.Walking? && st.threads[t].phase.todo != [] && !st.enough
    case Spawn(t) => t < |st.threads| && st.threads[t].phase.Spawning?
    case Release(t, woken) =>
      && t < |st.threads| && st.threads[t].phase.Walking? && st.threads[t].phase.sem < |st.sems|
      && (st.threads[t].phase.todo == [] || st.enough)
      && (match woken
          case Some(u) => SleepsOn(st, u, st.threads[t].phase.sem)
          case None => forall u :: !SleepsOn(st, u, st.threads[t].phase.sem))
    case Done(t) => t < |st.threads| && st.threads[t].phase.Released?
    case MainAnnounce => st.main.Calling? && st.main.roots != []
    case MainSpawn => st.main.Announcing?
    case MainWait => st.main == Calling([]) || st.main.Woken?
    case ChangeThreads(_) => true
    case PrintLimitReached => true
    case SpuriousWakeup(t) => t < |st.threads| && st.threads[t].phase.Sleeping?
    case SpuriousMainWakeup => st.main.Waiting?
  }

  function SetPhase(threads: seq<Thread>, t: nat, phase: Phase): seq<Thread>
    requires t < |threads|
  {
    threads[t := threads[t].(phase := phase)]
  }

  ghost function Next(st: State, step: Step): State
    requires Enabled(st, step)
  {
    match step
    case Begin(t) =>
      var phase := if st.threads[t].level > st.maxLevel then Released else Acquiring(st.current);
      st.(threads := SetPhase(st.threads, t, phase))
    case Acquire(t) =>
      var s := st.threads[t].phase.sem;
      var sem := st.sems[s];
      if sem.used >= sem.cap then st.(threads := SetPhase(st.threads, t, Sleeping(s)))
      else st.(threads := SetPhase(st.threads, t, Holding(s)), sems := st.sems[s := sem.(used := sem.used + 1)])
    case Open(t) =>
      var s := st.threads[t].phase.sem;
      if st.enough then st.(threads := SetPhase(st.threads, t, Walking(s, [])))
      else st.(threads := SetPhase(st.threads, t, Walking(s, st.threads[t].dir.children)),
                  visited := st.visited + multiset{st.threads[t].dir.path})
    case Announce(t) =>
      var Walking(s, todo) := st.threads[t].phase;
      st.(threads := SetPhase(st.threads, t, Spawning(s, todo[0], todo[1..])), count := st.count + 1)
    case Spawn(t) =>
      var Spawning(s, child, todo) := st.threads[t].phase;
      st.(threads := SetPhase(st.threads, t, Walking(s, todo)) + [Thread(child, st.threads[t].level + 1, Started)])
    case Release(t, woken) =>
      var s := st.threads[t].phase.sem;
      var sem := st.sems[s];
      var threads := SetPhase(st.threads, t, Released);
      st.(threads := if woken.Some? then SetPhase(threads, woken.value, Notified(s)) else threads,
          sems := st.sems[s := sem.(used := SaturatingSub(sem.used, 1))])
    case Done(t) =>
      var count := SaturatingSub(st.count, 1);
      st.(threads := SetPhase(st.threads, t, Finished),
          count := count,
          main := if count == 0 && st.main.Waiting? then Woken else st.main)
    case MainAnnounce => st.(main := Announcing(st.main.roots[0], st.main.roots[1..]), count := st.count + 1)
    case MainSpawn =>
      st.(main := Calling(st.main.roots), threads := st.threads + [Thread(st.main.root, 0, Started)])
    case MainWait => st.(main := if st.count != 0 then Waiting else Returned)
    case ChangeThreads(num) =>
      st.(sems := st.sems + [Semaphore(if num >= 1 then num else 1, 0)], current := |st.sems|)
    case PrintLimitReached => st.(enough := true)
    case SpuriousWakeup(t) => st.(threads := SetPhase(st.threads, t, Notified(st.threads[t].phase.sem)))
    case SpuriousMainWakeup => st.(main := Woken)
  }

  // ---------------------------------------------------------------- sums over threads

  ghost function Sum<A>(s: seq<A>, f: A -> nat): nat {
    if s == [] then 0 else Sum(s[..|s| - 1], f) + f(s[|s| - 1])
  }

  lemma SumAppend<A>(s: seq<A>, x: A, f: A -> nat)
    ensures Sum(s + [x], f) == Sum(s, f) + f(x)
  {
    assert (s + [x])[..|s|] == s;
  }

  lemma {:induction false} SumUpdate<A>(s: seq<A>, i: nat, x: A, f: A -> nat)
    requires i < |s|
    ensures Sum(s[i := x], f) + f(s[i]) == Sum(s, f) + f(x)
  {
    if i == |s| - 1 {
      assert s[i := x][..i] == s[..i];
    } else {
      SumUpdate(s[..|s| - 1], i, x, f);
      assert s[i := x][..|s| - 1] == s[..|s| - 1][i := x];
    }
  }

  lemma {:induction false} SumBound<A>(s: seq<A>, i: nat, f: A -> nat)
    requires i < |s|
    ensures f(s[i]) <= Sum(s, f)
  {
    if i < |s| - 1 {
      SumBound(s[..|s| - 1], i, f);
    }
  }

  lemma {:induction false} SumWitness<A>(s: seq<A>, f: A -> nat) returns (i: nat)
    requires Sum(s, f) > 0
    ensures i < |s| && f(s[i]) > 0
  {
    if f(s[|s| - 1]) > 0 {
      i := |s| - 1;
    } else {
      i := SumWitness(s[..|s| - 1], f);
    }
  }

  ghost function One(yes: bool): nat {
    if yes then 1 else 0
  }

  predicate HasPermit(p: Phase, sem: nat) {
    (p.Holding? || p.Walking? || p.Spawning?) && p.sem == sem
  }

  ghost function Holds(sem: nat): Thread -> nat {
    (t: Thread) => One(HasPermit(t.phase, sem))
  }

  ghost function Sleeps(sem: nat): Thread -> nat {
    (t: Thread) => One(t.phase == Sleeping(sem))
  }

  ghost function IsNotified(sem: nat): Thread -> nat {
    (t: Thread) => One(t.phase == Notified(sem))
  }

  /** What a thread contributes to the wait group: itself until it reports, and a child it has announced. */
  ghost function RegisteredAs(p: Phase): nat {
    if p.Finished? then 0 else if p.Spawning? then 2 else 1
  }

  ghost function Registered(): Thread -> nat {
    (t: Thread) => RegisteredAs(t.phase)
  }

  // ---------------------------------------------------------------- the invariant

  /**
   * A semaphore object counts its holders exactly and never exceeds its capacity.
   * While somebody sleeps on it, the permits taken and the wake-ups under way
   * together fill it, so no wake-up has been lost.
   */
  ghost predicate SemOk(threads: seq<Thread>, sem: Semaphore, s: nat) {
    && sem.used == Sum(threads, Holds(s)) && sem.used <= sem.cap && sem.cap >= 1
    && (Sum(threads, Sleeps(s)) > 0 ==> sem.used + Sum(threads, IsNotified(s)) >= sem.cap)
  }

  predicate UsesSem(p: Phase) {
    p.Acquiring? || p.Sleeping? || p.Notified? || p.Holding? || p.Walking? || p.Spawning?
  }

  ghost predicate Inv(st: State) {
    && st.current < |st.sems|
    && (forall s {:trigger SemOk(st.threads, st.sems[s], s)} :: 0 <= s < |st.sems| ==> SemOk(st.threads, st.sems[s], s))
    && (forall t :: 0 <= t < |st.threads| && UsesSem(st.threads[t].phase) ==> st.threads[t].phase.sem < |st.sems|)
    && st.count == Sum(st.threads, Registered()) + One(st.main.Announcing?)
    && (st.main.Waiting? ==> st.count != 0)
    && (st.main.Returned? ==> st.count == 0)
  }

  function Init(roots: seq<Dir>, maxLevel: int): State {
    State([], [Semaphore(4, 0)], 0, 0, Calling(roots), false, maxLevel, multiset{})
  }

  lemma InitInv(roots: seq<Dir>, maxLevel: int)
    ensures Inv(Init(roots, maxLevel))
  {
  }

  // ---------------------------------------------------------------- every step keeps it

  /** What moving one thread to another phase does to each count. */
  lemma Moved(threads: seq<Thread>, t: nat, phase: Phase, s: nat)
    requires t < |threads|
    ensures var threads', before := SetPhase(threads, t, phase), threads[t].phase;
            && Sum(threads', Holds(s)) + One(HasPermit(before, s)) == Sum(threads, Holds(s)) + One(HasPermit(phase, s))
            && Sum(threads', Sleeps(s)) + One(before == Sleeping(s)) == Sum(threads, Sleeps(s)) + One(phase == Sleeping(s))
            && Sum(threads', IsNotified(s)) + One(before == Notified(s)) ==
               Sum(threads, IsNotified(s)) + One(phase == Notified(s))
  {
    var thread' := threads[t].(phase := phase);
    SumUpdate(threads, t, thread', Holds(s));
    SumUpdate(threads, t, thread', Sleeps(s));
    SumUpdate(threads, t, thread', IsNotified(s));
  }

  lemma MovedCount(threads: seq<Thread>, t: nat, phase: Phase)
    requires t < |threads|
    ensures Sum(SetPhase(threads, t, phase), Registered()) + RegisteredAs(threads[t].phase) ==
            Sum(threads, Registered()) + RegisteredAs(phase)
  {
    SumUpdate(threads, t, threads[t].(phase := phase), Registered());
  }

  lemma Spawned(threads: seq<Thread>, d: Dir, level: int, s: nat)
    ensures var threads' := threads + [Thread(d, level, Started)];
            && Sum(threads', Holds(s)) == Sum(threads, Holds(s))
            && Sum(threads', Sleeps(s)) == Sum(threads, Sleeps(s))
            && Sum(threads', IsNotified(s)) == Sum(threads, IsNotified(s))
            && Sum(threads', Registered()) == Sum(threads, Registered()) + 1
  {
    var thread := Thread(d, level, Started);
    SumAppend(threads, thread, Holds(s));
    SumAppend(threads, thread, Sleeps(s));
    SumAppend(threads, thread, IsNotified(s));
    SumAppend(threads, thread, Registered());
  }

  /** Nobody holds, sleeps on or was notified by a semaphore that does not exist yet. */
  lemma {:induction false} UnusedSem(threads: seq<Thread>, s: nat)
    requires forall t :: 0 <= t < |threads| && UsesSem(threads[t].phase) ==> threads[t].phase.sem < s
    ensures Sum(threads, Holds(s)) == 0 && Sum(threads, Sleeps(s)) == 0
  {
    if threads != [] {
      UnusedSem(threads[..|threads| - 1], s);
    }
  }

  /** Moving a thread among phases that concern no permit and no wake-up. */
  lemma QuietMoveKeepsSems(st: State, t: nat, phase: Phase)
    requires Inv(st) && t < |st.threads|
    requires forall s :: HasPermit(st.threads[t].phase, s) == HasPermit(phase, s)
    requires !st.threads[t].phase.Sleeping? && !st.threads[t].phase.Notified? && !phase.Sleeping? && !phase.Notified?
    ensures forall s {:trigger SemOk(SetPhase(st.threads, t, phase), st.sems[s], s)} ::
              0 <= s < |st.sems| ==> SemOk(SetPhase(st.threads, t, phase), st.sems[s], s)
  {
    forall s | 0 <= s < |st.sems|
      ensures SemOk(SetPhase(st.threads, t, phase), st.sems[s], s)
    {
      assert SemOk(st.threads, st.sems[s], s);
      Moved(st.threads, t, phase, s);
    }
  }

  lemma AcquireKeepsSem(threads: seq<Thread>, t: nat, mine: nat, phase: Phase, sem: Semaphore, sem': Semaphore, s: nat)
    requires t < |threads| && (threads[t].phase == Acquiring(mine) || threads[t].phase == Notified(mine))
    requires SemOk(threads, sem, s)
    requires || (phase == Sleeping(mine) && sem' == sem && (s == mine ==> sem.used >= sem.cap))
             || (phase == Holding(mine) && sem' == sem.(used := sem.used + One(s == mine)) && sem'.used <= sem.cap)
    ensures SemOk(SetPhase(threads, t, phase), sem', s)
  {
    Moved(threads, t, phase, s);
  }

  lemma AcquireKeepsInv(st: State, t: nat)
    requires Inv(st) && Enabled(st, Acquire(t))
    ensures Inv(Next(st, Acquire(t)))
  {
    hide Sum;
    var st' := Next(st, Acquire(t));
    var phase := st'.threads[t].phase;
    MovedCount(st.threads, t, phase);
    forall s | 0 <= s < |st.sems|
      ensures SemOk(st'.threads, st'.sems[s], s)
    {
      assert SemOk(st.threads, st.sems[s], s);
      AcquireKeepsSem(st.threads, t, st.threads[t].phase.sem, phase, st.sems[s], st'.sems[s], s);
    }
  }

  /** Giving a permit back: the wake-up it sends makes up for the permit, unless nobody sleeps. */
  lemma ReleaseKeepsSem(threads: seq<Thread>, t: nat, mine: nat, woken: Option<nat>, sem: Semaphore, s: nat)
    requires t < |threads| && HasPermit(threads[t].phase, mine) && SemOk(threads, sem, s)
    requires woken.Some? ==> woken.value < |threads| && threads[woken.value].phase == Sleeping(mine)
    requires woken.None? ==> forall u: nat :: u < |threads| ==> threads[u].phase != Sleeping(mine)
    ensures var mid := SetPhase(threads, t, Released);
            SemOk(if woken.Some? then SetPhase(mid, woken.value, Notified(mine)) else mid,
                  if s == mine then sem.(used := SaturatingSub(sem.used, 1)) else sem, s)
  {
    Moved(threads, t, Released, s);
    if woken.Some? {
      Moved(SetPhase(threads, t, Released), woken.value, Notified(mine), s);
    } else if s == mine && Sum(threads, Sleeps(s)) > 0 {
      var u := SumWitness(threads, Sleeps(s));
    }
    if s == mine {
      SumBound(threads, t, Holds(s));
    }
  }

  lemma ReleaseKeepsInv(st: State, t: nat, woken: Option<nat>)
    requires Inv(st) && Enabled(st, Release(t, woken))
    ensures Inv(Next(st, Release(t, woken)))
  {
    hide Sum, SemOk;
    var st' := Next(st, Release(t, woken));
    var mid, mine := SetPhase(st.threads, t, Released), st.threads[t].phase.sem;
    MovedCount(st.threads, t, Released);
    if woken.Some? {
      MovedCount(mid, woken.value, Notified(mine));
    }
    if woken.None? {
      forall u: nat | u < |st.threads|
        ensures st.threads[u].phase != Sleeping(mine)
      {
        assert !SleepsOn(st, u, mine);
      }
    }
    forall s | 0 <= s < |st.sems|
      ensures SemOk(st'.threads, st'.sems[s], s)
    {
      assert SemOk(st.threads, st.sems[s], s);
      ReleaseKeepsSem(st.threads, t, mine, woken, st.sems[s], s);
    }
  }

  lemma DoneKeepsInv(st: State, t: nat)
    requires Inv(st) && Enabled(st, Done(t))
    ensures Inv(Next(st, Done(t)))
  {
    QuietMoveKeepsSems(st, t, Finished);
    SumBound(st.threads, t, Registered());
    MovedCount(st.threads, t, Finished);
  }

  lemma SpawnKeepsInv(st: State, t: nat)
    requires Inv(st) && Enabled(st, Spawn(t))
    ensures Inv(Next(st, Spawn(t)))
  {
    hide Sum;
    var st' := Next(st, Spawn(t));
    var Spawning(sem, child, todo) := st.threads[t].phase;
    var mid := SetPhase(st.threads, t, Walking(sem, todo));
    QuietMoveKeepsSems(st, t, Walking(sem, todo));
    MovedCount(st.threads, t, Walking(sem, todo));
    forall s | 0 <= s < |st.sems|
      ensures SemOk(st'.threads, st'.sems[s], s)
    {
      assert SemOk(mid, st.sems[s], s);
      Spawned(mid, child, st.threads[t].level + 1, s);
    }
    Spawned(mid, child, st.threads[t].level + 1, 0);
  }

  lemma MainSpawnKeepsInv(st: State)
    requires Inv(st) && Enabled(st, MainSpawn)
    ensures Inv(Next(st, MainSpawn))
  {
    var st' := Next(st, MainSpawn);
    forall s | 0 <= s < |st.sems|
      ensures SemOk(st'.threads, st'.sems[s], s)
    {
      assert SemOk(st.threads, st.sems[s], s);
      Spawned(st.threads, st.main.root, 0, s);
    }
    Spawned(st.threads, st.main.root, 0, 0);
  }

  /** Walks already under way keep the semaphore they took, so replacing it disturbs none of them. */
  lemma ChangeThreadsKeepsInv(st: State, num: nat)
    requires Inv(st)
    ensures Inv(Next(st, ChangeThreads(num)))
  {
    var st' := Next(st, ChangeThreads(num));
    UnusedSem(st.threads, |st.sems|);
    forall s | 0 <= s < |st'.sems|
      ensures SemOk(st'.threads, st'.sems[s], s)
    {
      if s < |st.sems| {
        assert SemOk(st.threads, st.sems[s], s);
      }
    }
  }

  lemma SpuriousKeepsInv(st: State, t: nat)
    requires Inv(st) && Enabled(st, SpuriousWakeup(t))
    ensures Inv(Next(st, SpuriousWakeup(t)))
  {
    var st' := Next(st, SpuriousWakeup(t));
    var phase := st'.threads[t].phase;
    MovedCount(st.threads, t, phase);
    forall s | 0 <= s < |st.sems|
      ensures SemOk(st'.threads, st'.sems[s], s)
    {
      assert SemOk(st.threads, st.sems[s], s);
      Moved(st.threads, t, phase, s);
    }
  }

  lemma StepKeepsInv(st: State, step: Step)
    requires Inv(st) && Enabled(st, step)
    ensures Inv(Next(st, step))
  {
    hide Sum, SemOk;
    var st' := Next(st, step);
    match step
    case Begin(t) =>
      QuietMoveKeepsSems(st, t, st'.threads[t].phase);
      MovedCount(st.threads, t, st'.threads[t].phase);
    case Acquire(t) => AcquireKeepsInv(st, t);
    case Open(t) =>
      QuietMoveKeepsSems(st, t, st'.threads[t].phase);
      MovedCount(st.threads, t, st'.threads[t].phase);
    case Announce(t) =>
      SumBound(st.threads, t, Registered());
      QuietMoveKeepsSems(st, t, st'.threads[t].phase);
      MovedCount(st.threads, t, st'.threads[t].phase);
    case Spawn(t) => SpawnKeepsInv(st, t);
    case Release(t, woken) => ReleaseKeepsInv(st, t, woken);
    case Done(t) => DoneKeepsInv(st, t);
    case MainAnnounce => KeepsSems(st, st');
    case MainSpawn => MainSpawnKeepsInv(st);
    case MainWait => KeepsSems(st, st');
    case ChangeThreads(num) => ChangeThreadsKeepsInv(st, num);
    case PrintLimitReached => KeepsSems(st, st');
    case SpuriousWakeup(t) => SpuriousKeepsInv(st, t);
    case SpuriousMainWakeup => KeepsSems(st, st');
  }

  lemma KeepsSems(st: State, st': State)
    requires Inv(st) && st'.threads == st.threads && st'.sems == st.sems
    ensures forall s {:trigger SemOk(st'.threads, st'.sems[s], s)} ::
              0 <= s < |st'.sems| ==> SemOk(st'.threads, st'.sems[s], s)
  {
    forall s | 0 <= s < |st'.sems|
      ensures SemOk(st'.threads, st'.sems[s], s)
    {
      assert SemOk(st.threads, st.sems[s], s);
    }
  }

  // ---------------------------------------------------------------- some thread can always step

  /** Until `wait` has returned, some step of the program itself is enabled: no deadlock, no lost wake-up. */
  lemma Progress(st: State) returns (step: Step)
    requires Inv(st) && !st.main.Returned?
    ensures IsProgramStep(step) && Enabled(st, step)
  {
    match st.main
    case Calling(roots) => step := if roots == [] then MainWait else MainAnnounce;
    case Announcing(_, _) => step := MainSpawn;
    case Woken => step := MainWait;
    case Waiting =>
      var t := SumWitness(st.threads, Registered());
      if st.threads[t].phase.Sleeping? {
        t := AwakeOn(st, st.threads[t].phase.sem, t);
      }
      step := StepOf(st, t);
  }

  /** Whoever sleeps on a semaphore is not alone: a permit is held or a wake-up is under way. */
  lemma AwakeOn(st: State, s: nat, sleeper: nat) returns (t: nat)
    requires Inv(st) && SleepsOn(st, sleeper, s)
    ensures t < |st.threads| && !st.threads[t].phase.Sleeping? && !st.threads[t].phase.Finished?
  {
    assert SemOk(st.threads, st.sems[s], s);
    SumBound(st.threads, sleeper, Sleeps(s));
    if Sum(st.threads, IsNotified(s)) > 0 {
      t := SumWitness(st.threads, IsNotified(s));
    } else {
      t := SumWitness(st.threads, Holds(s));
    }
  }

  lemma StepOf(st: State, t: nat) returns (step: Step)
    requires Inv(st) && t < |st.threads|
    requires !st.threads[t].phase.Sleeping? && !st.threads[t].phase.Finished?
    ensures IsProgramStep(step) && Enabled(st, step)
  {
    match st.threads[t].phase
    case Started => step := Begin(t);
    case Acquiring(_) => step := Acquire(t);
    case Notified(_) => step := Acquire(t);
    case Holding(_) => step := Open(t);
    case Spawning(_, _, _) => step := Spawn(t);
    case Released => step := Done(t);
    case Walking(s, todo) =>
      if todo != [] && !st.enough {
        step := Announce(t);
      } else if u :| SleepsOn(st, u, s) {
        step := Release(t, Some(u));
      } else {
        step := Release(t, None);
      }
  }

  // ---------------------------------------------------------------- the program steps of a run are bounded

  /** An upper bound on the steps a directory still causes when a thread has been spawned for it. */
  ghost function DirCost(d: Dir): nat
    decreases d, 1
  {
    9 + ListCost(d.children)
  }

  ghost function ListCost(ds: seq<Dir>): nat
    decreases ds, 0
  {
    if ds == [] then 0 else DirCost(ds[0]) + 2 + ListCost(ds[1..])
  }

  ghost function PhaseCost(phase: Phase, d: Dir): nat {
    match phase
    case Started => 9 + ListCost(d.children)
    case Acquiring(_) => 8 + ListCost(d.children)
    case Notified(_) => 8 + ListCost(d.children)
    case Sleeping(_) => 7 + ListCost(d.children)
    case Holding(_) => 6 + ListCost(d.children)
    case Walking(_, todo) => 5 + ListCost(todo)
    case Spawning(_, child, todo) => 6 + DirCost(child) + ListCost(todo)
    case Released => 3
    case Finished => 0
  }

  ghost function Cost(): Thread -> nat {
    (t: Thread) => PhaseCost(t.phase, t.dir)
  }

  ghost function MainCost(main: Main): nat {
    match main
    case Calling(roots) => 2 + ListCost(roots)
    case Announcing(root, roots) => 3 + DirCost(root) + ListCost(roots)
    case Woken => 2
    case Waiting => 1
    case Returned => 0
  }

  ghost function Remaining(st: State): nat {
    Sum(st.threads, Cost()) + MainCost(st.main)
  }

  lemma MovedCost(threads: seq<Thread>, t: nat, phase: Phase)
    requires t < |threads|
    ensures Sum(SetPhase(threads, t, phase), Cost()) + PhaseCost(threads[t].phase, threads[t].dir) ==
            Sum(threads, Cost()) + PhaseCost(phase, threads[t].dir)
  {
    SumUpdate(threads, t, threads[t].(phase := phase), Cost());
  }

  lemma ReleaseUsesUp(st: State, t: nat, woken: Option<nat>)
    requires Enabled(st, Release(t, woken))
    ensures Remaining(Next(st, Release(t, woken))) < Remaining(st)
  {
    MovedCost(st.threads, t, Released);
    if woken.Some? {
      MovedCost(SetPhase(st.threads, t, Released), woken.value, Notified(st.threads[t].phase.sem));
    }
  }

  lemma SpawnUsesUp(st: State, t: nat)
    requires Enabled(st, Spawn(t))
    ensures Remaining(Next(st, Spawn(t))) < Remaining(st)
  {
    var Spawning(sem, child, todo) := st.threads[t].phase;
    MovedCost(st.threads, t, Walking(sem, todo));
    SumAppend(SetPhase(st.threads, t, Walking(sem, todo)), Thread(child, st.threads[t].level + 1, Started), Cost());
  }

  /** A step that moves one thread and touches neither the main thread nor the number of threads. */
  lemma MoveUsesUp(st: State, step: Step, t: nat)
    requires Enabled(st, step)
    requires step == Begin(t) || step == Acquire(t) || step == Open(t) || step == Announce(t)
    ensures Remaining(Next(st, step)) < Remaining(st)
  {
    MovedCost(st.threads, t, Next(st, step).threads[t].phase);
  }

  /** Every step of the program uses up some of what remains; only a spurious wake-up adds to it, and only one. */
  lemma StepUsesUp(st: State, step: Step)
    requires Enabled(st, step)
    ensures IsProgramStep(step) ==> Remaining(Next(st, step)) < Remaining(st)
    ensures Remaining(Next(st, step)) <= Remaining(st) + 1
    ensures step.ChangeThreads? || step.PrintLimitReached? ==> Remaining(Next(st, step)) == Remaining(st)
  {
    hide Sum;
    match step
    case Begin(t) => MoveUsesUp(st, step, t);
    case Acquire(t) => MoveUsesUp(st, step, t);
    case Open(t) => MoveUsesUp(st, step, t);
    case Announce(t) => MoveUsesUp(st, step, t);
    case Spawn(t) => SpawnUsesUp(st, t);
    case Release(t, woken) => ReleaseUsesUp(st, t, woken);
    case Done(t) => MovedCost(st.threads, t, Finished);
    case MainSpawn => SumAppend(st.threads, Thread(st.main.root, 0, Started), Cost());
    case SpuriousWakeup(t) => MovedCost(st.threads, t, Notified(st.threads[t].phase.sem));
    case _ =>
  }

  // ---------------------------------------------------------------- every directory within the limit is opened once

  /** How often a walk of `d` from `level` opens the path `p` when nothing stops it early. */
  ghost function Within(d: Dir, level: int, maxLevel: int, p: string): nat
    decreases d, 1
  {
    if level > maxLevel then 0 else One(d.path == p) + ListWithin(d.children, level + 1, maxLevel, p)
  }

  ghost function ListWithin(ds: seq<Dir>, level: int, maxLevel: int, p: string): nat
    decreases ds, 0
  {
    if ds == [] then 0 else Within(ds[0], level, maxLevel, p) + ListWithin(ds[1..], level, maxLevel, p)
  }

  ghost function PhaseAhead(phase: Phase, d: Dir, level: int, maxLevel: int, p: string): nat {
    match phase
    case Walking(_, todo) => ListWithin(todo, level + 1, maxLevel, p)
    case Spawning(_, child, todo) => Within(child, level + 1, maxLevel, p) + ListWithin(todo, level + 1, maxLevel, p)
    case Released => 0
    case Finished => 0
    case _ => Within(d, level, maxLevel, p)
  }

  ghost function Ahead(maxLevel: int, p: string): Thread -> nat {
    (t: Thread) => PhaseAhead(t.phase, t.dir, t.level, maxLevel, p)
  }

  ghost function MainAhead(main: Main, maxLevel: int, p: string): nat {
    match main
    case Calling(roots) => ListWithin(roots, 0, maxLevel, p)
    case Announcing(root, roots) => Within(root, 0, maxLevel, p) + ListWithin(roots, 0, maxLevel, p)
    case _ => 0
  }

  /** How often a path has been opened and will be. */
  ghost function Account(st: State, p: string): nat {
    st.visited[p] + Sum(st.threads, Ahead(st.maxLevel, p)) + MainAhead(st.main, st.maxLevel, p)
  }

  /** A thread that has a semaphore's handle passed the level check. */
  ghost predicate LevelsOk(st: State) {
    forall t :: 0 <= t < |st.threads| && UsesSem(st.threads[t].phase) ==> st.threads[t].level <= st.maxLevel
  }

  lemma MovedAhead(threads: seq<Thread>, t: nat, phase: Phase, maxLevel: int, p: string)
    requires t < |threads|
    ensures var thread := threads[t];
            Sum(SetPhase(threads, t, phase), Ahead(maxLevel, p))
            + PhaseAhead(thread.phase, thread.dir, thread.level, maxLevel, p) ==
            Sum(threads, Ahead(maxLevel, p)) + PhaseAhead(phase, thread.dir, thread.level, maxLevel, p)
  {
    SumUpdate(threads, t, threads[t].(phase := phase), Ahead(maxLevel, p));
  }

  lemma ReleaseKeepsAccount(st: State, t: nat, woken: Option<nat>, p: string)
    requires LevelsOk(st) && Enabled(st, Release(t, woken))
    ensures Account(Next(st, Release(t, woken)), p) <= Account(st, p)
    ensures !st.enough ==> Account(Next(st, Release(t, woken)), p) == Account(st, p)
  {
    MovedAhead(st.threads, t, Released, st.maxLevel, p);
    if woken.Some? {
      MovedAhead(SetPhase(st.threads, t, Released), woken.value, Notified(st.threads[t].phase.sem), st.maxLevel, p);
    }
  }

  lemma SpawnKeepsAccount(st: State, t: nat, p: string)
    requires LevelsOk(st) && Enabled(st, Spawn(t))
    ensures Account(Next(st, Spawn(t)), p) == Account(st, p)
  {
    var Spawning(sem, child, todo) := st.threads[t].phase;
    MovedAhead(st.threads, t, Walking(sem, todo), st.maxLevel, p);
    SumAppend(SetPhase(st.threads, t, Walking(sem, todo)), Thread(child, st.threads[t].level + 1, Started),
              Ahead(st.maxLevel, p));
  }

  lemma MoveKeepsAccount(st: State, step: Step, t: nat, p: string)
    requires LevelsOk(st) && Enabled(st, step)
    requires step == Begin(t) || step == Acquire(t) || step == Open(t) || step == Announce(t)
    ensures Account(Next(st, step), p) <= Account(st, p)
    ensures !st.enough ==> Account(Next(st, step), p) == Account(st, p)
  {
    MovedAhead(st.threads, t, Next(st, step).threads[t].phase, st.maxLevel, p);
  }

  lemma StepKeepsAccount(st: State, step: Step, p: string)
    requires LevelsOk(st) && Enabled(st, step)
    ensures Account(Next(st, step), p) <= Account(st, p)
    ensures !st.enough ==> Account(Next(st, step), p) == Account(st, p)
  {
    hide Sum;
    match step
    case Begin(t) => MoveKeepsAccount(st, step, t, p);
    case Acquire(t) => MoveKeepsAccount(st, step, t, p);
    case Open(t) => MoveKeepsAccount(st, step, t, p);
    case Announce(t) => MoveKeepsAccount(st, step, t, p);
    case Spawn(t) => SpawnKeepsAccount(st, t, p);
    case Release(t, woken) => ReleaseKeepsAccount(st, t, woken, p);
    case Done(t) => MovedAhead(st.threads, t, Finished, st.maxLevel, p);
    case MainSpawn => SumAppend(st.threads, Thread(st.main.root, 0, Started), Ahead(st.maxLevel, p));
    case SpuriousWakeup(t) => MovedAhead(st.threads, t, Notified(st.threads[t].phase.sem), st.maxLevel, p);
    case _ =>
  }

  lemma StepKeepsLevels(st: State, step: Step)
    requires LevelsOk(st) && Enabled(st, step)
    ensures LevelsOk(Next(st, step)) && Next(st, step).maxLevel == st.maxLevel
    ensures st.enough ==> Next(st, step).enough
  {
  }

  // ---------------------------------------------------------------- runs

  ghost predicate IsRun(st: State, steps: seq<Step>)
    decreases |steps|
  {
    if steps == [] then true else Enabled(st, steps[0]) && IsRun(Next(st, steps[0]), steps[1..])
  }

  ghost function EndOf(st: State, steps: seq<Step>): State
    requires IsRun(st, steps)
    decreases |steps|
  {
    if steps == [] then st else EndOf(Next(st, steps[0]), steps[1..])
  }

  ghost function ProgramSteps(steps: seq<Step>): nat {
    if steps == [] then 0 else One(IsProgramStep(steps[0])) + ProgramSteps(steps[1..])
  }

  ghost function SpuriousWakeups(steps: seq<Step>): nat {
    if steps == [] then 0
    else One(steps[0].SpuriousWakeup? || steps[0].SpuriousMainWakeup?) + SpuriousWakeups(steps[1..])
  }

  /** The invariant, the step bound and the directory account over a whole run. */
  lemma {:induction false} RunFacts(st: State, steps: seq<Step>, p: string)
    requires Inv(st) && LevelsOk(st) && IsRun(st, steps)
    ensures var end := EndOf(st, steps);
            && Inv(end) && LevelsOk(end) && end.maxLevel == st.maxLevel
            && (st.enough ==> end.enough)
            && Account(end, p) <= Account(st, p) && (!end.enough ==> Account(end, p) == Account(st, p))
            && ProgramSteps(steps) + Remaining(end) <= Remaining(st) + SpuriousWakeups(steps)
    decreases |steps|
  {
    if steps != [] {
      StepKeepsInv(st, steps[0]);
      StepKeepsLevels(st, steps[0]);
      StepKeepsAccount(st, steps[0], p);
      StepUsesUp(st, steps[0]);
      RunFacts(Next(st, steps[0]), steps[1..], p);
    }
  }

  lemma {:induction false} NothingAhead(threads: seq<Thread>, maxLevel: int, p: string)
    requires forall t :: 0 <= t < |threads| ==> threads[t].phase.Finished?
    ensures Sum(threads, Ahead(maxLevel, p)) == 0 && forall s :: Sum(threads, Holds(s)) == 0
  {
    if threads != [] {
      NothingAhead(threads[..|threads| - 1], maxLevel, p);
    }
  }

  /** When `wait` has returned, every walk spawned on the way has finished and given its permit back. */
  lemma ReturnedMeansFinished(st: State, p: string)
    requires Inv(st) && st.main.Returned?
    ensures forall t :: 0 <= t < |st.threads| ==> st.threads[t].phase.Finished?
    ensures forall s :: 0 <= s < |st.sems| ==> st.sems[s].used == 0
    ensures Account(st, p) == st.visited[p]
  {
    forall t | 0 <= t < |st.threads|
      ensures st.threads[t].phase.Finished?
    {
      SumBound(st.threads, t, Registered());
    }
    NothingAhead(st.threads, st.maxLevel, p);
    forall s | 0 <= s < |st.sems|
      ensures st.sems[s].used == 0
    {
      assert SemOk(st.threads, st.sems[s], s);
    }
  }

  /**
   * A run that cannot be continued by the program has returned from `wait`, with
   * every walk finished and every permit back; unless the print limit stopped it,
   * each directory within the level limit was opened exactly once.
   */
  lemma MaximalRun(roots: seq<Dir>, maxLevel: int, steps: seq<Step>)
    requires IsRun(Init(roots, maxLevel), steps)
    requires forall step :: IsProgramStep(step) ==> !Enabled(EndOf(Init(roots, maxLevel), steps), step)
    ensures var end := EndOf(Init(roots, maxLevel), steps);
            && end.main.Returned?
            && (forall t :: 0 <= t < |end.threads| ==> end.threads[t].phase.Finished?)
            && (forall s :: 0 <= s < |end.sems| ==> end.sems[s].used == 0)
            && (forall p :: end.visited[p] <= ListWithin(roots, 0, maxLevel, p))
            && (!end.enough ==> forall p :: end.visited[p] == ListWithin(roots, 0, maxLevel, p))
  {
    var end := EndOf(Init(roots, maxLevel), steps);
    InitInv(roots, maxLevel);
    RunFacts(Init(roots, maxLevel), steps, "");
    if !end.main.Returned? {
      var step := Progress(end);
    }
    ReturnedMeansFinished(end, "");
    forall p
      ensures end.visited[p] <= ListWithin(roots, 0, maxLevel, p)
      ensures !end.enough ==> end.visited[p] == ListWithin(roots, 0, maxLevel, p)
    {
      RunFacts(Init(roots, maxLevel), steps, p);
      ReturnedMeansFinished(end, p);
    }
  }

  /** No run takes more program steps than the directories allow, plus one for each spurious wake-up. */
  lemma RunIsBounded(roots: seq<Dir>, maxLevel: int, steps: seq<Step>)
    requires IsRun(Init(roots, maxLevel), steps)
    ensures ProgramSteps(steps) <= 2 + ListCost(roots) + SpuriousWakeups(steps)
  {
    InitInv(roots, maxLevel);
    RunFacts(Init(roots, maxLevel), steps, "");
  }

  // ---------------------------------------------------------------- what changing the number of threads does

  /** The thread uses a semaphore at `st`, and at `st0` it was not there or had not begun. */
  ghost predicate BegunSince(st0: State, st: State, t: nat) {
    && t < |st.threads| && UsesSem(st.threads[t].phase)
    && (t < |st0.threads| ==> st0.threads[t].phase.Started?)
  }

  /** The walks that had not begun at `st0` take the semaphore that was current then. */
  ghost predicate TakesCurrent(st0: State, st: State) {
    && |st0.threads| <= |st.threads| && st.current == st0.current < |st.sems| && st0.current < |st0.sems|
    && st.sems[st.current].cap == st0.sems[st0.current].cap
    && forall t: nat :: BegunSince(st0, st, t) ==> st.threads[t].phase.sem == st0.current
  }

  lemma StepTakesCurrent(st0: State, st: State, step: Step)
    requires TakesCurrent(st0, st) && Enabled(st, step) && !step.ChangeThreads?
    ensures TakesCurrent(st0, Next(st, step))
  {
  }

  ghost predicate NeverChanged(steps: seq<Step>) {
    forall i :: 0 <= i < |steps| ==> !steps[i].ChangeThreads?
  }

  lemma {:induction false} RunTakesCurrent(st0: State, st: State, steps: seq<Step>)
    requires TakesCurrent(st0, st) && IsRun(st, steps) && NeverChanged(steps)
    ensures TakesCurrent(st0, EndOf(st, steps))
    decreases |steps|
  {
    hide TakesCurrent;
    if steps != [] {
      StepTakesCurrent(st0, st, steps[0]);
      RunTakesCurrent(st0, Next(st, steps[0]), steps[1..]);
    }
  }

  /**
   * After the number of threads has been changed, and until it is again, all walks that had not begun
   * take one new semaphore, and never more of them than asked for, but at least one, go on at once.
   */
  lemma NoMoreThanAsked(st: State, num: nat, steps: seq<Step>)
    requires Inv(st) && LevelsOk(st) && IsRun(Next(st, ChangeThreads(num)), steps) && NeverChanged(steps)
    ensures var end, s := EndOf(Next(st, ChangeThreads(num)), steps), |st.sems|;
            && s < |end.sems| && end.sems[s].cap >= 1 && end.sems[s].cap >= num
            && (end.sems[s].cap == 1 || end.sems[s].cap == num)
            && Sum(end.threads, Holds(s)) <= end.sems[s].cap
            && forall t: nat :: BegunSince(st, end, t) ==> end.threads[t].phase.sem == s
  {
    var st0 := Next(st, ChangeThreads(num));
    ChangeThreadsKeepsInv(st, num);
    RunFacts(st0, steps, "");
    RunTakesCurrent(st0, st0, steps);
    var end := EndOf(st0, steps);
    assert SemOk(end.threads, end.sems[|st.sems|], |st.sems|);
    assert forall t: nat :: BegunSince(st, end, t) ==> BegunSince(st0, end, t);
  }
}
