/**
 The re-entrant journal lock as steps of many threads in many processes.

 Each process has a re-entrant thread lock for every journal path, each thread records the depth
 of its entries, and the operating system's process lock on the journal's lock file is held
 by at most one open file.  A thread is interrupted between any two steps below.
 */
module JournalLock {

  type Path = string

  type Positive = n: nat | n > 0 witness 1

  datatype Thread = Thread(process: nat, id: nat)

  /** The owner of a thread lock and how often it has acquired it. */
  datatype Hold = Hold(owner: Thread, count: Positive)

  /** Where a thread is in entering or leaving the lock of a path. */
  datatype Stage =
    | Running
    | Entering(path: Path)   // has acquired the thread lock
    | Waiting(path: Path)    // has opened the lock file, wants the process lock
    | Recording(path: Path)  // has the process lock
    | Unlocking(path: Path)  // is leaving for the last time
    | Closing(path: Path)    // has released the process lock
    | Releasing(path: Path)  // has only the thread lock to give back

  datatype Locks = Locks(
    threadLocks: map<(nat, Path), Hold>,
    depths: map<(Thread, Path), Positive>,
    processLocks: map<Path, Thread>,
    stages: map<Thread, Stage>)

  const START := Locks(map[], map[], map[], map[])

  function StageOf(s: Locks, t: Thread): Stage {
    if t in s.stages then s.stages[t] else Running
  }

  /** The depth a thread has recorded for a path. */
  function Depth(s: Locks, t: Thread, p: Path): nat {
    if (t, p) in s.depths then s.depths[(t, p)] else 0
  }

  /** How often a thread holds its process's thread lock for a path. */
  function Count(s: Locks, t: Thread, p: Path): nat {
    if (t.process, p) in s.threadLocks && s.threadLocks[(t.process, p)].owner == t
    then s.threadLocks[(t.process, p)].count
    else 0
  }

  predicate HoldsProcessLock(s: Locks, t: Thread, p: Path) {
    p in s.processLocks && s.processLocks[p] == t
  }

  /** Inside the guarded region: entered, and not yet past the start of the last exit. */
  predicate Inside(s: Locks, t: Thread, p: Path) {
    Depth(s, t, p) > 0 && StageOf(s, t) != Unlocking(p) && StageOf(s, t) != Closing(p)
  }

  // ----- Steps

  datatype Action =
    | Acquire(t: Thread, path: Path)
    | Enter(t: Thread)
    | LockFile(t: Thread)
    | LockFails(t: Thread)
    | Record(t: Thread)
    | Leave(t: Thread, path: Path)
    | Unlock(t: Thread)
    | Close(t: Thread)
    | Release(t: Thread)

  /** A thread lock can be acquired when it is free or already this thread's. */
  predicate CanAcquire(s: Locks, t: Thread, p: Path) {
    (t.process, p) in s.threadLocks ==> s.threadLocks[(t.process, p)].owner == t
  }

  predicate Enabled(s: Locks, a: Action) {
    match a
    case Acquire(t, p) => StageOf(s, t).Running? && CanAcquire(s, t, p)
    case Enter(t) => StageOf(s, t).Entering?
    case LockFile(t) => StageOf(s, t).Waiting? && StageOf(s, t).path !in s.processLocks
    case LockFails(t) => StageOf(s, t).Waiting?
    case Record(t) => StageOf(s, t).Recording?
    case Leave(t, p) => StageOf(s, t).Running? && (t, p) in s.depths
    case Unlock(t) => StageOf(s, t).Unlocking?
    case Close(t) => StageOf(s, t).Closing?
    case Release(t) => StageOf(s, t).Releasing?
  }

  /** Giving a thread lock back once; the last time frees it. */
  function Dropped(s: Locks, t: Thread, p: Path): map<(nat, Path), Hold> {
    var count := Count(s, t, p);
    if count <= 1 then s.threadLocks - {(t.process, p)}
    else s.threadLocks[(t.process, p) := Hold(t, count - 1)]
  }

  function Step(s: Locks, a: Action): Locks
    requires Enabled(s, a)
  {
    match a
    case Acquire(t, p) =>
      s.(threadLocks := s.threadLocks[(t.process, p) := Hold(t, Count(s, t, p) + 1)],
         stages := s.stages[t := Entering(p)])
    case Enter(t) =>
      var p := StageOf(s, t).path;
      if (t, p) in s.depths then
        s.(depths := s.depths[(t, p) := s.depths[(t, p)] + 1], stages := s.stages[t := Running])
      else s.(stages := s.stages[t := Waiting(p)])
    case LockFile(t) =>
      var p := StageOf(s, t).path;
      s.(processLocks := s.processLocks[p := t], stages := s.stages[t := Recording(p)])
    case LockFails(t) =>
      var p := StageOf(s, t).path;
      s.(threadLocks := Dropped(s, t, p), stages := s.stages[t := Running])
    case Record(t) =>
      var p := StageOf(s, t).path;
      s.(depths := s.depths[(t, p) := 1], stages := s.stages[t := Running])
    case Leave(t, p) =>
      if s.depths[(t, p)] == 1 then s.(stages := s.stages[t := Unlocking(p)])
      else
        s.(depths := s.depths[(t, p) := s.depths[(t, p)] - 1],
           stages := s.stages[t := Releasing(p)])
    case Unlock(t) =>
      var p := StageOf(s, t).path;
      s.(processLocks := s.processLocks - {p}, stages := s.stages[t := Closing(p)])
    case Close(t) =>
      var p := StageOf(s, t).path;
      s.(depths := s.depths - {(t, p)}, stages := s.stages[t := Releasing(p)])
    case Release(t) =>
      var p := StageOf(s, t).path;
      s.(threadLocks := Dropped(s, t, p), stages := s.stages[t := Running])
  }

  // ----- The invariant

  /** Acquisitions of the thread lock that no recorded depth accounts for yet, or any more. */
  function Pending(stage: Stage, p: Path): nat {
    if stage == Entering(p) || stage == Waiting(p) || stage == Recording(p) || stage == Releasing(p) then 1 else 0
  }

  ghost predicate Consistent(s: Locks, t: Thread, p: Path) {
    var stage := StageOf(s, t);
    && Count(s, t, p) == Depth(s, t, p) + Pending(stage, p)
    && (stage == Waiting(p) || stage == Recording(p) ==> Depth(s, t, p) == 0)
    && (stage == Unlocking(p) || stage == Closing(p) ==> Depth(s, t, p) == 1)
    && (HoldsProcessLock(s, t, p) <==> stage == Recording(p) || (Depth(s, t, p) > 0 && stage != Closing(p)))
  }

  ghost predicate AllConsistent(s: Locks) {
    forall t, p :: Consistent(s, t, p)
  }

  /** A step of one thread leaves what another records and holds for every path alone. */
  ghost predicate Undisturbed(s: Locks, s': Locks, t: Thread, p: Path) {
    && StageOf(s', t) == StageOf(s, t)
    && Count(s', t, p) == Count(s, t, p)
    && Depth(s', t, p) == Depth(s, t, p)
    && (HoldsProcessLock(s', t, p) <==> HoldsProcessLock(s, t, p))
  }

  function Actor(a: Action): Thread {
    a.t
  }

  /** The path an action is about. */
  function PathOf(s: Locks, a: Action): Path
    requires Enabled(s, a)
  {
    if a.Acquire? || a.Leave? then a.path else StageOf(s, Actor(a)).path
  }

  lemma OthersUndisturbed(s: Locks, a: Action, t: Thread, p: Path)
    requires Enabled(s, a) && Consistent(s, Actor(a), PathOf(s, a))
    requires t != Actor(a)
    ensures Undisturbed(s, Step(s, a), t, p)
  {
  }

  /** The actor's own bookkeeping for its path stays consistent. */
  lemma ActorConsistent(s: Locks, a: Action)
    requires Enabled(s, a) && Consistent(s, Actor(a), PathOf(s, a))
    ensures Consistent(Step(s, a), Actor(a), PathOf(s, a))
  {
  }

  /** So does its bookkeeping for every other path. */
  lemma OtherPathsConsistent(s: Locks, a: Action, p: Path)
    requires Enabled(s, a) && p != PathOf(s, a) && Consistent(s, Actor(a), p)
    ensures Consistent(Step(s, a), Actor(a), p)
  {
    OtherPathKept(s, a, p);
    OtherPathStage(s, a, p);
    hide Step, Enabled, Count, Depth, HoldsProcessLock;
  }

  /** A step leaves the locks of every other path as they are. */
  lemma OtherPathKept(s: Locks, a: Action, p: Path)
    requires Enabled(s, a) && p != PathOf(s, a)
    ensures Count(Step(s, a), Actor(a), p) == Count(s, Actor(a), p)
    ensures Depth(Step(s, a), Actor(a), p) == Depth(s, Actor(a), p)
    ensures HoldsProcessLock(Step(s, a), Actor(a), p) <==> HoldsProcessLock(s, Actor(a), p)
  {
  }

  /** Before and after a step the actor is at no stage of another path. */
  ghost predicate Elsewhere(stage: Stage, p: Path) {
    stage.Running? || stage.path != p
  }

  lemma OtherPathStage(s: Locks, a: Action, p: Path)
    requires Enabled(s, a) && p != PathOf(s, a)
    ensures Elsewhere(StageOf(s, Actor(a)), p) && Elsewhere(StageOf(Step(s, a), Actor(a)), p)
  {
    hide Count, Depth, HoldsProcessLock, Dropped;
  }

  lemma StepKeepsConsistent(s: Locks, a: Action)
    requires Enabled(s, a) && AllConsistent(s)
    ensures AllConsistent(Step(s, a))
  {
    hide Consistent, Step;
    forall t, p ensures Consistent(Step(s, a), t, p) {
      assert Consistent(s, t, p) && Consistent(s, Actor(a), PathOf(s, a));
      if t == Actor(a) {
        if p == PathOf(s, a) {
          ActorConsistent(s, a);
        } else {
          OtherPathsConsistent(s, a, p);
        }
      } else {
        OthersUndisturbed(s, a, t, p);
        UndisturbedConsistent(s, Step(s, a), t, p);
      }
    }
  }

  lemma UndisturbedConsistent(s: Locks, s': Locks, t: Thread, p: Path)
    requires Consistent(s, t, p) && Undisturbed(s, s', t, p)
    ensures Consistent(s', t, p)
  {
  }

  // ----- Every run

  ghost predicate IsRun(run: seq<Locks>) {
    && |run| > 0
    && run[0] == START
    && forall i :: 0 <= i < |run| - 1 ==> Follows(run[i], run[i + 1])
  }

  ghost predicate Follows(s: Locks, s': Locks) {
    exists a :: Enabled(s, a) && s' == Step(s, a)
  }

  lemma {:induction false} EveryRunConsistent(run: seq<Locks>, n: nat)
    requires IsRun(run) && n < |run|
    ensures AllConsistent(run[n])
  {
    hide Step, Enabled;
    if n == 0 {
      StartConsistent();
    } else {
      EveryRunConsistent(run, n - 1);
      assert Follows(run[n - 1], run[n]);
      var a :| Enabled(run[n - 1], a) && run[n] == Step(run[n - 1], a);
      StepKeepsConsistent(run[n - 1], a);
    }
  }

  lemma StartConsistent()
    ensures AllConsistent(START)
  {
  }

  /** At most one thread of all processes is inside the lock of a path; a running thread's
      recorded depth is its thread-lock count; and the process lock is held from the first entry
      to the matching last exit and no longer. */
  lemma LockExcludes(run: seq<Locks>, n: nat, t: Thread, u: Thread, p: Path)
    requires IsRun(run) && n < |run|
    ensures Inside(run[n], t, p) && Inside(run[n], u, p) ==> t == u
    ensures StageOf(run[n], t).Running? ==> Depth(run[n], t, p) == Count(run[n], t, p)
    ensures StageOf(run[n], t).Running? ==> (HoldsProcessLock(run[n], t, p) <==> Depth(run[n], t, p) > 0)
    ensures Inside(run[n], t, p) ==> HoldsProcessLock(run[n], t, p)
  {
    hide IsRun;
    EveryRunConsistent(run, n);
    assert Consistent(run[n], t, p) && Consistent(run[n], u, p);
  }

  /** Entering and leaving once, with nothing in between, changes nothing. */
  lemma NestedEntryReturns(s: Locks, t: Thread, p: Path)
    requires Consistent(s, t, p) && StageOf(s, t).Running? && (t, p) in s.depths
    ensures Enabled(s, Acquire(t, p))
    ensures var s1 := Step(s, Acquire(t, p)); Enabled(s1, Enter(t))
    ensures var s2 := Step(Step(s, Acquire(t, p)), Enter(t));
      && Depth(s2, t, p) == Depth(s, t, p) + 1
      && Enabled(s2, Leave(t, p))
      && var s3 := Step(s2, Leave(t, p));
         Enabled(s3, Release(t)) && Step(s3, Release(t)).(stages := s.stages) == s
  {
    var s1 := Step(s, Acquire(t, p));
    var s2 := Step(s1, Enter(t));
    var s3 := Step(s2, Leave(t, p));
    var s4 := Step(s3, Release(t));
    assert s4.depths == s.depths;
    assert s4.threadLocks == s.threadLocks;
  }

  // ----- The lock lets in

  /** A thread that does not hold the lock of a path, whose process's thread lock is free for it and
      whose process lock nobody holds. */
  ghost predicate CanEnter(s: Locks, t: Thread, p: Path) {
    && StageOf(s, t).Running?
    && Depth(s, t, p) == 0
    && CanAcquire(s, t, p)
    && p !in s.processLocks
  }

  /** The four steps of a first entry, from a state of a run: each is enabled after the one before,
      and the thread is inside at depth one with the process lock. */
  lemma FirstEntry(s: Locks, t: Thread, p: Path)
    requires AllConsistent(s) && CanEnter(s, t, p)
    ensures Enabled(s, Acquire(t, p))
    ensures var s1 := Step(s, Acquire(t, p)); Enabled(s1, Enter(t))
    ensures var s2 := Step(Step(s, Acquire(t, p)), Enter(t)); Enabled(s2, LockFile(t))
    ensures var s3 := Step(Step(Step(s, Acquire(t, p)), Enter(t)), LockFile(t)); Enabled(s3, Record(t))
    ensures var s4 := Entered(s, t, p);
      && StageOf(s4, t).Running?
      && Inside(s4, t, p) && Depth(s4, t, p) == 1 && Count(s4, t, p) == 1 && HoldsProcessLock(s4, t, p)
  {
    assert Consistent(s, t, p);
  }

  /** The state after a first entry. */
  ghost function Entered(s: Locks, t: Thread, p: Path): Locks
    requires AllConsistent(s) && CanEnter(s, t, p)
  {
    assert Consistent(s, t, p);
    Step(Step(Step(Step(s, Acquire(t, p)), Enter(t)), LockFile(t)), Record(t))
  }

  /** The four steps of a last exit, from a state of a run: each is enabled after the one before, and
      then the thread lock and the process lock are free. */
  lemma LastExit(s: Locks, t: Thread, p: Path)
    requires AllConsistent(s) && StageOf(s, t).Running? && Depth(s, t, p) == 1
    ensures Enabled(s, Leave(t, p))
    ensures var s1 := Step(s, Leave(t, p)); Enabled(s1, Unlock(t))
    ensures var s2 := Step(Step(s, Leave(t, p)), Unlock(t)); Enabled(s2, Close(t))
    ensures var s3 := Step(Step(Step(s, Leave(t, p)), Unlock(t)), Close(t)); Enabled(s3, Release(t))
    ensures var s4 := Left(s, t, p);
      && StageOf(s4, t).Running?
      && Depth(s4, t, p) == 0 && Count(s4, t, p) == 0
      && (t.process, p) !in s4.threadLocks && p !in s4.processLocks
  {
    assert Consistent(s, t, p);
  }

  /** The state after a last exit. */
  ghost function Left(s: Locks, t: Thread, p: Path): Locks
    requires AllConsistent(s) && StageOf(s, t).Running? && Depth(s, t, p) == 1
  {
    assert Consistent(s, t, p);
    Step(Step(Step(Step(s, Leave(t, p)), Unlock(t)), Close(t)), Release(t))
  }

  /** In every run, a thread that leaves for the last time lets another process in: one that was already
      waiting for the process lock can take it, and one that is running can go through a whole entry. */
  lemma LeavingLetsIn(run: seq<Locks>, n: nat, t: Thread, u: Thread, p: Path)
    requires IsRun(run) && n < |run| && u != t
    requires StageOf(run[n], t).Running? && Depth(run[n], t, p) == 1
    ensures AllConsistent(run[n])
    ensures StageOf(run[n], u) == Waiting(p) ==> Enabled(Left(run[n], t, p), LockFile(u))
    ensures u.process != t.process && StageOf(run[n], u).Running? && CanAcquire(run[n], u, p) ==>
      AllConsistent(Left(run[n], t, p)) && CanEnter(Left(run[n], t, p), u, p)
  {
    EveryRunConsistent(run, n);
    LastExit(run[n], t, p);
    ExitKeepsOthers(run[n], t, u, p);
    ExitKeepsConsistent(run[n], t, p);
    if u.process != t.process && StageOf(run[n], u).Running? && CanAcquire(run[n], u, p) {
      OutsideDepth(run, n, t, u, p);
    }
  }

  /** While one thread is inside, another that is running has not entered. */
  lemma OutsideDepth(run: seq<Locks>, n: nat, t: Thread, u: Thread, p: Path)
    requires IsRun(run) && n < |run| && t != u
    requires StageOf(run[n], t).Running? && Depth(run[n], t, p) > 0 && StageOf(run[n], u).Running?
    ensures Depth(run[n], u, p) == 0
  {
    LockExcludes(run, n, t, u, p);
  }

  /** What a last exit leaves of another thread. */
  lemma ExitKeepsOthers(s: Locks, t: Thread, u: Thread, p: Path)
    requires AllConsistent(s) && StageOf(s, t).Running? && Depth(s, t, p) == 1 && u != t
    ensures StageOf(Left(s, t, p), u) == StageOf(s, u) && Depth(Left(s, t, p), u, p) == Depth(s, u, p)
    ensures u.process != t.process && CanAcquire(s, u, p) ==> CanAcquire(Left(s, t, p), u, p)
  {
    assert Consistent(s, t, p);
  }

  lemma ExitKeepsConsistent(s: Locks, t: Thread, p: Path)
    requires AllConsistent(s) && StageOf(s, t).Running? && Depth(s, t, p) == 1
    ensures AllConsistent(Left(s, t, p))
  {
    hide Step, Enabled, AllConsistent, Consistent;
    LastExit(s, t, p);
    StepKeepsConsistent(s, Leave(t, p));
    var s1 := Step(s, Leave(t, p));
    StepKeepsConsistent(s1, Unlock(t));
    var s2 := Step(s1, Unlock(t));
    StepKeepsConsistent(s2, Close(t));
    StepKeepsConsistent(Step(s2, Close(t)), Release(t));
  }

  lemma Extend(run: seq<Locks>, a: Action) returns (longer: seq<Locks>)
    requires IsRun(run) && Enabled(run[|run| - 1], a)
    ensures IsRun(longer) && longer == run + [Step(run[|run| - 1], a)]
  {
    hide Enabled, Step;
    longer := run + [Step(run[|run| - 1], a)];
    forall i | 0 <= i < |longer| - 1 ensures Follows(longer[i], longer[i + 1]) {
      if i < |run| - 1 {
        assert Follows(run[i], run[i + 1]);
      }
    }
  }

  /** Every run in which a thread can enter goes on, in four steps, to one in which it is inside. */
  lemma EntryInRun(run: seq<Locks>, t: Thread, p: Path) returns (longer: seq<Locks>)
    requires IsRun(run) && CanEnter(run[|run| - 1], t, p)
    ensures IsRun(longer) && |longer| == |run| + 4 && run <= longer
    ensures Inside(longer[|longer| - 1], t, p) && HoldsProcessLock(longer[|longer| - 1], t, p)
    ensures Depth(longer[|longer| - 1], t, p) == 1
  {
    hide Step, Enabled;
    EveryRunConsistent(run, |run| - 1);
    FirstEntry(run[|run| - 1], t, p);
    longer := Extend(run, Acquire(t, p));
    longer := Extend(longer, Enter(t));
    longer := Extend(longer, LockFile(t));
    longer := Extend(longer, Record(t));
  }

  /** A failed process lock leaves everything as it was before the entry. */
  lemma FailureReturns(s: Locks, t: Thread, p: Path)
    requires AllConsistent(s) && CanEnter(s, t, p)
    ensures Enabled(s, Acquire(t, p))
    ensures var s1 := Step(s, Acquire(t, p)); Enabled(s1, Enter(t))
    ensures var s2 := Step(Step(s, Acquire(t, p)), Enter(t));
      Enabled(s2, LockFails(t)) && Step(s2, LockFails(t)).(stages := s.stages) == s
  {
    assert Consistent(s, t, p);
    var s3 := Step(Step(Step(s, Acquire(t, p)), Enter(t)), LockFails(t));
    assert s3.threadLocks == s.threadLocks;
  }
}
