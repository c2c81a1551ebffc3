/** The writer-preferring readers-writer lock (tracker/src/lock/rwlock.h) as a state machine over an
    unbounded set of threads. One step is one section of code that runs under the mutex: from acquiring it to
    releasing it or going to sleep on a condition variable. A thread that waits on a condition variable is
    asleep, or was notified and has not yet taken the mutex again. */
module RwLock {

  type Thread = nat

  datatype Place = ReadAsleep | ReadWoken | Reading | WriteAsleep | WriteWoken | Writing

  /** The three fields of the lock, and where each thread is. A thread outside the map is outside the lock. */
  datatype State = State(reader: int, writeQuest: int, writer: bool, at: map<Thread, Place>)
  {
    predicate ReadersBlocked() { writeQuest > 0 || writer }

    predicate WritersBlocked() { reader > 0 || writer }

    predicate Is(t: Thread, p: Place) { t in at && at[t] == p }

    predicate Waits(t: Thread) { t in at && at[t] != Reading && at[t] != Writing }

    predicate Holds(t: Thread) { Is(t, Reading) || Is(t, Writing) }
  }

  const FREE := State(0, 0, false, map[])

  // ---------------------------------------------------------------- the steps

  /** What the guard of the reader's wait loop decides for thread t. */
  function ReaderGuard(s: State, t: Thread): State {
    if s.ReadersBlocked() then s.(at := s.at[t := ReadAsleep])
    else s.(reader := s.reader + 1, at := s.at[t := Reading])
  }

  /** What the guard of the writer's wait loop decides for thread t. */
  function WriterGuard(s: State, t: Thread): State {
    if s.WritersBlocked() then s.(at := s.at[t := WriteAsleep])
    else s.(writeQuest := s.writeQuest - 1, writer := true, at := s.at[t := Writing])
  }

  /** notify_one on the writers' condition variable: it wakes some sleeper if there is one. */
  predicate WakesOneWriter(s: State, s': State) {
    || (s' == s && forall w <- s.at :: !s.Is(w, WriteAsleep))
    || exists w <- s.at :: s.Is(w, WriteAsleep) && s' == s.(at := s.at[w := WriteWoken])
  }

  function WakeAllReaders(at: map<Thread, Place>): map<Thread, Place> {
    map t | t in at :: if at[t] == ReadAsleep then ReadWoken else at[t]
  }

  predicate ReaderArrives(s: State, s': State, t: Thread) {
    t !in s.at && s' == ReaderGuard(s, t)
  }

  predicate ReaderResumes(s: State, s': State, t: Thread) {
    s.Is(t, ReadWoken) && s' == ReaderGuard(s, t)
  }

  predicate ReaderLeaves(s: State, s': State, t: Thread) {
    s.Is(t, Reading)
    && var u := s.(reader := s.reader - 1, at := s.at - {t});
       if u.reader == 0 then WakesOneWriter(u, s') else s' == u
  }

  predicate WriterArrives(s: State, s': State, t: Thread) {
    t !in s.at && s' == WriterGuard(s.(writeQuest := s.writeQuest + 1), t)
  }

  predicate WriterResumes(s: State, s': State, t: Thread) {
    s.Is(t, WriteWoken) && s' == WriterGuard(s, t)
  }

  predicate WriterLeaves(s: State, s': State, t: Thread) {
    s.Is(t, Writing)
    && var u := s.(writer := false, at := s.at - {t});
       if u.writeQuest > 0 then WakesOneWriter(u, s') else s' == u.(at := WakeAllReaders(u.at))
  }

  /** A wait may also return without any notification. */
  predicate Spurious(s: State, s': State, t: Thread) {
    || (s.Is(t, ReadAsleep) && s' == s.(at := s.at[t := ReadWoken]))
    || (s.Is(t, WriteAsleep) && s' == s.(at := s.at[t := WriteWoken]))
  }

  /** The steps of threads that are inside and were not woken by chance. */
  predicate Progress(s: State, s': State, t: Thread) {
    ReaderResumes(s, s', t) || ReaderLeaves(s, s', t) || WriterResumes(s, s', t) || WriterLeaves(s, s', t)
  }

  predicate Step(s: State, s': State, t: Thread) {
    Progress(s, s', t) || ReaderArrives(s, s', t) || WriterArrives(s, s', t) || Spurious(s, s', t)
  }

  ghost predicate Moves(s: State, s': State) { exists t :: Step(s, s', t) }

  ghost predicate Run(run: seq<State>) {
    && |run| > 0 && run[0] == FREE
    && forall i :: 0 < i < |run| ==> Moves(run[i - 1], run[i])
  }

  // ---------------------------------------------------------------- counting threads

  function Who(at: map<Thread, Place>, p: Place): set<Thread> {
    set t | t in at && at[t] == p
  }

  function Count(at: map<Thread, Place>, p: Place): nat { |Who(at, p)| }

  function One(b: bool): nat { if b then 1 else 0 }

  lemma CountMoved(at: map<Thread, Place>, t: Thread, q: Place, p: Place)
    ensures Count(at[t := q], p) == Count(at, p) - One(t in at && at[t] == p) + One(q == p)
  {
    assert Who(at[t := q], p) == if q == p then Who(at, p) + {t} else Who(at, p) - {t};
  }

  lemma CountsMoved(at: map<Thread, Place>, t: Thread, q: Place)
    ensures forall p :: Count(at[t := q], p) == Count(at, p) - One(t in at && at[t] == p) + One(q == p)
  {
    forall p { CountMoved(at, t, q, p); }
  }

  lemma CountRemoved(at: map<Thread, Place>, t: Thread, p: Place)
    ensures Count(at - {t}, p) == Count(at, p) - One(t in at && at[t] == p)
  {
    assert Who(at - {t}, p) == Who(at, p) - {t};
  }

  lemma CountWoken(at: map<Thread, Place>, p: Place)
    ensures Count(WakeAllReaders(at), p) ==
            if p == ReadAsleep then 0
            else if p == ReadWoken then Count(at, ReadAsleep) + Count(at, ReadWoken)
            else Count(at, p)
  {
    if p == ReadAsleep {
      assert Who(WakeAllReaders(at), p) == {};
    } else if p == ReadWoken {
      assert Who(at, ReadAsleep) !! Who(at, ReadWoken);
      assert Who(WakeAllReaders(at), p) == Who(at, ReadAsleep) + Who(at, ReadWoken);
    } else {
      assert Who(WakeAllReaders(at), p) == Who(at, p);
    }
  }

  lemma CountSome(at: map<Thread, Place>, p: Place)
    ensures Count(at, p) > 0 <==> exists t <- at :: at[t] == p
  {
    if Count(at, p) > 0 {
      var t :| t in Who(at, p);
      assert at[t] == p;
    }
    if t :| t in at && at[t] == p {
      assert t in Who(at, p);
    }
  }

  // ---------------------------------------------------------------- safety

  /** The three fields say how many threads are where. */
  predicate Counted(s: State) {
    && s.reader == Count(s.at, Reading)
    && s.writeQuest == Count(s.at, WriteAsleep) + Count(s.at, WriteWoken)
    && s.writer == (Count(s.at, Writing) > 0)
  }

  predicate Exclusive(s: State) {
    Count(s.at, Writing) <= 1 && (Count(s.at, Writing) > 0 ==> Count(s.at, Reading) == 0)
  }

  /** Sleeping readers wait for a writer, waiting or writing. */
  predicate ReadersWillWake(s: State) {
    Count(s.at, ReadAsleep) > 0 ==>
      Count(s.at, WriteAsleep) + Count(s.at, WriteWoken) + Count(s.at, Writing) > 0
  }

  /** Sleeping writers wait for a holder, or for a writer already notified. */
  predicate WritersWillWake(s: State) {
    Count(s.at, WriteAsleep) > 0 ==>
      Count(s.at, Reading) + Count(s.at, Writing) + Count(s.at, WriteWoken) > 0
  }

  predicate Inv(s: State) {
    Counted(s) && Exclusive(s) && ReadersWillWake(s) && WritersWillWake(s)
  }

  lemma ReaderGuardKeeps(s: State, t: Thread)
    requires Inv(s) && (t !in s.at || s.at[t] == ReadWoken)
    ensures Inv(ReaderGuard(s, t))
  {
    hide Count;
    CountsMoved(s.at, t, ReadAsleep);
    CountsMoved(s.at, t, Reading);
  }

  lemma WriterArrivesKeeps(s: State, s': State, t: Thread)
    requires Inv(s) && WriterArrives(s, s', t)
    ensures Inv(s')
  {
    hide Count;
    CountsMoved(s.at, t, WriteAsleep);
    CountsMoved(s.at, t, Writing);
  }

  lemma WriterResumesKeeps(s: State, s': State, t: Thread)
    requires Inv(s) && WriterResumes(s, s', t)
    ensures Inv(s')
  {
    hide Count;
    CountsMoved(s.at, t, WriteAsleep);
    CountsMoved(s.at, t, Writing);
  }

  /** Waking a writer is right whatever the writers waited for. */
  lemma WakesOneWriterKeeps(s: State, s': State)
    requires Counted(s) && Exclusive(s) && ReadersWillWake(s) && WakesOneWriter(s, s')
    ensures Inv(s')
  {
    hide Count;
    CountSome(s.at, WriteAsleep);
    if w :| w in s.at && s.Is(w, WriteAsleep) && s' == s.(at := s.at[w := WriteWoken]) {
      CountsMoved(s.at, w, WriteWoken);
    }
  }

  lemma ReaderLeavesKeeps(s: State, s': State, t: Thread)
    requires Inv(s) && ReaderLeaves(s, s', t)
    ensures Inv(s')
  {
    hide Count, WakesOneWriter;
    forall p { CountRemoved(s.at, t, p); }
    var u := s.(reader := s.reader - 1, at := s.at - {t});
    if u.reader == 0 { WakesOneWriterKeeps(u, s'); }
  }

  lemma WriterLeavesKeeps(s: State, s': State, t: Thread)
    requires Inv(s) && WriterLeaves(s, s', t)
    ensures Inv(s')
  {
    hide Count, WakesOneWriter, WakeAllReaders;
    forall p { CountRemoved(s.at, t, p); }
    var u := s.(writer := false, at := s.at - {t});
    if u.writeQuest > 0 {
      WakesOneWriterKeeps(u, s');
    } else {
      forall p { CountWoken(u.at, p); }
    }
  }

  lemma SpuriousKeeps(s: State, s': State, t: Thread)
    requires Inv(s) && Spurious(s, s', t)
    ensures Inv(s')
  {
    hide Count;
    CountsMoved(s.at, t, ReadWoken);
    CountsMoved(s.at, t, WriteWoken);
  }

  lemma StepKeeps(s: State, s': State, t: Thread)
    requires Inv(s) && Step(s, s', t)
    ensures Inv(s')
  {
    hide Inv;
    if {
      case ReaderResumes(s, s', t) => ReaderGuardKeeps(s, t);
      case ReaderLeaves(s, s', t) => ReaderLeavesKeeps(s, s', t);
      case WriterResumes(s, s', t) => WriterResumesKeeps(s, s', t);
      case WriterLeaves(s, s', t) => WriterLeavesKeeps(s, s', t);
      case ReaderArrives(s, s', t) => ReaderGuardKeeps(s, t);
      case WriterArrives(s, s', t) => WriterArrivesKeeps(s, s', t);
      case Spurious(s, s', t) => SpuriousKeeps(s, s', t);
    }
  }

  lemma FreeIsSafe()
    ensures Inv(FREE)
  {
    forall p ensures Count(FREE.at, p) == 0 { CountSome(FREE.at, p); }
  }

  /** In every state of every run, spurious wakeups included: the fields count what they name, no writer
      shares the lock, and nobody sleeps without a thread that will wake it. */
  lemma {:induction false} RunIsSafe(run: seq<State>, i: nat)
    requires Run(run) && i < |run|
    ensures Inv(run[i])
  {
    hide Inv, Step;
    if i == 0 {
      FreeIsSafe();
    } else {
      RunIsSafe(run, i - 1);
      var t :| Step(run[i - 1], run[i], t);
      StepKeeps(run[i - 1], run[i], t);
    }
  }

  /** Said of the threads themselves: whoever writes holds the lock alone. */
  lemma MutualExclusion(run: seq<State>, i: nat, t: Thread, u: Thread)
    requires Run(run) && i < |run|
    requires run[i].Is(t, Writing) && run[i].Holds(u)
    ensures t == u
  {
    RunIsSafe(run, i);
    var s := run[i];
    CountSome(s.at, Writing);
    CountSome(s.at, Reading);
    if t != u {
      assert {t, u} <= Who(s.at, Writing);
      Subset({t, u}, Who(s.at, Writing));
    }
  }

  lemma Subset(a: set<Thread>, b: set<Thread>)
    requires a <= b
    ensures |a| <= |b|
  {
    assert b == a + (b - a);
  }

  predicate NoWriter(s: State) {
    forall t <- s.at :: s.Is(t, ReadAsleep) || s.Is(t, ReadWoken) || s.Is(t, Reading)
  }

  /** A thread starts reading only when no writer waits or writes. */
  lemma WritersGoFirst(run: seq<State>, i: nat, t: Thread)
    requires Run(run) && 0 < i < |run|
    requires run[i].Is(t, Reading) && !run[i - 1].Is(t, Reading)
    ensures NoWriter(run[i - 1])
  {
    hide Count;
    var s, s' := run[i - 1], run[i];
    RunIsSafe(run, i - 1);
    var u :| Step(s, s', u);
    forall p { CountSome(s.at, p); }
    assert !s.ReadersBlocked();
  }

  // ---------------------------------------------------------------- progress

  /** notify_one can always run. */
  lemma SomeoneWakes(s: State) returns (s': State)
    ensures WakesOneWriter(s, s')
  {
    if w :| w in s.at && s.Is(w, WriteAsleep) {
      s' := s.(at := s.at[w := WriteWoken]);
    } else {
      s' := s;
    }
  }

  /** Whoever was notified or holds the lock can run on. */
  lemma CanRun(s: State, t: Thread) returns (s': State)
    requires t in s.at && s.at[t] != ReadAsleep && s.at[t] != WriteAsleep
    ensures Progress(s, s', t)
  {
    hide WakesOneWriter;
    match s.at[t]
    case ReadWoken => s' := ReaderGuard(s, t);
    case WriteWoken => s' := WriterGuard(s, t);
    case Reading =>
      s' := s.(reader := s.reader - 1, at := s.at - {t});
      if s'.reader == 0 { s' := SomeoneWakes(s'); }
    case Writing =>
      s' := s.(writer := false, at := s.at - {t});
      if s'.writeQuest > 0 { s' := SomeoneWakes(s'); } else { s' := s'.(at := WakeAllReaders(s'.at)); }
  }

  ghost predicate Stuck(s: State) { forall s': State, t :: !Progress(s, s', t) }

  /** No deadlock: as long as a thread is inside, some thread can run on without a new arrival and without
      luck. So a state from which nothing can move is the free lock. */
  lemma StuckMeansFree(s: State)
    requires Inv(s) && Stuck(s)
    ensures s == FREE
  {
    hide Count, Progress;
    forall t | t in s.at ensures s.at[t] == ReadAsleep || s.at[t] == WriteAsleep {
      if s.at[t] != ReadAsleep && s.at[t] != WriteAsleep {
        var s' := CanRun(s, t);
      }
    }
    forall p { CountSome(s.at, p); }
    assert s.at == map[];
  }

  function WaitingCount(at: map<Thread, Place>): nat {
    Count(at, ReadAsleep) + Count(at, ReadWoken) + Count(at, WriteAsleep) + Count(at, WriteWoken)
  }

  function HoldingCount(at: map<Thread, Place>): nat { Count(at, Reading) + Count(at, Writing) }

  function WokenCount(at: map<Thread, Place>): nat { Count(at, ReadWoken) + Count(at, WriteWoken) }

  /** The measure of what is still to be done: entering and leaving outweigh all the wakeups they cause. */
  function Work(s: State): nat {
    (2 * WaitingCount(s.at) + HoldingCount(s.at)) * (WaitingCount(s.at) + HoldingCount(s.at) + 1)
    + WokenCount(s.at)
  }

  lemma LeavingFalls(waiting: nat, holding: nat, woken: nat, woken': nat)
    requires holding > 0 && woken' <= waiting
    ensures (2 * waiting + (holding - 1)) * (waiting + (holding - 1) + 1) + woken'
         < (2 * waiting + holding) * (waiting + holding + 1) + woken
  {
    var x, k := 2 * waiting + holding, waiting + holding;
    assert (x - 1) * k == x * k - k;
    assert x * (k + 1) == x * k + x;
  }

  lemma EnteringFalls(waiting: nat, holding: nat, woken: nat)
    requires waiting > 0 && woken > 0
    ensures (2 * (waiting - 1) + (holding + 1)) * (waiting - 1 + (holding + 1) + 1) + (woken - 1)
         < (2 * waiting + holding) * (waiting + holding + 1) + woken
  {
    var x, k := 2 * waiting + holding, waiting + holding + 1;
    assert (x - 1) * k == x * k - k;
  }

  lemma WakingCounts(s: State, s': State)
    requires WakesOneWriter(s, s')
    ensures WaitingCount(s'.at) == WaitingCount(s.at) && HoldingCount(s'.at) == HoldingCount(s.at)
  {
    hide Count;
    if w :| w in s.at && s.Is(w, WriteAsleep) && s' == s.(at := s.at[w := WriteWoken]) {
      CountsMoved(s.at, w, WriteWoken);
    }
  }

  /** A holder that leaves changes nothing about who waits; it may only wake some of them. */
  lemma LeavingCounts(s: State, s': State, t: Thread)
    requires ReaderLeaves(s, s', t) || WriterLeaves(s, s', t)
    ensures WaitingCount(s'.at) == WaitingCount(s.at) && HoldingCount(s'.at) == HoldingCount(s.at) - 1
  {
    hide Count, WakesOneWriter, WakeAllReaders;
    forall p { CountRemoved(s.at, t, p); }
    var u := s.(at := s.at - {t});
    if ReaderLeaves(s, s', t) {
      u := u.(reader := s.reader - 1);
      if u.reader == 0 { WakingCounts(u, s'); }
    } else {
      u := u.(writer := false);
      if u.writeQuest > 0 { WakingCounts(u, s'); } else { forall p { CountWoken(u.at, p); } }
    }
  }

  /** A notified thread that runs on either takes the lock or goes back to sleep, notified no more. */
  lemma ResumingCounts(s: State, s': State, t: Thread)
    requires ReaderResumes(s, s', t) || WriterResumes(s, s', t)
    ensures WokenCount(s'.at) == WokenCount(s.at) - 1
    ensures if s'.Holds(t)
            then WaitingCount(s'.at) == WaitingCount(s.at) - 1 && HoldingCount(s'.at) == HoldingCount(s.at) + 1
            else WaitingCount(s'.at) == WaitingCount(s.at) && HoldingCount(s'.at) == HoldingCount(s.at)
  {
    hide Count;
    CountsMoved(s.at, t, ReadAsleep);
    CountsMoved(s.at, t, Reading);
    CountsMoved(s.at, t, WriteAsleep);
    CountsMoved(s.at, t, Writing);
  }

  /** Every step of the threads that are inside reduces the work. */
  lemma WorkFalls(s: State, s': State, t: Thread)
    requires Progress(s, s', t)
    ensures Work(s') < Work(s)
  {
    hide ReaderResumes, ReaderLeaves, WriterResumes, WriterLeaves, HoldingCount, Count;
    if ReaderLeaves(s, s', t) || WriterLeaves(s, s', t) {
      LeavingCounts(s, s', t);
      LeavingFalls(WaitingCount(s.at), HoldingCount(s.at), WokenCount(s.at), WokenCount(s'.at));
    } else {
      ResumingCounts(s, s', t);
      if s'.Holds(t) {
        EnteringFalls(WaitingCount(s.at), HoldingCount(s.at), WokenCount(s.at));
      }
    }
  }

  /** A run of the threads inside s alone: nobody arrives and nothing wakes without being notified. */
  ghost predicate Drain(s: State, run: seq<State>) {
    && |run| > 0 && run[0] == s
    && forall i :: 0 < i < |run| ==> Proceeds(run[i - 1], run[i])
  }

  ghost predicate Proceeds(s: State, s': State) { exists t :: Progress(s, s', t) }

  lemma {:induction false} DrainGoesOn(s: State, run: seq<State>, i: nat)
    requires Inv(s) && Drain(s, run) && i < |run|
    ensures Inv(run[i])
    ensures i + Work(run[i]) <= Work(s)
  {
    hide Inv, Work, Progress;
    if i > 0 {
      DrainGoesOn(s, run, i - 1);
      var t :| Progress(run[i - 1], run[i], t);
      StepKeeps(run[i - 1], run[i], t);
      WorkFalls(run[i - 1], run[i], t);
    }
  }

  /** Nobody leaves the queue except by taking the lock. */
  lemma WaitsOrHolds(s: State, s': State, t: Thread, u: Thread)
    requires Progress(s, s', u) && s.Waits(t)
    ensures s'.Waits(t) || s'.Holds(t)
  {}

  lemma {:induction false} WaitsUntilServed(s: State, run: seq<State>, t: Thread, i: nat)
    requires Drain(s, run) && s.Waits(t) && i < |run|
    ensures run[i].Waits(t) || exists j :: 0 < j <= i && run[j].Holds(t)
  {
    hide Progress, State.Waits, State.Holds;
    if i > 0 {
      WaitsUntilServed(s, run, t, i - 1);
      if run[i - 1].Waits(t) {
        var u :| Progress(run[i - 1], run[i], u);
        WaitsOrHolds(run[i - 1], run[i], t, u);
      }
    }
  }

  /** The lock drains: from any reachable state, the threads inside take at most Work(s) more steps, and when
      they can take no more every thread that waited has held the lock and the lock is free again. */
  lemma Drains(s: State, run: seq<State>)
    requires Inv(s) && Drain(s, run)
    ensures |run| <= Work(s) + 1
    ensures Stuck(run[|run| - 1]) ==> run[|run| - 1] == FREE
    ensures Stuck(run[|run| - 1]) ==>
              forall t | s.Waits(t) :: exists j :: 0 < j < |run| && run[j].Holds(t)
  {
    hide Inv, Work, Progress, Stuck;
    DrainGoesOn(s, run, |run| - 1);
    if Stuck(run[|run| - 1]) {
      StuckMeansFree(run[|run| - 1]);
      forall t | s.Waits(t) ensures exists j :: 0 < j < |run| && run[j].Holds(t) {
        WaitsUntilServed(s, run, t, |run| - 1);
      }
    }
  }

  // ---------------------------------------------------------------- the lock as the program has it

  /** The fields of the source, and a ghost map that says where its callers are. */
  class RWlock {
    var reader: int
    var writeQuest: int
    var writer: bool
    ghost var at: map<Thread, Place>

    ghost function View(): State
      reads this
    {
      State(reader, writeQuest, writer, at)
    }

    constructor ()
      ensures View() == FREE
    {
      reader, writeQuest, writer := 0, 0, false;
      at := map[];
    }

    /** ReaderLockRAII up to its first decision. */
    method ReaderLock(t: Thread) returns (entered: bool)
      requires Inv(View()) && t !in at
      modifies this
      ensures ReaderArrives(old(View()), View(), t) && Inv(View())
      ensures entered == View().Is(t, Reading)
    {
      hide Inv;
      ghost var s := View();
      entered := ReaderCheck(t);
      StepKeeps(s, View(), t);
    }

    /** One more round of its wait loop, after a notification. */
    method ReaderAgain(t: Thread) returns (entered: bool)
      requires Inv(View()) && View().Is(t, ReadWoken)
      modifies this
      ensures ReaderResumes(old(View()), View(), t) && Inv(View())
      ensures entered == View().Is(t, Reading)
    {
      hide Inv;
      ghost var s := View();
      entered := ReaderCheck(t);
      StepKeeps(s, View(), t);
    }

    method ReaderCheck(t: Thread) returns (entered: bool)
      modifies this
      ensures View() == ReaderGuard(old(View()), t)
      ensures entered == !old(View()).ReadersBlocked()
    {
      if writeQuest > 0 || writer {
        at := at[t := ReadAsleep];
        return false;
      }
      reader := reader + 1;
      at := at[t := Reading];
      return true;
    }

    method ReaderUnlock(t: Thread)
      requires Inv(View()) && View().Is(t, Reading)
      modifies this
      ensures ReaderLeaves(old(View()), View(), t) && Inv(View())
    {
      hide Inv, WakesOneWriter;
      ghost var s := View();
      reader := reader - 1;
      at := at - {t};
      if reader == 0 {
        NotifyOneWriter();
      }
      StepKeeps(s, View(), t);
    }

    /** WriterLockRAII up to its first decision. */
    method WriterLock(t: Thread) returns (entered: bool)
      requires Inv(View()) && t !in at
      modifies this
      ensures WriterArrives(old(View()), View(), t) && Inv(View())
      ensures entered == View().Is(t, Writing)
    {
      hide Inv;
      ghost var s := View();
      writeQuest := writeQuest + 1;
      entered := WriterCheck(t);
      StepKeeps(s, View(), t);
    }

    method WriterAgain(t: Thread) returns (entered: bool)
      requires Inv(View()) && View().Is(t, WriteWoken)
      modifies this
      ensures WriterResumes(old(View()), View(), t) && Inv(View())
      ensures entered == View().Is(t, Writing)
    {
      hide Inv;
      ghost var s := View();
      entered := WriterCheck(t);
      StepKeeps(s, View(), t);
    }

    method WriterCheck(t: Thread) returns (entered: bool)
      modifies this
      ensures View() == WriterGuard(old(View()), t)
      ensures entered == !old(View()).WritersBlocked()
    {
      if reader > 0 || writer {
        at := at[t := WriteAsleep];
        return false;
      }
      writeQuest := writeQuest - 1;
      writer := true;
      at := at[t := Writing];
      return true;
    }

    method WriterUnlock(t: Thread)
      requires Inv(View()) && View().Is(t, Writing)
      modifies this
      ensures WriterLeaves(old(View()), View(), t) && Inv(View())
    {
      hide Inv, WakesOneWriter, WakeAllReaders;
      ghost var s := View();
      writer := false;
      at := at - {t};
      if writeQuest > 0 {
        NotifyOneWriter();
      } else {
        at := WakeAllReaders(at);
      }
      StepKeeps(s, View(), t);
    }

    /** The condition variable wakes any one sleeper, or nobody if nobody sleeps. */
    ghost method NotifyOneWriter()
      modifies this`at
      ensures WakesOneWriter(old(View()), View())
    {
      if w :| w in at && at[w] == WriteAsleep {
        assert old(View()).Is(w, WriteAsleep);
        at := at[w := WriteWoken];
      }
    }
  }
}
