/** The bounded blocking queue (storage/src/log/blockqueue.h) as a state machine over an unbounded set of
    threads, in the same style as the readers-writer lock: one step is one section of code under the mutex. A
    thread inside push or pop that is not running is asleep on its condition variable, or was notified and has
    not yet taken the mutex again. Notified threads and new arrivals race for the mutex. */
module BlockDeques {

  type Thread = nat

  datatype Place<T> =
    | ProducerAsleep(item: T, front: bool)
    | ProducerWoken(item: T, front: bool)
    | ConsumerAsleep(timed: bool)
    | ConsumerWoken(timed: bool)

  datatype Kind = PA | PW | CA | CW

  function KindOf<T>(p: Place<T>): Kind {
    match p
    case ProducerAsleep(_, _) => PA
    case ProducerWoken(_, _) => PW
    case ConsumerAsleep(_) => CA
    case ConsumerWoken(_) => CW
  }

  function Awake<T>(p: Place<T>): Place<T> {
    match p
    case ProducerAsleep(item, front) => ProducerWoken(item, front)
    case ConsumerAsleep(timed) => ConsumerWoken(timed)
    case _ => p
  }

  /** The queue, where the threads are, and the history: what was pushed and popped, in order, and what clear
      or Close threw away. */
  datatype State<T(==)> = State(
    deq: seq<T>, capacity: nat, isClose: bool, at: map<Thread, Place<T>>,
    pushed: seq<T>, popped: seq<T>, dropped: multiset<T>)
  {
    predicate Is(t: Thread, k: Kind) { t in at && KindOf(at[t]) == k }
  }

  function Fresh<T>(capacity: nat): State<T> {
    State([], capacity, false, map[], [], [], multiset{})
  }

  // ---------------------------------------------------------------- the steps

  datatype Event<T> =
    | PushArrives(t: Thread, item: T, front: bool)
    | PushResumes(t: Thread)
    | PopArrives(t: Thread, timed: bool)
    | PopResumes(t: Thread)
    | TimesOut(t: Thread)
    | TimesOutLate(t: Thread)
    | Spurious(t: Thread)
    | Consume
    | Clear
    | Close
    | NotifyConsumers
    | NotifyProducers

  /** notify_one: some sleeper of kind k wakes, if there is one. */
  predicate WakesOne<T>(s: State<T>, s': State<T>, k: Kind) {
    || (s' == s && forall w <- s.at :: !s.Is(w, k))
    || exists w <- s.at :: s.Is(w, k) && s' == s.(at := s.at[w := Awake(s.at[w])])
  }

  function WakeAll<T>(at: map<Thread, Place<T>>, k: Kind): map<Thread, Place<T>> {
    map t | t in at :: if KindOf(at[t]) == k then Awake(at[t]) else at[t]
  }

  function Inserted<T>(s: State<T>, item: T, front: bool): State<T> {
    s.(deq := if front then [item] + s.deq else s.deq + [item], pushed := s.pushed + [item])
  }

  function Taken<T>(s: State<T>): State<T>
    requires s.deq != []
  {
    s.(deq := s.deq[1..], popped := s.popped + [s.deq[0]])
  }

  /** push from the test of its wait loop on. */
  predicate PushSection<T>(s: State<T>, s': State<T>, t: Thread, item: T, front: bool) {
    if |s.deq| >= s.capacity then s' == s.(at := s.at[t := ProducerAsleep(item, front)])
    else WakesOne(Inserted(s.(at := s.at - {t}), item, front), s', CA)
  }

  /** pop from the test of its wait loop on. */
  predicate PopSection<T>(s: State<T>, s': State<T>, t: Thread, timed: bool) {
    if s.deq == [] then s' == s.(at := s.at[t := ConsumerAsleep(timed)])
    else WakesOne(Taken(s.(at := s.at - {t})), s', PA)
  }

  function Emptied<T>(s: State<T>): State<T> {
    s.(deq := [], dropped := s.dropped + multiset(s.deq))
  }

  /** Close empties the queue under the mutex and notifies both sides after releasing it: three steps. A
      consumer looks at isClose only after it was woken. A timed consumer that was notified but whose time is
      up when it gets the mutex gives up all the same. */
  predicate Happens<T>(s: State<T>, s': State<T>, e: Event<T>) {
    match e
    case PushArrives(t, item, front) => t !in s.at && PushSection(s, s', t, item, front)
    case PushResumes(t) => s.Is(t, PW) && PushSection(s, s', t, s.at[t].item, s.at[t].front)
    case PopArrives(t, timed) => t !in s.at && PopSection(s, s', t, timed)
    case PopResumes(t) =>
      s.Is(t, CW) && if s.isClose then s' == s.(at := s.at - {t}) else PopSection(s, s', t, s.at[t].timed)
    case TimesOut(t) => s.Is(t, CA) && s.at[t].timed && s' == s.(at := s.at - {t})
    case TimesOutLate(t) => s.Is(t, CW) && s.at[t].timed && s' == s.(at := s.at - {t})
    case Spurious(t) => (s.Is(t, PA) || s.Is(t, CA)) && s' == s.(at := s.at[t := Awake(s.at[t])])
    case Consume => WakesOne(s, s', CA)
    case Clear => s' == Emptied(s)
    case Close => s' == Emptied(s).(isClose := true)
    case NotifyConsumers => s' == s.(at := WakeAll(s.at, CA))
    case NotifyProducers => s' == s.(at := WakeAll(s.at, PA))
  }

  /** Pushing keeps the order of the queue: an item pushed in front is popped next, one pushed at the back after all
      others. */
  lemma PoppedNext<T>(s: State<T>, s': State<T>, s'': State<T>, t: Thread, u: Thread, item: T, front: bool, timed: bool)
    requires Happens(s, s', PushArrives(t, item, front)) && |s.deq| < s.capacity
    requires Happens(s', s'', PopArrives(u, timed))
    ensures s''.popped == s.popped + [if front || s.deq == [] then item else s.deq[0]]
    ensures s''.deq == if front || s.deq == [] then s.deq else s.deq[1..] + [item]
  {
    hide WakesOne;
    var i := Inserted(s.(at := s.at - {t}), item, front);
    WakingKeeps(i, s', CA);
    WakingKeeps(Taken(s'.(at := s'.at - {u})), s'', PA);
    assert ([item] + s.deq)[1..] == s.deq && (s.deq != [] ==> (s.deq + [item])[1..] == s.deq[1..] + [item]);
  }

  lemma WakingKeeps<T>(s: State<T>, s': State<T>, k: Kind)
    requires WakesOne(s, s', k)
    ensures s' == s.(at := s'.at)
  {}

  predicate Run<T>(capacity: nat, states: seq<State<T>>, events: seq<Event<T>>) {
    && |states| == |events| + 1 && states[0] == Fresh(capacity)
    && forall i :: 0 <= i < |events| ==> Happens(states[i], states[i + 1], events[i])
  }

  // ---------------------------------------------------------------- what happens to the items

  predicate Conserved<T>(s: State<T>) {
    multiset(s.pushed) == multiset(s.popped) + multiset(s.deq) + s.dropped
  }

  lemma InsertedConserves<T>(s: State<T>, item: T, front: bool)
    requires Conserved(s)
    ensures Conserved(Inserted(s, item, front))
  {}

  lemma TakenConserves<T>(s: State<T>)
    requires Conserved(s) && s.deq != []
    ensures Conserved(Taken(s))
  {
    assert s.deq == [s.deq[0]] + s.deq[1..];
  }

  /** The same items at the same places, whoever waits. */
  predicate SameItems<T>(s: State<T>, s': State<T>) {
    && s'.deq == s.deq && s'.capacity == s.capacity && s'.isClose == s.isClose
    && s'.pushed == s.pushed && s'.popped == s.popped && s'.dropped == s.dropped
  }

  predicate Sound<T>(s: State<T>) { |s.deq| <= s.capacity && Conserved(s) }

  lemma PushSound<T>(s: State<T>, s': State<T>, t: Thread, item: T, front: bool)
    requires Sound(s) && PushSection(s, s', t, item, front)
    ensures Sound(s')
  {
    if |s.deq| < s.capacity {
      InsertedConserves(s, item, front);
      assert SameItems(Inserted(s, item, front), s');
    }
  }

  lemma PopSound<T>(s: State<T>, s': State<T>, t: Thread, timed: bool)
    requires Sound(s) && PopSection(s, s', t, timed)
    ensures Sound(s')
  {
    if s.deq != [] {
      TakenConserves(s);
      assert SameItems(Taken(s), s');
    }
  }

  lemma StepSound<T>(s: State<T>, s': State<T>, e: Event<T>)
    requires Sound(s) && Happens(s, s', e)
    ensures Sound(s') && s'.capacity == s.capacity
  {
    hide Sound, PushSection, PopSection;
    match e
    case PushArrives(t, item, front) => PushSound(s, s', t, item, front); SectionsKeep(s, s', t);
    case PushResumes(t) => PushSound(s, s', t, s.at[t].item, s.at[t].front); SectionsKeep(s, s', t);
    case PopArrives(t, timed) => PopSound(s, s', t, timed); SectionsKeep(s, s', t);
    case PopResumes(t) =>
      if s.isClose { SameSound(s, s'); } else { PopSound(s, s', t, s.at[t].timed); SectionsKeep(s, s', t); }
    case Clear => EmptiedSound(s, s');
    case Close => EmptiedSound(s, s');
    case _ => SameSound(s, s');
  }

  lemma SameSound<T>(s: State<T>, s': State<T>)
    requires Sound(s) && SameItems(s, s')
    ensures Sound(s')
  {}

  lemma EmptiedSound<T>(s: State<T>, s': State<T>)
    requires Sound(s) && (s' == Emptied(s) || s' == Emptied(s).(isClose := true))
    ensures Sound(s')
  {}

  lemma SectionsKeep<T>(s: State<T>, s': State<T>, t: Thread)
    ensures forall item, front :: PushSection(s, s', t, item, front) ==> s'.capacity == s.capacity && s'.isClose == s.isClose
    ensures forall timed :: PopSection(s, s', t, timed) ==> s'.capacity == s.capacity && s'.isClose == s.isClose
  {}

  /** On every run, clear and Close included, the queue never exceeds its capacity and no item is lost or made
      up: what was pushed is what was popped, what is queued and what was thrown away. */
  lemma {:induction false} BoundedAndConserved<T>(capacity: nat, states: seq<State<T>>, events: seq<Event<T>>, i: nat)
    requires Run(capacity, states, events) && i < |states|
    ensures |states[i].deq| <= capacity == states[i].capacity
    ensures multiset(states[i].pushed) == multiset(states[i].popped) + multiset(states[i].deq) + states[i].dropped
    ensures Sound(states[i])
  {
    hide Happens;
    if i > 0 {
      BoundedAndConserved(capacity, states, events, i - 1);
      assert Happens(states[i - 1], states[i - 1 + 1], events[i - 1]);
      StepSound(states[i - 1], states[i], events[i - 1]);
    }
  }

  /** The events of a queue used with push_back alone and not emptied. */
  predicate Orderly<T>(e: Event<T>) {
    !e.Clear? && !e.Close? && (e.PushArrives? ==> !e.front)
  }

  predicate InOrder<T>(s: State<T>) {
    s.pushed == s.popped + s.deq
    && forall t <- s.at :: !(s.at[t].ProducerAsleep? && s.at[t].front) && !(s.at[t].ProducerWoken? && s.at[t].front)
  }

  lemma PushInOrder<T>(s: State<T>, s': State<T>, t: Thread, item: T)
    requires InOrder(s) && PushSection(s, s', t, item, false)
    ensures InOrder(s')
  {}

  lemma PopInOrder<T>(s: State<T>, s': State<T>, t: Thread, timed: bool)
    requires InOrder(s) && PopSection(s, s', t, timed)
    ensures InOrder(s')
  {
    if s.deq != [] { assert s.popped + s.deq == s.popped + [s.deq[0]] + s.deq[1..]; }
  }

  lemma StepInOrder<T>(s: State<T>, s': State<T>, e: Event<T>)
    requires InOrder(s) && Happens(s, s', e) && Orderly(e)
    ensures InOrder(s')
  {
    hide PushSection, PopSection;
    match e
    case PushArrives(t, item, front) => PushInOrder(s, s', t, item);
    case PushResumes(t) => PushInOrder(s, s', t, s.at[t].item);
    case PopArrives(t, timed) => PopInOrder(s, s', t, timed);
    case PopResumes(t) => if !s.isClose { PopInOrder(s, s', t, s.at[t].timed); }
    case _ =>
  }

  /** First in, first out: the items popped, followed by those still queued, are the items pushed. */
  lemma {:induction false} FirstInFirstOut<T>(capacity: nat, states: seq<State<T>>, events: seq<Event<T>>, i: nat)
    requires Run(capacity, states, events) && i < |states|
    requires forall k :: 0 <= k < i ==> Orderly(events[k])
    ensures states[i].pushed == states[i].popped + states[i].deq
    ensures InOrder(states[i])
  {
    hide Happens, Orderly;
    if i > 0 {
      FirstInFirstOut(capacity, states, events, i - 1);
      assert Happens(states[i - 1], states[i - 1 + 1], events[i - 1]);
      StepInOrder(states[i - 1], states[i], events[i - 1]);
    }
  }

  // ---------------------------------------------------------------- counting threads

  function Who<T>(at: map<Thread, Place<T>>, k: Kind): set<Thread> {
    set t | t in at && KindOf(at[t]) == k
  }

  function Count<T>(at: map<Thread, Place<T>>, k: Kind): nat { |Who(at, k)| }

  function One(b: bool): nat { if b then 1 else 0 }

  lemma CountMoved<T>(at: map<Thread, Place<T>>, t: Thread, p: Place<T>, k: Kind)
    ensures Count(at[t := p], k) == Count(at, k) - One(t in at && KindOf(at[t]) == k) + One(KindOf(p) == k)
  {
    assert Who(at[t := p], k) == if KindOf(p) == k then Who(at, k) + {t} else Who(at, k) - {t};
  }

  lemma CountsMoved<T>(at: map<Thread, Place<T>>, t: Thread, p: Place<T>)
    ensures forall k ::
              Count(at[t := p], k) == Count(at, k) - One(t in at && KindOf(at[t]) == k) + One(KindOf(p) == k)
  {
    forall k { CountMoved(at, t, p, k); }
  }

  lemma CountsRemoved<T>(at: map<Thread, Place<T>>, t: Thread)
    ensures forall k :: Count(at - {t}, k) == Count(at, k) - One(t in at && KindOf(at[t]) == k)
  {
    forall k ensures Count(at - {t}, k) == Count(at, k) - One(t in at && KindOf(at[t]) == k) {
      assert Who(at - {t}, k) == Who(at, k) - {t};
    }
  }

  lemma CountSome<T>(at: map<Thread, Place<T>>, k: Kind)
    ensures Count(at, k) > 0 <==> exists t <- at :: KindOf(at[t]) == k
  {
    if Count(at, k) > 0 {
      var t :| t in Who(at, k);
      assert KindOf(at[t]) == k;
    }
    if t :| t in at && KindOf(at[t]) == k {
      assert t in Who(at, k);
    }
  }

  // ---------------------------------------------------------------- no lost wakeup

  /** A consumer sleeps only if every queued item has a notified consumer to take it; a producer sleeps only
      if every free slot has a notified producer to fill it. */
  predicate ConsumersServed<T>(s: State<T>) { Count(s.at, CA) > 0 ==> |s.deq| <= Count(s.at, CW) }

  predicate ProducersServed<T>(s: State<T>) { Count(s.at, PA) > 0 ==> s.capacity - |s.deq| <= Count(s.at, PW) }

  predicate Served<T>(s: State<T>) { ConsumersServed(s) && ProducersServed(s) }

  /** The events that do not take a notification or an item away behind a sleeper's back. */
  predicate Careful<T>(e: Event<T>) {
    !e.Clear? && !e.Close? && !e.TimesOutLate? && !e.NotifyConsumers? && !e.NotifyProducers?
  }

  /** A notification makes up for one item too many. */
  lemma WakesConsumer<T>(s: State<T>, s': State<T>)
    requires WakesOne(s, s', CA) && ProducersServed(s)
    requires Count(s.at, CA) > 0 ==> |s.deq| <= Count(s.at, CW) + 1
    ensures Served(s')
  {
    hide Count;
    CountSome(s.at, CA);
    if w :| w in s.at && s.Is(w, CA) && s' == s.(at := s.at[w := Awake(s.at[w])]) {
      CountsMoved(s.at, w, Awake(s.at[w]));
    }
  }

  lemma WakesProducer<T>(s: State<T>, s': State<T>)
    requires WakesOne(s, s', PA) && ConsumersServed(s)
    requires Count(s.at, PA) > 0 ==> s.capacity - |s.deq| <= Count(s.at, PW) + 1
    ensures Served(s')
  {
    hide Count;
    CountSome(s.at, PA);
    if w :| w in s.at && s.Is(w, PA) && s' == s.(at := s.at[w := Awake(s.at[w])]) {
      CountsMoved(s.at, w, Awake(s.at[w]));
    }
  }

  lemma PushServes<T>(s: State<T>, s': State<T>, t: Thread, item: T, front: bool)
    requires Served(s) && PushSection(s, s', t, item, front) && (t !in s.at || s.Is(t, PW))
    ensures Served(s')
  {
    hide Count, WakesOne;
    CountsMoved(s.at, t, ProducerAsleep(item, front));
    CountsRemoved(s.at, t);
    if |s.deq| < s.capacity { WakesConsumer(Inserted(s.(at := s.at - {t}), item, front), s'); }
  }

  lemma PopServes<T>(s: State<T>, s': State<T>, t: Thread, timed: bool)
    requires Served(s) && PopSection(s, s', t, timed) && (t !in s.at || s.Is(t, CW))
    ensures Served(s')
  {
    hide Count, WakesOne;
    CountsMoved(s.at, t, ConsumerAsleep(timed));
    CountsRemoved(s.at, t);
    if s.deq != [] { WakesProducer(Taken(s.(at := s.at - {t})), s'); }
  }

  lemma StepServes<T>(s: State<T>, s': State<T>, e: Event<T>)
    requires Served(s) && !s.isClose && Happens(s, s', e) && Careful(e)
    ensures Served(s') && !s'.isClose
  {
    hide Count;
    match e
    case PushArrives(t, item, front) => PushServes(s, s', t, item, front);
    case PushResumes(t) => PushServes(s, s', t, s.at[t].item, s.at[t].front);
    case PopArrives(t, timed) => PopServes(s, s', t, timed);
    case PopResumes(t) => PopServes(s, s', t, s.at[t].timed);
    case TimesOut(t) => CountsRemoved(s.at, t);
    case Spurious(t) => CountsMoved(s.at, t, Awake(s.at[t]));
    case Consume => WakesConsumer(s, s');
    case _ =>
  }

  /** On every run without clear, without Close and without a timed pop that gives up after it was notified. */
  lemma {:induction false} NoLostWakeup<T>(capacity: nat, states: seq<State<T>>, events: seq<Event<T>>, i: nat)
    requires Run(capacity, states, events) && i < |states|
    requires forall k :: 0 <= k < i ==> Careful(events[k])
    ensures Served(states[i]) && !states[i].isClose
  {
    hide Happens, Careful, Served;
    if i == 0 {
      FreshServed<T>(capacity);
    } else {
      NoLostWakeup(capacity, states, events, i - 1);
      assert Happens(states[i - 1], states[i - 1 + 1], events[i - 1]);
      StepServes(states[i - 1], states[i], events[i - 1]);
    }
  }

  lemma FreshServed<T>(capacity: nat)
    ensures Served(Fresh<T>(capacity))
  {
    CountSome(Fresh<T>(capacity).at, CA);
    CountSome(Fresh<T>(capacity).at, PA);
  }

  /** A notified consumer that gives up keeps its notification: harmless exactly if nobody else sleeps or the
      other notified consumers are enough for the queue. */
  lemma LateTimeoutServesIff<T>(s: State<T>, s': State<T>, t: Thread)
    requires Served(s) && Happens(s, s', TimesOutLate(t))
    ensures Served(s') <==> (Count(s.at, CA) > 0 ==> |s.deq| < Count(s.at, CW))
  {
    hide Count;
    CountsRemoved(s.at, t);
  }

  /** A run that loses a notification that way: of two consumers that sleep, the timed one is notified of an item and
      gives up, and the other sleeps on beside the item. */
  lemma LateTimeoutLoses<T>(item: T) returns (states: seq<State<T>>, events: seq<Event<T>>)
    ensures Run(1, states, events) && |events| == 4 && events[3] == TimesOutLate(0)
    ensures var s := states[4]; s.deq == [item] && s.at == map[1 := ConsumerAsleep(false)] && !ConsumersServed(s)
  {
    var s0 := Fresh<T>(1);
    var s1 := s0.(at := map[0 := ConsumerAsleep(true)]);
    var s2 := s1.(at := map[0 := ConsumerAsleep(true), 1 := ConsumerAsleep(false)]);
    var s3 := Inserted(s2, item, false).(at := map[0 := ConsumerWoken(true), 1 := ConsumerAsleep(false)]);
    var s4 := s3.(at := map[1 := ConsumerAsleep(false)]);
    states := [s0, s1, s2, s3, s4];
    events := [PopArrives(0, true), PopArrives(1, false), PushArrives(2, item, false), TimesOutLate(0)];
    Wakes0(s2, s3, item);
    assert s3.at - {0} == s4.at;
    FourSteps(s0, s1, s2, s3, s4, events[0], events[1], events[2], events[3]);
    OneSleeper(s4);
  }

  lemma FourSteps<T>(s0: State<T>, s1: State<T>, s2: State<T>, s3: State<T>, s4: State<T>,
                     e0: Event<T>, e1: Event<T>, e2: Event<T>, e3: Event<T>)
    requires s0 == Fresh(s0.capacity) && Happens(s0, s1, e0) && Happens(s1, s2, e1)
    requires Happens(s2, s3, e2) && Happens(s3, s4, e3)
    ensures Run(s0.capacity, [s0, s1, s2, s3, s4], [e0, e1, e2, e3])
  {
    hide Happens;
  }

  lemma OneSleeper<T>(s: State<T>)
    requires s.at == map[1 := ConsumerAsleep(false)] && s.deq != []
    ensures !ConsumersServed(s)
  {
    CountSome(s.at, CA);
    CountSome(s.at, CW);
    assert s.at[1] == ConsumerAsleep(false);
  }

  lemma Wakes0<T>(s: State<T>, s': State<T>, item: T)
    requires s.at == map[0 := ConsumerAsleep(true), 1 := ConsumerAsleep(false)] && |s.deq| < s.capacity
    requires s' == Inserted(s, item, false).(at := map[0 := ConsumerWoken(true), 1 := ConsumerAsleep(false)])
    ensures Happens(s, s', PushArrives(2, item, false))
  {
    var u := Inserted(s.(at := s.at - {2}), item, false);
    assert s.at - {2} == s.at;
    assert u.Is(0, CA) && s'.at == u.at[0 := Awake(u.at[0])];
  }

  // ---------------------------------------------------------------- clear

  /** What is left of the promise to the producers once clear is allowed: a producer sleeps only if an item is queued,
      whose consumer will wake it, or a producer was notified. */
  predicate Alive<T>(s: State<T>) {
    ConsumersServed(s) && (Count(s.at, PA) > 0 ==> |s.deq| + Count(s.at, PW) > 0)
  }

  /** Both sides sleep and nobody was notified. */
  predicate Deadlocked<T>(s: State<T>) {
    Count(s.at, PA) > 0 && Count(s.at, CA) > 0 && Count(s.at, PW) == 0 && Count(s.at, CW) == 0
  }

  lemma AliveIsNotDeadlocked<T>(s: State<T>)
    requires Alive(s)
    ensures !Deadlocked(s)
  {}

  lemma PushAlive<T>(s: State<T>, s': State<T>, t: Thread, item: T, front: bool)
    requires Alive(s) && s.capacity > 0 && PushSection(s, s', t, item, front) && (t !in s.at || s.Is(t, PW))
    ensures Alive(s')
  {
    hide Count, WakesOne;
    CountsMoved(s.at, t, ProducerAsleep(item, front));
    CountsRemoved(s.at, t);
    if |s.deq| < s.capacity {
      var u := Inserted(s.(at := s.at - {t}), item, front);
      WakingCounts(u, s', CA);
    }
  }

  lemma PopAlive<T>(s: State<T>, s': State<T>, t: Thread, timed: bool)
    requires Alive(s) && PopSection(s, s', t, timed) && (t !in s.at || s.Is(t, CW))
    ensures Alive(s')
  {
    hide Count, WakesOne;
    CountsMoved(s.at, t, ConsumerAsleep(timed));
    CountsRemoved(s.at, t);
    if s.deq != [] {
      var u := Taken(s.(at := s.at - {t}));
      WakingCounts(u, s', PA);
    }
  }

  function WokenKind(k: Kind): Kind { if k == PA then PW else if k == CA then CW else k }

  /** notify_one wakes exactly one of those that sleep, or nobody if nobody sleeps. */
  lemma WakingCounts<T>(s: State<T>, s': State<T>, k: Kind)
    requires WakesOne(s, s', k) && (k == CA || k == PA)
    ensures s' == s.(at := s'.at)
    ensures var n := One(Count(s.at, k) > 0);
            forall j :: Count(s'.at, j) == Count(s.at, j) - (if j == k then n else 0) + (if j == WokenKind(k) then n else 0)
  {
    hide Count;
    CountSome(s.at, k);
    if w :| w in s.at && s.Is(w, k) && s' == s.(at := s.at[w := Awake(s.at[w])]) {
      CountsMoved(s.at, w, Awake(s.at[w]));
    }
  }

  lemma StepAlive<T>(s: State<T>, s': State<T>, e: Event<T>)
    requires Alive(s) && s.capacity > 0 && !s.isClose && Happens(s, s', e) && Careful(e)
    ensures Alive(s') && !s'.isClose && s'.capacity == s.capacity
  {
    hide Count, WakesOne;
    match e
    case PushArrives(t, item, front) =>
      PushAlive(s, s', t, item, front);
      SectionsKeep(s, s', t);
    case PushResumes(t) =>
      PushAlive(s, s', t, s.at[t].item, s.at[t].front);
      SectionsKeep(s, s', t);
    case PopArrives(t, timed) =>
      PopAlive(s, s', t, timed);
      SectionsKeep(s, s', t);
    case PopResumes(t) =>
      PopAlive(s, s', t, s.at[t].timed);
      SectionsKeep(s, s', t);
    case TimesOut(t) => CountsRemoved(s.at, t);
    case Spurious(t) => CountsMoved(s.at, t, Awake(s.at[t]));
    case Consume => WakingCounts(s, s', CA);
    case _ =>
  }

  /** Careful events, and clear as long as some producer was notified or none sleeps. */
  predicate ClearsInTime<T>(s: State<T>, e: Event<T>) {
    Careful(e) || (e.Clear? && (Count(s.at, PA) > 0 ==> Count(s.at, PW) > 0))
  }

  /** On every run in which clear never finds producers asleep and none notified, the two sides never sleep together. */
  lemma {:induction false} NoDeadlock<T>(capacity: nat, states: seq<State<T>>, events: seq<Event<T>>, i: nat)
    requires Run(capacity, states, events) && i < |states| && capacity > 0
    requires forall k :: 0 <= k < i ==> ClearsInTime(states[k], events[k])
    ensures Alive(states[i]) && !states[i].isClose && states[i].capacity == capacity && !Deadlocked(states[i])
  {
    hide Happens, Careful, Alive, Deadlocked;
    if i == 0 {
      FreshAlive<T>(capacity);
    } else {
      NoDeadlock(capacity, states, events, i - 1);
      assert Happens(states[i - 1], states[i - 1 + 1], events[i - 1]);
      if Careful(events[i - 1]) {
        StepAlive(states[i - 1], states[i], events[i - 1]);
      } else {
        ClearAlive(states[i - 1], states[i]);
      }
    }
    AliveIsNotDeadlocked(states[i]);
  }

  lemma FreshAlive<T>(capacity: nat)
    ensures Alive(Fresh<T>(capacity))
  {
    CountSome(Fresh<T>(capacity).at, CA);
    CountSome(Fresh<T>(capacity).at, PA);
  }

  lemma ClearAlive<T>(s: State<T>, s': State<T>)
    requires Happens(s, s', Clear) && (Count(s.at, PA) > 0 ==> Count(s.at, PW) > 0)
    ensures Alive(s') && s'.isClose == s.isClose && s'.capacity == s.capacity
  {}

  /** A run of careful events. */
  ghost predicate Leads<T>(s: State<T>, states: seq<State<T>>, events: seq<Event<T>>) {
    && |states| == |events| + 1 && states[0] == s
    && forall i :: 0 <= i < |events| ==> Careful(events[i]) && Happens(states[i], states[i + 1], events[i])
  }

  lemma LeadsOn<T>(s: State<T>, states: seq<State<T>>, events: seq<Event<T>>, s': State<T>, e: Event<T>)
    requires Leads(s, states, events) && Careful(e) && Happens(states[|states| - 1], s', e)
    ensures Leads(s, states + [s'], events + [e])
  {
    hide Happens, Careful;
    var states', events' := states + [s'], events + [e];
    forall i | 0 <= i < |events'| ensures Careful(events'[i]) && Happens(states'[i], states'[i + 1], events'[i]) {
      if i < |events| { assert events'[i] == events[i] && states'[i] == states[i] && states'[i + 1] == states[i + 1]; }
    }
  }

  /** The consumers notified before the queue was emptied find it empty and go back to sleep, one after the other. */
  lemma {:induction false} ConsumersDoze<T>(s: State<T>) returns (states: seq<State<T>>, events: seq<Event<T>>)
    requires s.deq == [] && !s.isClose
    ensures Leads(s, states, events)
    ensures var r := states[|states| - 1];
            && r == s.(at := r.at) && Count(r.at, CW) == 0
            && Count(r.at, PA) == Count(s.at, PA) && Count(r.at, PW) == Count(s.at, PW)
            && Count(r.at, CA) == Count(s.at, CA) + Count(s.at, CW)
    decreases Count(s.at, CW)
  {
    hide Count;
    CountSome(s.at, CW);
    if t :| t in s.at && KindOf(s.at[t]) == CW {
      var u := s.(at := s.at[t := ConsumerAsleep(s.at[t].timed)]);
      CountsMoved(s.at, t, ConsumerAsleep(s.at[t].timed));
      assert Happens(s, u, PopResumes(t));
      var states', events' := ConsumersDoze(u);
      states, events := [s] + states', [PopResumes(t)] + events';
      LeadsBack(s, u, PopResumes(t), states', events');
    } else {
      states, events := [s], [];
    }
  }

  lemma LeadsBack<T>(s: State<T>, u: State<T>, e: Event<T>, states: seq<State<T>>, events: seq<Event<T>>)
    requires Leads(u, states, events) && Careful(e) && Happens(s, u, e)
    ensures Leads(s, [s] + states, [e] + events)
    ensures ([s] + states)[|[s] + states| - 1] == states[|states| - 1]
  {
    hide Happens, Careful;
    var states', events' := [s] + states, [e] + events;
    forall i | 0 <= i < |events'| ensures Careful(events'[i]) && Happens(states'[i], states'[i + 1], events'[i]) {
      if i > 0 { assert events'[i] == events[i - 1] && states'[i] == states[i - 1] && states'[i + 1] == states[i]; }
    }
  }

  lemma Outside<T>(at: map<Thread, Place<T>>) returns (t: Thread)
    ensures t !in at
  {
    t := 0;
    var rest := at.Keys;
    while rest != {}
      invariant rest <= at.Keys
      invariant forall a <- at.Keys :: a in rest || a < t
      decreases rest
    {
      var a :| a in rest;
      rest := rest - {a};
      if t <= a { t := a + 1; }
    }
  }

  /** If clear finds producers asleep and none notified, careful events alone lead from there to a deadlock. */
  lemma ClearLeadsToDeadlock<T>(s: State<T>) returns (states: seq<State<T>>, events: seq<Event<T>>)
    requires !s.isClose && Count(s.at, PA) > 0 && Count(s.at, PW) == 0
    ensures Leads(Emptied(s), states, events) && Deadlocked(states[|states| - 1])
  {
    hide Count;
    states, events := ConsumersDoze(Emptied(s));
    var r := states[|states| - 1];
    if Count(r.at, CA) == 0 {
      var t := Outside(r.at);
      var r' := r.(at := r.at[t := ConsumerAsleep(false)]);
      CountsMoved(r.at, t, ConsumerAsleep(false));
      LeadsOn(Emptied(s), states, events, r', PopArrives(t, false));
      states, events := states + [r'], events + [PopArrives(t, false)];
    }
  }

  lemma {:induction false} LeadsAlive<T>(s: State<T>, states: seq<State<T>>, events: seq<Event<T>>, i: nat)
    requires Leads(s, states, events) && i < |states| && Alive(s) && !s.isClose && s.capacity > 0
    ensures Alive(states[i]) && !states[i].isClose && states[i].capacity > 0
  {
    hide Happens, Careful, Alive;
    if i > 0 {
      LeadsAlive(s, states, events, i - 1);
      assert Happens(states[i - 1], states[i - 1 + 1], events[i - 1]);
      StepAlive(states[i - 1], states[i], events[i - 1]);
    }
  }

  /** clear can lead to a deadlock, by careful events alone, exactly if it finds a producer asleep and none notified. */
  lemma ClearCanDeadlockIff<T>(s: State<T>)
    requires !s.isClose && s.capacity > 0
    ensures (exists states, events :: Leads(Emptied(s), states, events) && Deadlocked(states[|states| - 1]))
       <==> Count(s.at, PA) > 0 && Count(s.at, PW) == 0
  {
    hide Count, Leads, Deadlocked;
    if Count(s.at, PA) > 0 && Count(s.at, PW) == 0 {
      var states, events := ClearLeadsToDeadlock(s);
    } else {
      ClearAlive(s, Emptied(s));
      forall states, events | Leads(Emptied(s), states, events)
        ensures |states| > 0 && !Deadlocked(states[|states| - 1])
      {
        NeverDeadlocks(Emptied(s), states, events);
      }
    }
  }

  lemma NeverDeadlocks<T>(s: State<T>, states: seq<State<T>>, events: seq<Event<T>>)
    requires Leads(s, states, events) && Alive(s) && !s.isClose && s.capacity > 0
    ensures |states| > 0 && !Deadlocked(states[|states| - 1])
  {
    LeadsAlive(s, states, events, |states| - 1);
    AliveIsNotDeadlocked(states[|states| - 1]);
  }

  /** Such a run from the start: with room for one item, a second push sleeps, clear throws the first item away, and
      the next pop sleeps beside the producer. */
  lemma ClearDeadlocks<T>(item: T) returns (states: seq<State<T>>, events: seq<Event<T>>)
    ensures Run(1, states, events)
    ensures events == [PushArrives(0, item, false), PushArrives(1, item, false), Clear, PopArrives(2, false)]
    ensures Deadlocked(states[4]) && states[4].capacity == 1
  {
    var s0 := Fresh<T>(1);
    var s1 := Inserted(s0, item, false);
    var s2 := s1.(at := map[1 := ProducerAsleep(item, false)]);
    var s3 := Emptied(s2);
    var s4 := s3.(at := map[1 := ProducerAsleep(item, false), 2 := ConsumerAsleep(false)]);
    states := [s0, s1, s2, s3, s4];
    events := [PushArrives(0, item, false), PushArrives(1, item, false), Clear, PopArrives(2, false)];
    assert s0.at - {0} == s0.at;
    FourSteps(s0, s1, s2, s3, s4, events[0], events[1], events[2], events[3]);
    TwoSleepers(s4, item);
  }

  lemma TwoSleepers<T>(s: State<T>, item: T)
    requires s.at == map[1 := ProducerAsleep(item, false), 2 := ConsumerAsleep(false)]
    ensures Deadlocked(s)
  {
    forall k { CountSome(s.at, k); }
    assert s.at[1] == ProducerAsleep(item, false) && s.at[2] == ConsumerAsleep(false);
  }

  // ---------------------------------------------------------------- after Close

  /** After Close: nothing queued, nobody about to push, and t asleep in pop. */
  predicate Stranded<T>(s: State<T>, t: Thread) {
    && s.isClose && s.deq == [] && s.Is(t, CA)
    && (s.capacity > 0 ==> forall u <- s.at :: !s.Is(u, PA) && !s.Is(u, PW))
  }

  /** A push by a new thread, a notification of consumers, the end of its own time, or chance. */
  predicate CanHelp<T>(s: State<T>, t: Thread, e: Event<T>) {
    match e
    case PushArrives(u, _, _) => u !in s.at && s.capacity > 0
    case Consume => true
    case NotifyConsumers => true
    case TimesOut(u) => u == t && s.Is(t, CA) && s.at[t].timed
    case Spurious(u) => u == t
    case _ => false
  }

  /** pop looks at isClose only after a wait. So whoever calls it on the empty queue once Close has notified sleeps
      until one of these events. */
  lemma {:induction false} StrandedAfterClose<T>(states: seq<State<T>>, events: seq<Event<T>>, t: Thread, i: nat)
    requires |states| == |events| + 1 && i < |states|
    requires forall k :: 0 <= k < |events| ==> Happens(states[k], states[k + 1], events[k])
    requires forall k :: 0 <= k < i ==> !CanHelp(states[k], t, events[k])
    requires Stranded(states[0], t)
    ensures Stranded(states[i], t)
  {
    hide Happens, Stranded, CanHelp;
    if i > 0 {
      StrandedAfterClose(states, events, t, i - 1);
      assert Happens(states[i - 1], states[i - 1 + 1], events[i - 1]);
      StaysStranded(states[i - 1], states[i], events[i - 1], t);
    }
  }

  lemma StaysStranded<T>(s: State<T>, s': State<T>, e: Event<T>, t: Thread)
    requires Stranded(s, t) && Happens(s, s', e) && !CanHelp(s, t, e)
    ensures Stranded(s', t)
  {}

  /** Exactly these events can wake or release a stranded consumer. */
  lemma ReleasedIff<T>(s: State<T>, t: Thread, e: Event<T>)
    requires Stranded(s, t)
    ensures (exists s' :: Happens(s, s', e) && !s'.Is(t, CA)) <==> CanHelp(s, t, e)
  {
    if CanHelp(s, t, e) {
      var s' := Released(s, t, e);
    } else {
      hide Happens, Stranded, CanHelp;
      forall s' | Happens(s, s', e) ensures s'.Is(t, CA) {
        StaysStranded(s, s', e, t);
        StrandedSleeps(s', t);
      }
    }
  }

  lemma StrandedSleeps<T>(s: State<T>, t: Thread)
    requires Stranded(s, t)
    ensures s.Is(t, CA)
  {}

  lemma Released<T>(s: State<T>, t: Thread, e: Event<T>) returns (s': State<T>)
    requires Stranded(s, t) && CanHelp(s, t, e)
    ensures Happens(s, s', e) && !s'.Is(t, CA)
  {
    var woken := s.at[t := Awake(s.at[t])];
    match e
    case PushArrives(u, item, front) =>
      assert s.at - {u} == s.at;
      s' := Inserted(s, item, front).(at := woken);
      assert Inserted(s.(at := s.at - {u}), item, front).Is(t, CA);
    case Consume => s' := s.(at := woken);
    case NotifyConsumers => s' := s.(at := WakeAll(s.at, CA));
    case TimesOut(_) => s' := s.(at := s.at - {t});
    case Spurious(_) => s' := s.(at := woken);
  }

  /** A run that gets there: Close, its notifications, and then a pop. */
  lemma CloseStrands<T>() returns (states: seq<State<T>>, events: seq<Event<T>>)
    ensures Run(1, states, events)
    ensures events == [Close, NotifyConsumers, NotifyProducers, PopArrives(0, false)]
    ensures Stranded(states[4], 0)
  {
    var s0 := Fresh<T>(1);
    var s1 := s0.(isClose := true);
    var s2 := s1.(at := map[0 := ConsumerAsleep(false)]);
    states := [s0, s1, s1, s1, s2];
    events := [Close, NotifyConsumers, NotifyProducers, PopArrives(0, false)];
    assert Emptied(s0) == s0;
    assert WakeAll(s1.at, CA) == s1.at && WakeAll(s1.at, PA) == s1.at;
    FourSteps(s0, s1, s1, s1, s2, events[0], events[1], events[2], events[3]);
  }

  // ---------------------------------------------------------------- the queue settles

  /** The events of threads inside that were notified. */
  predicate Proceeds<T>(s: State<T>, s': State<T>, e: Event<T>) {
    (e.PushResumes? || e.PopResumes?) && Happens(s, s', e)
  }

  function Work<T>(s: State<T>): nat {
    |s.at| * (|s.at| + 1) + Count(s.at, PW) + Count(s.at, CW)
  }

  lemma WokenFit<T>(at: map<Thread, Place<T>>)
    ensures Count(at, PW) + Count(at, CW) <= |at|
  {
    var a, b := Who(at, PW), Who(at, CW);
    assert a !! b && |a + b| == |a| + |b|;
    assert a + b <= at.Keys && at.Keys == a + b + (at.Keys - (a + b));
    assert |at.Keys| == |a + b| + |at.Keys - (a + b)|;
  }

  lemma Removed<T>(at: map<Thread, Place<T>>, t: Thread)
    requires t in at
    ensures |at - {t}| == |at| - 1
  {
    assert (at - {t}).Keys == at.Keys - {t};
  }

  lemma SameThreads<T>(s: State<T>, s': State<T>, k: Kind)
    requires WakesOne(s, s', k)
    ensures |s'.at| == |s.at|
  {
    assert s'.at.Keys == s.at.Keys;
  }

  lemma WorkOfFewer(n: nat, m: nat, woken: nat, woken': nat)
    requires m < n && woken' <= m
    ensures m * (m + 1) + woken' < n * (n + 1) + woken
  {
    assert m * (m + 1) + m < (m + 1) * (m + 1) <= n * n by {
      assert (m + 1) * (m + 1) == m * (m + 1) + m + 1;
      Squares(m + 1, n);
    }
    assert n * (n + 1) == n * n + n;
  }

  lemma Squares(a: nat, b: nat)
    requires a <= b
    ensures a * a <= b * b
  {
    assert b * b - a * a == (b - a) * (b + a);
  }

  lemma DozesFalls<T>(s: State<T>, s': State<T>, t: Thread)
    requires (s.Is(t, PW) || s.Is(t, CW)) && (s'.Is(t, PA) || s'.Is(t, CA)) && s'.at == s.at[t := s'.at[t]]
    ensures |s'.at| == |s.at|
    ensures Count(s'.at, PW) + Count(s'.at, CW) < Count(s.at, PW) + Count(s.at, CW)
  {
    hide Count;
    CountsMoved(s.at, t, s'.at[t]);
    assert s'.at.Keys == s.at.Keys;
  }

  /** A notified thread that runs on goes back to sleep, or leaves, waking at most one other. */
  lemma WorkFalls<T>(s: State<T>, s': State<T>, e: Event<T>)
    requires Proceeds(s, s', e)
    ensures Work(s') < Work(s)
  {
    hide Count, Happens, Awake, KindOf;
    if e.t in s'.at {
      StaysOnlyAsleep(s, s', e);
      DozesFalls(s, s', e.t);
    } else {
      WokenFit(s'.at);
      LeavesAlone(s, s', e);
      WorkOfFewer(|s.at|, |s'.at|, Count(s.at, PW) + Count(s.at, CW), Count(s'.at, PW) + Count(s'.at, CW));
    }
  }

  lemma StaysOnlyAsleep<T>(s: State<T>, s': State<T>, e: Event<T>)
    requires Proceeds(s, s', e) && e.t in s'.at
    ensures s'.at == s.at[e.t := s'.at[e.t]] && (s'.Is(e.t, PA) || s'.Is(e.t, CA))
    ensures s.Is(e.t, PW) || s.Is(e.t, CW)
  {}

  lemma LeavesAlone<T>(s: State<T>, s': State<T>, e: Event<T>)
    requires Proceeds(s, s', e) && e.t !in s'.at
    ensures |s'.at| < |s.at|
  {
    hide WakesOne;
    Removed(s.at, e.t);
    var u := s.(at := s.at - {e.t});
    if e.PushResumes? {
      if |s.deq| < s.capacity { SameThreads(Inserted(u, s.at[e.t].item, s.at[e.t].front), s', CA); }
    } else if !s.isClose && s.deq != [] {
      SameThreads(Taken(u), s', PA);
    }
  }

  ghost predicate Settled<T(!new)>(s: State<T>) { forall s': State<T>, e :: !Proceeds(s, s', e) }

  lemma Wakes<T>(s: State<T>, k: Kind) returns (s': State<T>)
    ensures WakesOne(s, s', k)
  {
    if w :| w in s.at && s.Is(w, k) {
      s' := s.(at := s.at[w := Awake(s.at[w])]);
    } else {
      s' := s;
    }
  }

  lemma CanProceed<T>(s: State<T>, t: Thread) returns (s': State<T>, e: Event<T>)
    requires s.Is(t, PW) || s.Is(t, CW)
    ensures Proceeds(s, s', e)
  {
    hide WakesOne;
    var u := s.(at := s.at - {t});
    if s.Is(t, PW) {
      e := PushResumes(t);
      if |s.deq| >= s.capacity {
        s' := s.(at := s.at[t := ProducerAsleep(s.at[t].item, s.at[t].front)]);
      } else {
        s' := Wakes(Inserted(u, s.at[t].item, s.at[t].front), CA);
      }
    } else {
      e := PopResumes(t);
      if s.isClose {
        s' := u;
      } else if s.deq == [] {
        s' := s.(at := s.at[t := ConsumerAsleep(s.at[t].timed)]);
      } else {
        s' := Wakes(Taken(u), PA);
      }
    }
  }

  /** No deadlock: when no notified thread is left, consumers sleep only on an empty queue and producers only
      on a full one. So with room for one item the two sides never sleep together. */
  lemma SettledMeansIdle<T(!new)>(s: State<T>)
    requires Served(s) && Settled(s) && |s.deq| <= s.capacity
    ensures forall t <- s.at :: if s.Is(t, CA) then s.deq == [] else s.Is(t, PA) && |s.deq| == s.capacity
    ensures s.capacity > 0 ==> (forall t <- s.at :: s.Is(t, CA)) || (forall t <- s.at :: s.Is(t, PA))
  {
    hide Count, Proceeds;
    forall t | t in s.at ensures s.Is(t, CA) || s.Is(t, PA) {
      if s.Is(t, PW) || s.Is(t, CW) { var s', e := CanProceed(s, t); }
    }
    forall k { CountSome(s.at, k); }
  }

  /** From any state, the threads inside take at most Work(s) steps until the queue has settled. */
  lemma {:induction false} Settles<T>(states: seq<State<T>>, events: seq<Event<T>>, i: nat)
    requires |states| == |events| + 1 && i < |states|
    requires forall k :: 0 <= k < |events| ==> Proceeds(states[k], states[k + 1], events[k])
    ensures i + Work(states[i]) <= Work(states[0])
  {
    hide Proceeds, Work;
    if i > 0 {
      Settles(states, events, i - 1);
      assert Proceeds(states[i - 1], states[i - 1 + 1], events[i - 1]);
      WorkFalls(states[i - 1], states[i], events[i - 1]);
    }
  }

  // ---------------------------------------------------------------- the queue as the program has it

  /** How a section of pop ends: with an item, with the answer false, or asleep. */
  datatype Popped<T> = Item(value: T) | Nothing | Sleeps

  /** The fields of the source, and ghosts for its callers and its history. A section that the source leaves by
      waiting ends here with an answer that says so; the method with Again in its name goes on from there. Every
      method keeps the queue within its capacity and its items accounted for. */
  class BlockDeque<T(==)> {
    var deq: seq<T>
    var capacity: nat
    var isClose: bool
    ghost var at: map<Thread, Place<T>>
    ghost var pushed: seq<T>
    ghost var popped: seq<T>
    ghost var dropped: multiset<T>

    ghost function View(): State<T>
      reads this
    {
      State(deq, capacity, isClose, at, pushed, popped, dropped)
    }

    constructor (maxCapacity: nat)
      ensures View() == Fresh(maxCapacity) && Sound(View())
    {
      deq, capacity, isClose := [], maxCapacity, false;
      at, pushed, popped, dropped := map[], [], [], multiset{};
    }

    method Push(t: Thread, item: T, front: bool) returns (done: bool)
      requires Sound(View()) && t !in at
      modifies this
      ensures Happens(old(View()), View(), PushArrives(t, item, front)) && Sound(View())
      ensures done == (|old(deq)| < old(capacity))
      ensures deq == if !done then old(deq) else if front then [item] + old(deq) else old(deq) + [item]
    {
      hide WakesOne, Sound;
      done := PushTurn(t, item, front);
    }

    method PushAgain(t: Thread, item: T, front: bool) returns (done: bool)
      requires Sound(View()) && t in at && at[t] == ProducerWoken(item, front)
      modifies this
      ensures Happens(old(View()), View(), PushResumes(t)) && Sound(View())
      ensures done == (|old(deq)| < old(capacity))
    {
      hide WakesOne, Sound;
      done := PushTurn(t, item, front);
    }

    method PushTurn(t: Thread, item: T, front: bool) returns (done: bool)
      requires Sound(View())
      modifies this
      ensures PushSection(old(View()), View(), t, item, front) && Sound(View())
      ensures done == (|old(deq)| < old(capacity))
      ensures deq == if !done then old(deq) else if front then [item] + old(deq) else old(deq) + [item]
    {
      hide WakesOne, Sound;
      ghost var s := View();
      done := |deq| < capacity;
      if done {
        at := at - {t};
        if front { deq := [item] + deq; } else { deq := deq + [item]; }
        pushed := pushed + [item];
        NotifyOne(CA);
      } else {
        at := at[t := ProducerAsleep(item, front)];
      }
      PushSound(s, View(), t, item, front);
    }

    method Pop(t: Thread, timed: bool) returns (r: Popped<T>)
      requires Sound(View()) && t !in at
      modifies this
      ensures Happens(old(View()), View(), PopArrives(t, timed)) && Sound(View())
      ensures r == if old(deq) == [] then Sleeps else Item(old(deq)[0])
    {
      hide WakesOne, Sound;
      r := PopTurn(t, timed);
    }

    method PopAgain(t: Thread, timed: bool) returns (r: Popped<T>)
      requires Sound(View()) && t in at && at[t] == ConsumerWoken(timed)
      modifies this
      ensures Happens(old(View()), View(), PopResumes(t)) && Sound(View())
      ensures r == if old(isClose) then Nothing else if old(deq) == [] then Sleeps else Item(old(deq)[0])
    {
      hide WakesOne, Sound;
      if isClose {
        SameSound(View(), View().(at := at - {t}));
        at := at - {t};
        return Nothing;
      }
      r := PopTurn(t, timed);
    }

    method PopTurn(t: Thread, timed: bool) returns (r: Popped<T>)
      requires Sound(View())
      modifies this
      ensures PopSection(old(View()), View(), t, timed) && Sound(View())
      ensures r == if old(deq) == [] then Sleeps else Item(old(deq)[0])
    {
      hide WakesOne, Sound;
      ghost var s := View();
      if |deq| == 0 {
        at := at[t := ConsumerAsleep(timed)];
        r := Sleeps;
      } else {
        at := at - {t};
        r := Item(deq[0]);
        popped := popped + [deq[0]];
        deq := deq[1..];
        NotifyOne(PA);
      }
      PopSound(s, View(), t, timed);
    }

    /** What was queued is lost, and whoever slept sleeps on: with a producer asleep and none notified, this can lead
        to a deadlock. */
    method ClearAll()
      requires Sound(View())
      modifies this
      ensures Happens(old(View()), View(), Clear) && Sound(View())
      ensures multiset(pushed) == multiset(popped) + dropped
      ensures !isClose && capacity > 0 ==>
                ((exists states, events :: Leads(View(), states, events) && Deadlocked(states[|states| - 1]))
                 <==> Count(at, PA) > 0 && Count(at, PW) == 0)
    {
      hide Count, Leads, Deadlocked;
      ghost var s := View();
      dropped := dropped + multiset(deq);
      deq := [];
      EmptiedSound(s, View());
      if !isClose && capacity > 0 { ClearCanDeadlockIff(s); }
    }

    /** The part of Close under the mutex: from now on whoever resumes in pop leaves without an item. */
    method CloseDown()
      requires Sound(View())
      modifies this
      ensures Happens(old(View()), View(), Close) && Sound(View())
      ensures multiset(pushed) == multiset(popped) + dropped
      ensures forall t, s': State<T> :: Happens(View(), s', PopResumes(t)) ==> s' == View().(at := at - {t})
    {
      hide Sound;
      ghost var s := View();
      dropped := dropped + multiset(deq);
      deq := [];
      isClose := true;
      EmptiedSound(s, View());
      AllAccounted(View());
    }

    /** One sleeping consumer is woken, whatever the queue holds; nobody if none sleeps. */
    method ConsumeOne()
      requires Sound(View())
      modifies this
      ensures Happens(old(View()), View(), Consume) && Sound(View())
      ensures var n := One(Count(old(at), CA) > 0);
              Count(at, CA) == Count(old(at), CA) - n && Count(at, CW) == Count(old(at), CW) + n
    {
      hide WakesOne, Count, Sound;
      ghost var s := View();
      NotifyOne(CA);
      WakingCounts(s, View(), CA);
      SameSound(s, View());
    }

    ghost method NotifyOne(k: Kind)
      modifies this`at
      ensures WakesOne(old(View()), View(), k)
    {
      if w :| w in at && KindOf(at[w]) == k {
        assert old(View()).Is(w, k);
        at := at[w := Awake(at[w])];
      }
    }

    /** Afterwards nobody of that kind sleeps, and all that did are notified. */
    ghost method NotifyAll(k: Kind)
      requires (k == CA || k == PA) && Sound(View())
      modifies this`at
      ensures Happens(old(View()), View(), if k == CA then NotifyConsumers else NotifyProducers) && Sound(View())
      ensures Count(at, k) == 0 && Count(at, WokenKind(k)) == Count(old(at), k) + Count(old(at), WokenKind(k))
    {
      hide Count, Sound;
      CountAllWoken(at, k);
      SameSound(View(), View().(at := WakeAll(at, k)));
      at := WakeAll(at, k);
    }
  }

  lemma AllAccounted<T>(s: State<T>)
    requires Sound(s) && s.deq == []
    ensures multiset(s.pushed) == multiset(s.popped) + s.dropped
  {}

  lemma CountAllWoken<T>(at: map<Thread, Place<T>>, k: Kind)
    requires k == CA || k == PA
    ensures var at' := WakeAll(at, k);
            Count(at', k) == 0 && Count(at', WokenKind(k)) == Count(at, k) + Count(at, WokenKind(k))
  {
    var at' := WakeAll(at, k);
    assert Who(at', k) == {};
    assert Who(at, k) !! Who(at, WokenKind(k));
    assert Who(at', WokenKind(k)) == Who(at, k) + Who(at, WokenKind(k));
  }
}
