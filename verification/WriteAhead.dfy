/** The order in which the logs are written (storage/src/http/httprequest.cpp, process, storage/src/http/httpconn.cpp,
    UpdateLog_, and storage/src/message/node/storagenode.cpp, FinshSyn_), as a state machine. The ring log is a map
    from addresses to records: writing takes an address that holds nothing, freeing removes the record at an
    address. The sync log is a map that only grows; an entry is finished when its done bit is set. Any number
    of requests and peers run at once, one log operation at a time, and peers join and leave the group. */
module WriteAhead {

  type Request = nat

  type Peer = nat

  datatype Record = Rollback(r: Request) | Syn(r: Request, p: Peer)

  datatype SynEntry = SynEntry(r: Request, p: Peer, done: bool)

  /** Whether UpdateLog_ has started, and how far it has come with the peer at the front. */
  datatype Now = Waiting | Between | Numbered(id: nat) | Recorded(id: nat, a: nat)

  /** Where the last rollback record is, the group when UpdateLog_ started, and the peers that it has still to visit. */
  datatype Progress = Progress(rollback: nat, peers: set<Peer>, left: seq<Peer>, now: Now, freed: bool)

  /** What a peer was told to replicate: the addresses of the two log entries, and whether FinshSyn_ has
      finished the first of them. */
  datatype Task = Task(a: nat, id: nat, done: bool)

  datatype State = State(
    group: set<Peer>, ring: map<nat, Record>, syn: map<nat, SynEntry>,
    requests: map<Request, Progress>, tasks: map<(Request, Peer), Task>)

  predicate Enumerates(order: seq<Peer>, group: set<Peer>) {
    (set p | p in order) == group && NoRepeats(order)
  }

  predicate NoRepeats(order: seq<Peer>) {
    forall i, j :: 0 <= i < j < |order| ==> order[i] != order[j]
  }

  function Fresh(group: set<Peer>): State { State(group, map[], map[], map[], map[]) }

  // ---------------------------------------------------------------- the steps

  datatype Event =
    | LogRollback(r: Request, a: nat)
    | Begin(r: Request, order: seq<Peer>)
    | NewSyn(r: Request, id: nat)
    | WriteSyn(r: Request, a: nat)
    | AddTask(r: Request)
    | FreeRollback(r: Request)
    | FinishLog(r: Request, p: Peer)
    | FreeSyn(r: Request, p: Peer)
    | Join(p: Peer)
    | Leave(p: Peer)

  /** The receive loop writes a rollback record with every chunk, until the request is complete. */
  predicate Enabled(s: State, e: Event) {
    match e
    case LogRollback(r, a) => (r in s.requests ==> s.requests[r].now.Waiting?) && a !in s.ring
    case Begin(r, order) => r in s.requests && s.requests[r].now.Waiting? && Enumerates(order, s.group)
    case NewSyn(r, id) =>
      r in s.requests && s.requests[r].left != [] && s.requests[r].now.Between? && id !in s.syn
    case WriteSyn(r, a) =>
      r in s.requests && s.requests[r].left != [] && s.requests[r].now.Numbered? && a !in s.ring
    case AddTask(r) => r in s.requests && s.requests[r].left != [] && s.requests[r].now.Recorded?
    case FreeRollback(r) =>
      r in s.requests && s.requests[r].left == [] && s.requests[r].now.Between? && !s.requests[r].freed
    case FinishLog(r, p) =>
      p in s.group && (r, p) in s.tasks && !s.tasks[(r, p)].done && s.tasks[(r, p)].id in s.syn
    case FreeSyn(r, p) => p in s.group && (r, p) in s.tasks && s.tasks[(r, p)].done
    case Join(p) => p !in s.group
    case Leave(p) => p in s.group
  }

  function After(s: State, e: Event): State
    requires Enabled(s, e)
  {
    match e
    case LogRollback(r, a) =>
      s.(ring := s.ring[a := Rollback(r)], requests := s.requests[r := Progress(a, {}, [], Waiting, false)])
    case Begin(r, order) =>
      s.(requests := s.requests[r := s.requests[r].(peers := s.group, left := order, now := Between)])
    case NewSyn(r, id) =>
      var q := s.requests[r];
      s.(syn := s.syn[id := SynEntry(r, q.left[0], false)], requests := s.requests[r := q.(now := Numbered(id))])
    case WriteSyn(r, a) =>
      var q := s.requests[r];
      s.(ring := s.ring[a := Syn(r, q.left[0])], requests := s.requests[r := q.(now := Recorded(q.now.id, a))])
    case AddTask(r) =>
      var q := s.requests[r];
      s.(tasks := s.tasks[(r, q.left[0]) := Task(q.now.a, q.now.id, false)],
         requests := s.requests[r := q.(left := q.left[1..], now := Between)])
    case FreeRollback(r) =>
      var q := s.requests[r];
      s.(ring := s.ring - {q.rollback}, requests := s.requests[r := q.(freed := true)])
    case FinishLog(r, p) =>
      var t := s.tasks[(r, p)];
      s.(syn := s.syn[t.id := s.syn[t.id].(done := true)], tasks := s.tasks[(r, p) := t.(done := true)])
    case FreeSyn(r, p) =>
      s.(ring := s.ring - {s.tasks[(r, p)].a}, tasks := s.tasks - {(r, p)})
    case Join(p) => s.(group := s.group + {p})
    case Leave(p) => s.(group := s.group - {p})
  }

  // ---------------------------------------------------------------- the invariant

  predicate Holds(s: State, a: nat, record: Record) { a in s.ring && s.ring[a] == record }

  predicate Entry(s: State, id: nat, entry: SynEntry) { id in s.syn && s.syn[id] == entry }

  /** The replication of r to p is finished for good. */
  predicate Finished(s: State, r: Request, p: Peer) {
    exists id <- s.syn :: Entry(s, id, SynEntry(r, p, true))
  }

  predicate InRing(s: State, record: Record) { exists a <- s.ring :: Holds(s, a, record) }

  predicate RequestOk(s: State, r: Request)
    requires r in s.requests
  {
    var q := s.requests[r];
    && NoRepeats(q.left)
    && (q.freed ==> q.left == [])
    && (!q.freed ==> Holds(s, q.rollback, Rollback(r)))
    && (q.now.Waiting? ==> q.peers == {} && q.left == [] && !q.freed)
    && (q.left == [] ==> q.now.Waiting? || q.now.Between?)
    && (q.now.Numbered? || q.now.Recorded? ==> Entry(s, q.now.id, SynEntry(r, q.left[0], false)))
    && (q.now.Recorded? ==> Holds(s, q.now.a, Syn(r, q.left[0])))
  }

  predicate TaskOk(s: State, r: Request, p: Peer)
    requires (r, p) in s.tasks
  {
    var t := s.tasks[(r, p)];
    && r in s.requests && !s.requests[r].now.Waiting? && p !in s.requests[r].left
    && Holds(s, t.a, Syn(r, p)) && Entry(s, t.id, SynEntry(r, p, t.done))
  }

  /** A peer that was visited still works on its task, or has finished. */
  predicate Visited(s: State, r: Request, p: Peer) { (r, p) in s.tasks || Finished(s, r, p) }

  ghost predicate Inv(s: State) {
    && (forall r <- s.requests :: RequestOk(s, r))
    && (forall r, p :: (r, p) in s.tasks ==> TaskOk(s, r, p))
    && (forall r, p :: r in s.requests && p in s.requests[r].peers && p !in s.requests[r].left ==> Visited(s, r, p))
  }

  /** What is finished stays finished. */
  lemma FinishedStays(s: State, e: Event, r: Request, p: Peer)
    requires Enabled(s, e) && Finished(s, r, p)
    ensures Finished(After(s, e), r, p)
  {
    var id :| id in s.syn && Entry(s, id, SynEntry(r, p, true));
    assert Entry(After(s, e), id, SynEntry(r, p, true));
  }

  lemma RequestStays(s: State, e: Event, r: Request)
    requires Inv(s) && Enabled(s, e) && r in After(s, e).requests
    ensures RequestOk(After(s, e), r)
  {
    if r in s.requests { assert RequestOk(s, r); }
    match e
    case FinishLog(r', p') => assert TaskOk(s, r', p');
    case FreeSyn(r', p') => assert TaskOk(s, r', p');
    case FreeRollback(r') => assert RequestOk(s, r');
    case _ =>
  }

  lemma TaskStays(s: State, e: Event, r: Request, p: Peer)
    requires Inv(s) && Enabled(s, e) && (r, p) in After(s, e).tasks
    ensures TaskOk(After(s, e), r, p)
  {
    if (r, p) in s.tasks { assert TaskOk(s, r, p); }
    match e
    case AddTask(r') => assert RequestOk(s, r');
    case FinishLog(r', p') => assert TaskOk(s, r', p');
    case FreeSyn(r', p') => assert TaskOk(s, r', p');
    case FreeRollback(r') => assert RequestOk(s, r');
    case _ =>
  }

  lemma VisitedStays(s: State, e: Event, r: Request, p: Peer)
    requires Inv(s) && Enabled(s, e) && r in After(s, e).requests
    requires p in After(s, e).requests[r].peers && p !in After(s, e).requests[r].left
    ensures Visited(After(s, e), r, p)
  {
    if r in s.requests && p in s.requests[r].peers && p !in s.requests[r].left {
      if Finished(s, r, p) {
        FinishedStays(s, e, r, p);
      } else {
        assert TaskOk(s, r, p);
        var t := s.tasks[(r, p)];
        assert Entry(s, t.id, SynEntry(r, p, t.done));
      }
    } else if r in s.requests && p in s.requests[r].peers {
      assert e == AddTask(r) && p == s.requests[r].left[0] by { LeftOf(s.requests[r].left, p); }
    }
  }

  lemma LeftOf(order: seq<Peer>, p: Peer)
    requires p in order
    ensures p == order[0] || p in order[1..]
  {}

  lemma StepKeeps(s: State, e: Event)
    requires Inv(s) && Enabled(s, e)
    ensures Inv(After(s, e))
  {
    hide RequestOk, TaskOk, Visited;
    forall r <- After(s, e).requests ensures RequestOk(After(s, e), r) { RequestStays(s, e, r); }
    forall r, p | (r, p) in After(s, e).tasks ensures TaskOk(After(s, e), r, p) { TaskStays(s, e, r, p); }
    forall r, p | r in After(s, e).requests && p in After(s, e).requests[r].peers && p !in After(s, e).requests[r].left
      ensures Visited(After(s, e), r, p)
    {
      VisitedStays(s, e, r, p);
    }
  }

  // ---------------------------------------------------------------- coverage

  predicate Covered(s: State, r: Request)
    requires r in s.requests
  {
    || InRing(s, Rollback(r))
    || forall p <- s.requests[r].peers :: InRing(s, Syn(r, p)) || Finished(s, r, p)
  }

  lemma InvCovers(s: State, r: Request)
    requires Inv(s) && r in s.requests
    ensures Covered(s, r)
  {
    assert RequestOk(s, r);
    if s.requests[r].freed { AllVisited(s, r); }
  }

  predicate Run(states: seq<State>, events: seq<Event>) {
    && |states| == |events| + 1 && states[0].requests == map[] && states[0].tasks == map[]
    && forall i :: 0 <= i < |events| ==> Enabled(states[i], events[i]) && states[i + 1] == After(states[i], events[i])
  }

  /** At every step of every interleaving of requests and peers, once a request has its rollback record: either
      the ring still holds that record, or for every peer of the group that UpdateLog_ found, whether or not it is
      still there, the ring holds a record of the replication or the sync log holds a finished entry for it.
      Wherever the run stops, the logs say what is still to be done. */
  lemma {:induction false} AlwaysCovered(states: seq<State>, events: seq<Event>, i: nat, r: Request)
    requires Run(states, events) && i < |states| && r in states[i].requests
    ensures Covered(states[i], r)
  {
    hide Inv, Covered;
    RunKeeps(states, events, i);
    InvCovers(states[i], r);
  }

  lemma {:induction false} RunKeeps(states: seq<State>, events: seq<Event>, i: nat)
    requires Run(states, events) && i < |states|
    ensures Inv(states[i])
  {
    hide Enabled, After;
    if i > 0 {
      hide Inv;
      RunKeeps(states, events, i - 1);
      assert states[i - 1 + 1] == After(states[i - 1], events[i - 1]);
      StepKeeps(states[i - 1], events[i - 1]);
    }
  }

  // ---------------------------------------------------------------- the rollback records

  function Holding(ring: map<nat, Record>, record: Record): set<nat> {
    set a <- ring | ring[a] == record
  }

  /** The addresses in the ring that hold a rollback record of r. */
  function Rollbacks(s: State, r: Request): set<nat> {
    Holding(s.ring, Rollback(r))
  }

  lemma OneMore(ring: map<nat, Record>, a: nat, written: Record, record: Record)
    requires a !in ring
    ensures |Holding(ring[a := written], record)| == |Holding(ring, record)| + if written == record then 1 else 0
  {
    var h := Holding(ring, record);
    assert Holding(ring[a := written], record) == if written == record then h + {a} else h;
    assert a !in h;
  }

  lemma OneLess(ring: map<nat, Record>, a: nat, record: Record)
    requires a in ring
    ensures |Holding(ring, record)| == |Holding(ring - {a}, record)| + if ring[a] == record then 1 else 0
  {
    var h := Holding(ring - {a}, record);
    assert Holding(ring, record) == if ring[a] == record then h + {a} else h;
    assert a !in h;
  }

  /** How many rollback records were written for r. */
  function Written(events: seq<Event>, r: Request): nat {
    if events == [] then 0
    else
      var last := events[|events| - 1];
      Written(events[..|events| - 1], r) + if last.LogRollback? && last.r == r then 1 else 0
  }

  function Freed(s: State, r: Request): nat {
    if r in s.requests && s.requests[r].freed then 1 else 0
  }

  lemma RollbacksStep(s: State, e: Event, r: Request)
    requires Inv(s) && Enabled(s, e)
    ensures |Rollbacks(After(s, e), r)| + Freed(After(s, e), r)
         == |Rollbacks(s, r)| + Freed(s, r) + if e.LogRollback? && e.r == r then 1 else 0
  {
    hide Holding;
    match e
    case LogRollback(r', a) => OneMore(s.ring, a, Rollback(r'), Rollback(r));
    case WriteSyn(r', a) => OneMore(s.ring, a, Syn(r', s.requests[r'].left[0]), Rollback(r));
    case FreeRollback(r') =>
      assert RequestOk(s, r');
      OneLess(s.ring, s.requests[r'].rollback, Rollback(r));
    case FreeSyn(r', p) =>
      assert TaskOk(s, r', p);
      OneLess(s.ring, s.tasks[(r', p)].a, Rollback(r));
    case _ =>
  }

  /** On every run all rollback records of a request stay in the ring but the last one, which is freed at its end. So
      nothing is left of a request that is over if and only if it was received in one chunk. */
  lemma {:induction false} AllButOneStay(states: seq<State>, events: seq<Event>, i: nat, r: Request)
    requires Run(states, events) && i < |states| && states[0].ring == map[]
    ensures |Rollbacks(states[i], r)| + Freed(states[i], r) == Written(events[..i], r)
    ensures Freed(states[i], r) == 1 ==> (Rollbacks(states[i], r) == {} <==> Written(events[..i], r) == 1)
  {
    hide Enabled, After, Inv;
    if i == 0 {
      assert Rollbacks(states[0], r) == {};
    } else {
      AllButOneStay(states, events, i - 1, r);
      RunKeeps(states, events, i - 1);
      assert states[i - 1 + 1] == After(states[i - 1], events[i - 1]);
      assert events[..i][..i - 1] == events[..i - 1];
      RollbacksStep(states[i - 1], events[i - 1], r);
    }
  }

  // ---------------------------------------------------------------- the sync records

  /** UpdateLog_ has written the record for p and not yet queued the task. */
  predicate Handing(s: State, r: Request, p: Peer) {
    r in s.requests && s.requests[r].now.Recorded? && s.requests[r].left != [] && s.requests[r].left[0] == p
  }

  function One(b: bool): nat { if b then 1 else 0 }

  /** There is one record of a replication while it is being handed out or its task is not done, and none else. */
  predicate Owned(s: State, r: Request, p: Peer) {
    |Holding(s.ring, Syn(r, p))| == One((r, p) in s.tasks) + One(Handing(s, r, p))
  }

  lemma OwnedStep(s: State, e: Event, r: Request, p: Peer)
    requires Inv(s) && Enabled(s, e) && Owned(s, r, p)
    ensures Owned(After(s, e), r, p)
  {
    hide Holding;
    match e
    case LogRollback(r', a) =>
      OneMore(s.ring, a, Rollback(r'), Syn(r, p));
      if r' in s.requests { assert RequestOk(s, r'); }
    case Begin(r', order) => assert RequestOk(s, r');
    case NewSyn(r', id) => assert RequestOk(s, r');
    case WriteSyn(r', a) => OneMore(s.ring, a, Syn(r', s.requests[r'].left[0]), Syn(r, p));
    case AddTask(r') => HandedOver(s, r', r, p);
    case FreeRollback(r') =>
      assert RequestOk(s, r');
      OneLess(s.ring, s.requests[r'].rollback, Syn(r, p));
    case FreeSyn(r', p') =>
      assert TaskOk(s, r', p');
      OneLess(s.ring, s.tasks[(r', p')].a, Syn(r, p));
    case _ =>
  }

  /** The record passes from UpdateLog_ to the task. */
  lemma HandedOver(s: State, r': Request, r: Request, p: Peer)
    requires Inv(s) && Enabled(s, AddTask(r')) && Owned(s, r, p)
    ensures Owned(After(s, AddTask(r')), r, p)
  {
    hide Holding;
    assert RequestOk(s, r');
    var p' := s.requests[r'].left[0];
    assert (r', p') in s.tasks ==> TaskOk(s, r', p');
  }

  /** On every run each sync record is owned by a task, or is being handed out, and no other is in the ring. */
  lemma {:induction false} EachIsOwned(states: seq<State>, events: seq<Event>, i: nat, r: Request, p: Peer)
    requires Run(states, events) && i < |states| && states[0].ring == map[]
    ensures Owned(states[i], r, p)
  {
    hide Enabled, After, Inv;
    if i == 0 {
      assert Holding(states[0].ring, Syn(r, p)) == {};
    } else {
      EachIsOwned(states, events, i - 1, r, p);
      RunKeeps(states, events, i - 1);
      assert states[i - 1 + 1] == After(states[i - 1], events[i - 1]);
      OwnedStep(states[i - 1], events[i - 1], r, p);
    }
  }

  /** So when FinshSyn_ is through with a replication, no record of it is left in the ring, and its entry of the sync log
      is finished. */
  lemma FinishedIsGone(states: seq<State>, events: seq<Event>, i: nat, r: Request, p: Peer)
    requires Run(states, events) && i < |events| && states[0].ring == map[] && events[i] == FreeSyn(r, p)
    ensures !InRing(states[i + 1], Syn(r, p)) && Finished(states[i + 1], r, p) && (r, p) !in states[i + 1].tasks
  {
    hide Holding, Inv;
    EachIsOwned(states, events, i + 1, r, p);
    RunKeeps(states, events, i);
    RunKeeps(states, events, i + 1);
    assert states[i + 1] == After(states[i], FreeSyn(r, p));
    Freeing(states[i], r, p);
    NoneHeld(states[i + 1].ring, Syn(r, p));
  }

  lemma Freeing(s: State, r: Request, p: Peer)
    requires Inv(s) && Enabled(s, FreeSyn(r, p))
    ensures Finished(After(s, FreeSyn(r, p)), r, p) && (r, p) !in After(s, FreeSyn(r, p)).tasks
    ensures !Handing(After(s, FreeSyn(r, p)), r, p)
  {
    assert TaskOk(s, r, p);
    var t := s.tasks[(r, p)];
    assert Entry(After(s, FreeSyn(r, p)), t.id, SynEntry(r, p, true));
  }

  lemma NoneHeld(ring: map<nat, Record>, record: Record)
    requires |Holding(ring, record)| == 0
    ensures forall a <- ring :: ring[a] != record
  {
    forall a <- ring ensures ring[a] != record {
      assert ring[a] == record ==> a in Holding(ring, record);
    }
  }

  // ---------------------------------------------------------------- updateLog_ as the program has it

  /** Whether an event is a step of UpdateLog_ for request r, or starts it. */
  predicate Of(e: Event, r: Request) {
    match e
    case LogRollback(r', _) => r == r'
    case Begin(r', _) => r == r'
    case NewSyn(r', _) => r == r'
    case WriteSyn(r', _) => r == r'
    case AddTask(r') => r == r'
    case FreeRollback(r') => r == r'
    case _ => false
  }

  lemma OthersLeaveIt(s: State, e: Event, r: Request)
    requires Enabled(s, e) && !Of(e, r) && r in s.requests
    ensures r in After(s, e).requests && After(s, e).requests[r] == s.requests[r]
  {}

  lemma Unused<V>(m: map<nat, V>) returns (top: nat)
    ensures top !in m
  {
    top := 0;
    var rest := m.Keys;
    while rest != {}
      invariant rest <= m.Keys
      invariant forall a <- m.Keys :: a in rest || a < top
      decreases rest
    {
      var a :| a in rest;
      rest := rest - {a};
      if top <= a { top := a + 1; }
    }
  }

  class Server {
    var ring: map<nat, Record>
    var syn: map<nat, SynEntry>
    var tasks: map<(Request, Peer), Task>
    var requests: map<Request, Progress>
    var group: set<Peer>

    function View(): State
      reads this
    {
      State(group, ring, syn, requests, tasks)
    }

    /** What other requests and the peers do between two log operations of request r. */
    method Others(r: Request, events: seq<Event>)
      requires Inv(View()) && r in requests
      modifies this
      ensures Inv(View()) && r in requests && requests[r] == old(requests[r])
    {
      hide Inv, Enabled, After, Of;
      for i := 0 to |events|
        invariant Inv(View()) && r in requests && requests[r] == old(requests[r])
      {
        if Enabled(View(), events[i]) && !Of(events[i], r) {
          StepKeeps(View(), events[i]);
          OthersLeaveIt(View(), events[i], r);
          var s := After(View(), events[i]);
          ring, syn, tasks, requests, group := s.ring, s.syn, s.tasks, s.requests, s.group;
          assert View() == s;
        }
      }
    }

    method GetPageIdx(r: Request, p: Peer) returns (id: nat)
      requires Inv(View()) && r in requests && requests[r].now.Between?
      requires requests[r].left != [] && p == requests[r].left[0]
      modifies this
      ensures Inv(View()) && old(Enabled(View(), NewSyn(r, id))) && View() == old(After(View(), NewSyn(r, id)))
    {
      hide Inv;
      ghost var unused := Unused(syn);
      assert unused !in syn;
      id :| id !in syn;
      StepKeeps(View(), NewSyn(r, id));
      syn := syn[id := SynEntry(r, p, false)];
      requests := requests[r := requests[r].(now := Numbered(id))];
    }

    method WriteSynLog(r: Request, p: Peer) returns (a: nat)
      requires Inv(View()) && r in requests && requests[r].now.Numbered?
      requires requests[r].left != [] && p == requests[r].left[0]
      modifies this
      ensures Inv(View()) && old(Enabled(View(), WriteSyn(r, a))) && View() == old(After(View(), WriteSyn(r, a)))
    {
      hide Inv;
      ghost var unused := Unused(ring);
      assert unused !in ring;
      a :| a !in ring;
      StepKeeps(View(), WriteSyn(r, a));
      ring := ring[a := Syn(r, p)];
      requests := requests[r := requests[r].(now := Recorded(requests[r].now.id, a))];
    }

    /** One record for each peer of the group, then the rollback record goes. schedule(k) is what happens
        elsewhere in the k-th gap. */
    method UpdateLog(r: Request, order: seq<Peer>, rollback: nat, schedule: nat -> seq<Event>)
      requires Inv(View()) && Enumerates(order, group)
      requires r in requests && requests[r].now.Waiting? && requests[r].rollback == rollback
      modifies this
      ensures Inv(View()) && r in requests && requests[r] == Progress(rollback, old(group), [], Between, true)
      ensures rollback !in ring
      ensures forall p <- old(group) :: InRing(View(), Syn(r, p)) || Finished(View(), r, p)
    {
      hide Inv;
      ghost var peers := group;
      WaitingIs(View(), r);
      StepKeeps(View(), Begin(r, order));
      requests := requests[r := Progress(rollback, group, order, Between, false)];
      for i := 0 to |order|
        invariant Inv(View())
        invariant r in requests && requests[r] == Progress(rollback, peers, order[i..], Between, false)
      {
        var id := GetPageIdx(r, order[i]);
        Others(r, schedule(3 * i));
        var a := WriteSynLog(r, order[i]);
        Others(r, schedule(3 * i + 1));
        StepKeeps(View(), AddTask(r));
        tasks := tasks[(r, order[i]) := Task(a, id, false)];
        requests := requests[r := requests[r].(left := order[i + 1..], now := Between)];
        Others(r, schedule(3 * i + 2));
      }
      StepKeeps(View(), FreeRollback(r));
      ring := ring - {rollback};
      requests := requests[r := requests[r].(freed := true)];
      AllVisited(View(), r);
    }
  }

  lemma WaitingIs(s: State, r: Request)
    requires Inv(s) && r in s.requests && s.requests[r].now.Waiting?
    ensures s.requests[r] == Progress(s.requests[r].rollback, {}, [], Waiting, false)
  {
    assert RequestOk(s, r);
  }

  lemma AllVisited(s: State, r: Request)
    requires Inv(s) && r in s.requests && s.requests[r].left == []
    ensures forall p <- s.requests[r].peers :: InRing(s, Syn(r, p)) || Finished(s, r, p)
  {
    forall p <- s.requests[r].peers ensures InRing(s, Syn(r, p)) || Finished(s, r, p) {
      assert Visited(s, r, p);
      if (r, p) in s.tasks { assert TaskOk(s, r, p); }
    }
  }
}
