/** The timer of the servers (tracker/src/single/heaptimer.cpp): a binary heap in an array, ordered by expiry,
    and a map from each timer's id to its place in the array. Time is counted in nanoseconds, timeouts in
    milliseconds. A callback is a value that is handed back when it would have been called. */
module Timers {

  const NS_PER_MS := 1_000_000

  datatype TimerNode<C> = TimerNode(id: int, expires: int, cb: C)

  /** What a caller of the timer sees of one timer. */
  datatype Timer<C> = Timer(expires: int, cb: C)

  // ---------------------------------------------------------------- heaps as sequences

  function Parent(i: nat): nat
    requires i > 0
  {
    (i - 1) / 2
  }

  predicate OrderedAt<C>(h: seq<TimerNode<C>>, i: nat)
    requires i < |h|
  {
    i > 0 ==> h[Parent(i)].expires <= h[i].expires
  }

  /** The first n nodes form a heap. */
  predicate Heap<C>(h: seq<TimerNode<C>>, n: nat)
    requires n <= |h|
  {
    forall i :: 0 <= i < n ==> OrderedAt(h, i)
  }

  /** The children of k are no earlier than the parent of k. */
  predicate Bridged<C>(h: seq<TimerNode<C>>, k: nat, n: nat)
    requires n <= |h|
  {
    forall i :: 0 < i < n && k > 0 && Parent(i) == k ==> h[Parent(k)].expires <= h[i].expires
  }

  /** A heap but for node k, which may be too early for its parent. */
  predicate HeapAbove<C>(h: seq<TimerNode<C>>, k: nat, n: nat)
    requires n <= |h|
  {
    Bridged(h, k, n) && forall i :: 0 <= i < n && i != k ==> OrderedAt(h, i)
  }

  /** A heap but for node k, which may be too early for its parent or too late for its children. */
  predicate HeapAround<C>(h: seq<TimerNode<C>>, k: nat, n: nat)
    requires n <= |h|
  {
    Bridged(h, k, n) && forall i :: 0 < i < n && i != k && Parent(i) != k ==> OrderedAt(h, i)
  }

  /** A heap but for node k, which may be too late for its children. */
  predicate HeapBelow<C>(h: seq<TimerNode<C>>, k: nat, n: nat)
    requires n <= |h|
  {
    Bridged(h, k, n) && forall i :: 0 < i < n && Parent(i) != k ==> OrderedAt(h, i)
  }

  function Swapped<C>(h: seq<TimerNode<C>>, u: nat, v: nat): seq<TimerNode<C>>
    requires u < |h| && v < |h|
  {
    h[u := h[v]][v := h[u]]
  }

  /** The map knows every node's place, and nothing else. */
  predicate Inverse<C>(h: seq<TimerNode<C>>, ref: map<int, nat>) {
    && (forall i :: 0 <= i < |h| ==> h[i].id in ref && ref[h[i].id] == i)
    && (forall id <- ref :: ref[id] < |h| && h[ref[id]].id == id)
  }

  function Contents<C>(h: seq<TimerNode<C>>, ref: map<int, nat>): map<int, Timer<C>>
    requires Inverse(h, ref)
  {
    map id | id in ref :: Timer(h[ref[id]].expires, h[ref[id]].cb)
  }

  lemma {:induction false} RootIsLeast<C>(h: seq<TimerNode<C>>, i: nat)
    requires Heap(h, |h|) && i < |h|
    ensures h[0].expires <= h[i].expires
  {
    if i > 0 {
      RootIsLeast(h, Parent(i));
      assert OrderedAt(h, i);
    }
  }

  function Ids<C>(h: seq<TimerNode<C>>): set<int> { set i | 0 <= i < |h| :: h[i].id }

  /** Moving nodes about changes neither the timers nor the ids that occur. */
  predicate Kept<C(==)>(h: seq<TimerNode<C>>, ref: map<int, nat>, h': seq<TimerNode<C>>, ref': map<int, nat>) {
    && (Inverse(h, ref) ==> Inverse(h', ref') && Contents(h', ref') == Contents(h, ref))
    && ref.Keys <= ref'.Keys
    && Ids(h') <= Ids(h)
  }

  lemma SwapKeeps<C>(h: seq<TimerNode<C>>, ref: map<int, nat>, u: nat, v: nat)
    requires u < |h| && v < |h|
    ensures Kept(h, ref, Swapped(h, u, v), ref[h[v].id := u][h[u].id := v])
  {
    var h', ref' := Swapped(h, u, v), ref[h[v].id := u][h[u].id := v];
    if Inverse(h, ref) {
      forall i | 0 <= i < |h'| ensures h'[i].id in ref' && ref'[h'[i].id] == i {
        assert h[i].id in ref && ref[h[i].id] == i;
      }
      assert ref'.Keys == ref.Keys by { assert h[u].id in ref && h[v].id in ref; }
      forall id <- ref ensures h'[ref'[id]] == h[ref[id]] {}
    }
  }

  lemma Unmoved<C>(h: seq<TimerNode<C>>, ref: map<int, nat>)
    ensures Kept(h, ref, h, ref)
  {}

  lemma KeptOn<C>(h: seq<TimerNode<C>>, ref: map<int, nat>, h1: seq<TimerNode<C>>, ref1: map<int, nat>,
                  h2: seq<TimerNode<C>>, ref2: map<int, nat>)
    requires Kept(h, ref, h1, ref1) && Kept(h1, ref1, h2, ref2)
    ensures Kept(h, ref, h2, ref2)
  {
    hide Inverse, Contents, Ids;
  }

  /** An id that no node has makes the map wrong. */
  lemma StrangerBreaks<C>(h: seq<TimerNode<C>>, ref: map<int, nat>, id: int)
    requires id in ref && id !in Ids(h)
    ensures !Inverse(h, ref)
  {
    assert ref[id] < |h| ==> h[ref[id]].id in Ids(h);
  }

  /** Moving a node up past its later parent. */
  lemma SwapUp<C>(h: seq<TimerNode<C>>, k: nat, n: nat)
    requires n <= |h| && 0 < k < n && HeapAbove(h, k, n)
    requires h[k].expires <= h[Parent(k)].expires
    ensures HeapAbove(Swapped(h, Parent(k), k), Parent(k), n)
  {
    var p, h' := Parent(k), Swapped(h, Parent(k), k);
    forall i | 0 <= i < n && i != p ensures OrderedAt(h', i) {
      assert i != k ==> OrderedAt(h, i);
    }
    forall i | 0 < i < n && p > 0 && Parent(i) == p ensures h'[Parent(p)].expires <= h'[i].expires {
      assert OrderedAt(h, p);
      assert i != k ==> OrderedAt(h, i);
    }
  }

  /** Moving a node down past its earlier child. */
  lemma SwapDown<C>(h: seq<TimerNode<C>>, k: nat, j: nat, n: nat)
    requires n <= |h| && 0 < j < n && Parent(j) == k && HeapAround(h, k, n)
    requires h[j].expires <= h[k].expires
    requires 2 * k + 1 < n ==> h[j].expires <= h[2 * k + 1].expires
    requires 2 * k + 2 < n ==> h[j].expires <= h[2 * k + 2].expires
    ensures HeapBelow(Swapped(h, k, j), j, n)
  {
    var h' := Swapped(h, k, j);
    forall i | 0 < i < n && Parent(i) != j ensures OrderedAt(h', i) {
      assert i != k && Parent(i) != k ==> OrderedAt(h, i);
      if i == k { assert h[Parent(k)].expires <= h[j].expires; }
    }
    forall i | 0 < i < n && Parent(i) == j ensures h'[k].expires <= h'[i].expires {
      assert OrderedAt(h, i);
    }
  }

  /** Node k is no later than its children. */
  predicate Settled<C>(h: seq<TimerNode<C>>, k: nat, n: nat)
    requires k < n <= |h|
  {
    && (2 * k + 1 < n ==> h[k].expires <= h[2 * k + 1].expires)
    && (2 * k + 2 < n ==> h[k].expires <= h[2 * k + 2].expires)
  }

  /** Node k is earlier than its children. */
  predicate Before<C>(h: seq<TimerNode<C>>, k: nat, n: nat)
    requires k < n <= |h|
  {
    && (2 * k + 1 < n ==> h[k].expires < h[2 * k + 1].expires)
    && (2 * k + 2 < n ==> h[k].expires < h[2 * k + 2].expires)
  }

  lemma SettledKeeps<C>(h: seq<TimerNode<C>>, k: nat, n: nat)
    requires k < n <= |h| && Settled(h, k, n)
    ensures HeapBelow(h, k, n) ==> Heap(h, n)
    ensures HeapAround(h, k, n) ==> HeapAbove(h, k, n)
  {}

  lemma BelowIsAround<C>(h: seq<TimerNode<C>>, k: nat, n: nat)
    requires n <= |h| && HeapBelow(h, k, n)
    ensures HeapAround(h, k, n)
  {}

  lemma SameContents<C>(h: seq<TimerNode<C>>, ref: map<int, nat>, k: nat, expires: int, cb: C)
    requires Inverse(h, ref) && k < |h|
    ensures Inverse(h[k := TimerNode(h[k].id, expires, cb)], ref)
    ensures Contents(h[k := TimerNode(h[k].id, expires, cb)], ref) == Contents(h, ref)[h[k].id := Timer(expires, cb)]
  {
    var h' := h[k := TimerNode(h[k].id, expires, cb)];
    assert forall i :: 0 <= i < |h| ==> h'[i].id == h[i].id;
    assert h[k].id in ref;
    forall id <- ref ensures id != h[k].id ==> h'[ref[id]] == h[ref[id]] {}
  }

  lemma AppendNode<C>(h: seq<TimerNode<C>>, ref: map<int, nat>, node: TimerNode<C>)
    requires Inverse(h, ref) && Heap(h, |h|) && node.id !in ref
    ensures Inverse(h + [node], ref[node.id := |h|])
    ensures Contents(h + [node], ref[node.id := |h|]) == Contents(h, ref)[node.id := Timer(node.expires, node.cb)]
    ensures HeapAbove(h + [node], |h|, |h| + 1)
  {
    hide Heap, HeapAbove;
    var h', ref' := h + [node], ref[node.id := |h|];
    forall i | 0 <= i < |h| ensures h'[i].id in ref' && ref'[h'[i].id] == i {
      assert h[i].id in ref && ref[h[i].id] == i;
    }
    forall id <- ref ensures h'[ref'[id]] == h[ref[id]] {}
    AppendAbove(h, node);
  }

  lemma AppendAbove<C>(h: seq<TimerNode<C>>, node: TimerNode<C>)
    requires Heap(h, |h|)
    ensures HeapAbove(h + [node], |h|, |h| + 1)
  {
    var h' := h + [node];
    forall i | 0 <= i < |h| ensures OrderedAt(h', i) { assert OrderedAt(h, i); }
  }

  lemma DropLast<C>(h: seq<TimerNode<C>>, ref: map<int, nat>)
    requires Inverse(h, ref) && |h| > 0 && Heap(h, |h| - 1)
    ensures var n := |h| - 1; Inverse(h[..n], ref - {h[n].id}) && Heap(h[..n], n)
    ensures Contents(h[..|h| - 1], ref - {h[|h| - 1].id}) == Contents(h, ref) - {h[|h| - 1].id}
  {
    var n := |h| - 1;
    var h', ref' := h[..n], ref - {h[n].id};
    forall i | 0 <= i < n ensures h'[i].id in ref' && ref'[h'[i].id] == i && OrderedAt(h', i) {
      assert h[i].id in ref && ref[h[i].id] == i;
      assert OrderedAt(h, i);
    }
    forall id <- ref' ensures ref'[id] < n && h'[ref'[id]] == h[ref[id]] {}
  }

  /** Where only node k changes, the order is disturbed only around it. */
  lemma AroundFrom<C>(h: seq<TimerNode<C>>, h': seq<TimerNode<C>>, k: nat, n: nat)
    requires k < n <= |h| == |h'| && Heap(h, |h|)
    requires forall i :: 0 <= i < n && i != k ==> h'[i] == h[i]
    ensures HeapAround(h', k, n)
    ensures k == 0 || h[Parent(k)].expires <= h'[k].expires ==> HeapBelow(h', k, n)
  {
    forall i | 0 < i < n ensures i != k && Parent(i) != k ==> OrderedAt(h', i) {
      assert OrderedAt(h, i);
    }
    forall i | 0 < i < n && k > 0 && Parent(i) == k ensures h'[Parent(k)].expires <= h'[i].expires {
      assert OrderedAt(h, i) && OrderedAt(h, k);
    }
  }

  /** The last node takes the place of node k. */
  lemma SwapLast<C>(h: seq<TimerNode<C>>, k: nat)
    requires Heap(h, |h|) && k < |h| - 1
    ensures HeapAround(Swapped(h, k, |h| - 1), k, |h| - 1)
  {
    AroundFrom(h, Swapped(h, k, |h| - 1), k, |h| - 1);
  }

  lemma ResetAround<C>(h: seq<TimerNode<C>>, k: nat, node: TimerNode<C>)
    requires Heap(h, |h|) && k < |h|
    ensures HeapAround(h[k := node], k, |h|)
    ensures k == 0 || h[Parent(k)].expires <= node.expires ==> HeapBelow(h[k := node], k, |h|)
  {
    AroundFrom(h, h[k := node], k, |h|);
  }

  lemma HeapPrefix<C>(h: seq<TimerNode<C>>)
    requires Heap(h, |h|) && |h| > 0
    ensures Heap(h, |h| - 1)
  {}

  lemma Place<C>(h: seq<TimerNode<C>>, ref: map<int, nat>, id: int)
    requires Inverse(h, ref) && id in ref
    ensures ref[id] < |h| && h[ref[id]].id == id
    ensures id in Contents(h, ref) && Contents(h, ref)[id] == Timer(h[ref[id]].expires, h[ref[id]].cb)
  {}

  lemma NodeIsIn<C>(h: seq<TimerNode<C>>, ref: map<int, nat>, i: nat)
    requires Inverse(h, ref) && i < |h|
    ensures h[i].id in Contents(h, ref)
  {}

  lemma SameIds<C>(h: seq<TimerNode<C>>, k: nat, node: TimerNode<C>)
    requires k < |h| && h[k].id == node.id
    ensures Ids(h[k := node]) == Ids(h)
  {
    var h' := h[k := node];
    assert forall i :: 0 <= i < |h| ==> h[i].id == h'[i].id;
    forall id ensures id in Ids(h) <==> id in Ids(h') {
      if id in Ids(h) { var i :| 0 <= i < |h| && h[i].id == id; assert h'[i].id == id; }
    }
  }

  lemma Strange<C>(h: seq<TimerNode<C>>, ref: map<int, nat>, id: int)
    requires Inverse(h, ref) && id !in ref
    ensures id !in Ids(h)
  {}

  /** A node set earlier than its parent is earlier than its children too. */
  lemma EarlyIsBefore<C>(h: seq<TimerNode<C>>, k: nat, node: TimerNode<C>)
    requires Heap(h, |h|) && 0 < k < |h| && node.expires < h[Parent(k)].expires
    ensures Before(h[k := node], k, |h|)
  {
    assert OrderedAt(h, k);
    forall i | k < i < |h| && Parent(i) == k ensures node.expires < h[i].expires { assert OrderedAt(h, i); }
    assert Parent(2 * k + 1) == k && Parent(2 * k + 2) == k;
  }

  /** A heap to which only an order above k is missing is a heap if that order holds too. */
  lemma AboveAndOrdered<C>(h: seq<TimerNode<C>>, k: nat, n: nat)
    requires k < n <= |h| && HeapAbove(h, k, n)
    ensures Heap(h, n) <==> OrderedAt(h, k)
  {}

  // ---------------------------------------------------------------- expiry

  /** duration_cast to milliseconds: it cuts off the fraction, towards zero. */
  function Milliseconds(ns: int): int {
    if ns >= 0 then ns / NS_PER_MS else -(-ns / NS_PER_MS)
  }

  predicate Expired(expires: int, now: int) { Milliseconds(expires - now) <= 0 }

  /** A timer has expired when less than a millisecond is left. */
  lemma ExpiredIsEarlier(expires: int, now: int)
    ensures Expired(expires, now) <==> expires - now < 1_000_000
  {}

  ghost predicate Monotone(clock: nat -> int) { forall i, j :: 0 <= i <= j ==> clock(i) <= clock(j) }

  /** What a size_t holds of an integer. */
  function ToSize(x: int): nat { x % 0x1_0000_0000_0000_0000 }

  /** What an int keeps of a size_t. */
  function ToInt(x: nat): int {
    var low := x % 0x1_0000_0000;
    if low < 0x8000_0000 then low else low - 0x1_0000_0000
  }

  lemma ThroughSize(x: int)
    requires -0x8000_0000 <= x < 0x8000_0000
    ensures ToInt(ToSize(x)) == x
  {}

  /** What comes through differs by a multiple of the width of an int. */
  lemma ThroughInt(x: int)
    ensures -0x8000_0000 <= ToInt(ToSize(x)) < 0x8000_0000 && (ToInt(ToSize(x)) - x) % 0x1_0000_0000 == 0
  {
    var y := ToSize(x);
    var q, c := x / 0x1_0000_0000_0000_0000, if y % 0x1_0000_0000 < 0x8000_0000 then 0 else 1;
    assert x == 0x1_0000_0000_0000_0000 * q + y;
    assert y == 0x1_0000_0000 * (y / 0x1_0000_0000) + y % 0x1_0000_0000;
    Multiple(ToInt(y) - x, 0 - c - 0x1_0000_0000 * q - y / 0x1_0000_0000);
  }

  lemma Multiple(x: int, k: int)
    requires x == 0x1_0000_0000 * k
    ensures x % 0x1_0000_0000 == 0
  {}

  /** What fired came first: the timers fired one by one in order of expiry, each once and as it was set, and
      the rest are later and untouched. */
  ghost predicate FiredFrom<C>(before: map<int, Timer<C>>, fired: seq<TimerNode<C>>, after: map<int, Timer<C>>) {
    && (forall k :: 0 <= k < |fired| ==>
          fired[k].id in before && before[fired[k].id] == Timer(fired[k].expires, fired[k].cb))
    && (forall j, k :: 0 <= j < k < |fired| ==>
          fired[j].id != fired[k].id && fired[j].expires <= fired[k].expires)
    && after == before - Ids(fired)
    && forall k, id :: 0 <= k < |fired| && id in after ==> fired[k].expires <= after[id].expires
  }

  lemma FireNext<C>(before: map<int, Timer<C>>, fired: seq<TimerNode<C>>, after: map<int, Timer<C>>, node: TimerNode<C>)
    requires FiredFrom(before, fired, after)
    requires node.id in after && after[node.id] == Timer(node.expires, node.cb)
    requires forall id <- after :: node.expires <= after[id].expires
    ensures FiredFrom(before, fired + [node], after - {node.id})
  {
    var fired' := fired + [node];
    assert Ids(fired') == Ids(fired) + {node.id} by {
      assert fired'[|fired|] == node;
      assert forall k :: 0 <= k < |fired| ==> fired'[k] == fired[k];
    }
    forall k | 0 <= k < |fired| ensures fired[k].id != node.id { assert fired[k].id in Ids(fired); }
  }

  /** On a clock that never runs backwards, what fired is exactly what had expired at the last reading. */
  lemma FiredIsExpired<C>(before: map<int, Timer<C>>, fired: seq<TimerNode<C>>, after: map<int, Timer<C>>,
                                clock: nat -> int, last: nat)
    requires FiredFrom(before, fired, after) && Monotone(clock)
    requires |fired| <= last + 1 && forall k :: 0 <= k < |fired| ==> Expired(fired[k].expires, clock(k))
    requires forall id <- after :: !Expired(after[id].expires, clock(last))
    ensures forall id <- before :: id in after <==> !Expired(before[id].expires, clock(last))
  {
    forall id <- before ensures id in after <==> !Expired(before[id].expires, clock(last)) {
      if id !in after {
        var k :| 0 <= k < |fired| && fired[k].id == id;
        assert clock(k) <= clock(last);
        ExpiredIsEarlier(fired[k].expires, clock(k));
        ExpiredIsEarlier(fired[k].expires, clock(last));
      }
    }
  }

  /** The state of the tick loop: what fired so far, each at a look at the clock that found it expired. */
  ghost predicate Ticking<C>(before: map<int, Timer<C>>, fired: seq<TimerNode<C>>, after: map<int, Timer<C>>,
                             clock: nat -> int) {
    FiredFrom(before, fired, after) && forall k :: 0 <= k < |fired| ==> Expired(fired[k].expires, clock(k))
  }

  /** A timer that no other comes before. */
  ghost predicate First<C>(timers: map<int, Timer<C>>, node: TimerNode<C>) {
    && node.id in timers && timers[node.id] == Timer(node.expires, node.cb)
    && forall id <- timers :: node.expires <= timers[id].expires
  }

  lemma FirstIsIn<C>(timers: map<int, Timer<C>>, node: TimerNode<C>)
    requires First(timers, node)
    ensures node.id in timers
  {}

  lemma TickNext<C>(before: map<int, Timer<C>>, fired: seq<TimerNode<C>>, after: map<int, Timer<C>>,
                    clock: nat -> int, node: TimerNode<C>)
    requires Ticking(before, fired, after, clock) && First(after, node) && Expired(node.expires, clock(|fired|))
    ensures Ticking(before, fired + [node], after - {node.id}, clock)
  {
    hide FiredFrom, Expired;
    FireNext(before, fired, after, node);
  }

  ghost predicate NoneExpired<C>(timers: map<int, Timer<C>>, now: int) {
    forall id <- timers :: !Expired(timers[id].expires, now)
  }

  lemma FirstNotExpired<C>(timers: map<int, Timer<C>>, node: TimerNode<C>, now: int)
    requires First(timers, node) && !Expired(node.expires, now)
    ensures NoneExpired(timers, now)
  {
    hide Expired;
    LaterNotExpired(timers, node.expires, now);
  }

  lemma TickEnds<C>(before: map<int, Timer<C>>, fired: seq<TimerNode<C>>, after: map<int, Timer<C>>,
                    clock: nat -> int, last: nat)
    requires Ticking(before, fired, after, clock) && |fired| <= last + 1 && NoneExpired(after, clock(last))
    ensures FiredFrom(before, fired, after)
    ensures forall k :: 0 <= k < |fired| ==> Expired(fired[k].expires, clock(k))
    ensures Monotone(clock) ==> forall id <- before :: id in after <==> !Expired(before[id].expires, clock(last))
  {
    hide FiredFrom, Expired, Monotone;
    if Monotone(clock) { FiredIsExpired(before, fired, after, clock, last); }
  }

  lemma NothingTicked<C>(timers: map<int, Timer<C>>, clock: nat -> int)
    ensures Ticking(timers, [], timers, clock)
  {
    NothingFired(timers);
  }

  /** Callbacks that erase their own timer: the timers leave in order of expiry, every second one without firing. */
  ghost predicate Skipping<C>(before: map<int, Timer<C>>, fired: seq<TimerNode<C>>, gone: seq<TimerNode<C>>,
                              after: map<int, Timer<C>>, clock: nat -> int) {
    && FiredFrom(before, gone, after)
    && |fired| == (|gone| + 1) / 2 && (|gone| % 2 == 1 ==> after == map[])
    && forall k :: 0 <= k < |fired| ==> fired[k] == gone[2 * k] && Expired(fired[k].expires, clock(k))
  }

  predicate Even<C>(s: seq<TimerNode<C>>) { |s| % 2 == 0 }

  lemma SkipNext<C>(before: map<int, Timer<C>>, fired: seq<TimerNode<C>>, gone: seq<TimerNode<C>>,
                    after: map<int, Timer<C>>, clock: nat -> int, node: TimerNode<C>, popped: seq<TimerNode<C>>)
    requires Skipping(before, fired, gone, after, clock) && Even(gone)
    requires First(after, node) && Expired(node.expires, clock(|fired|))
    requires if popped == [] then after - {node.id} == map[] else |popped| == 1 && First(after - {node.id}, popped[0])
    ensures popped != [] ==> Even(gone + [node] + popped)
    ensures Skipping(before, fired + [node], gone + [node] + popped,
                     if popped == [] then map[] else after - {node.id} - {popped[0].id}, clock)
  {
    hide FiredFrom, Expired;
    FireNext(before, gone, after, node);
    if popped == [] {
      assert gone + [node] + popped == gone + [node];
    } else {
      FireNext(before, gone + [node], after - {node.id}, popped[0]);
      assert popped == [popped[0]];
    }
  }

  lemma NothingSkipped<C>(timers: map<int, Timer<C>>, clock: nat -> int)
    ensures Skipping(timers, [], [], timers, clock)
  {
    NothingFired(timers);
  }

  /** A tick loses timers exactly if there are two and one has expired at the first look. */
  lemma LosesIff<C>(before: map<int, Timer<C>>, fired: seq<TimerNode<C>>, gone: seq<TimerNode<C>>,
                    after: map<int, Timer<C>>, clock: nat -> int, asked: nat)
    requires Skipping(before, fired, gone, after, clock) && |fired| <= asked <= |fired| + 1
    requires if asked == 0 then before == map[] else NoneExpired(after, clock(asked - 1))
    ensures |gone| > 1 <==> |before| > 1 && !NoneExpired(before, clock(0))
  {
    hide Expired;
    if |gone| == 0 {
      NoneGone(before, gone, after);
    } else if |gone| == 1 {
      assert before.Keys <= {gone[0].id};
      OneKey(before.Keys, gone[0].id);
    } else {
      TwoKeys(before.Keys, gone[0].id, gone[1].id);
      assert fired[0] == gone[2 * 0] && before[gone[0].id].expires == fired[0].expires;
    }
  }

  lemma NoneGone<C>(before: map<int, Timer<C>>, gone: seq<TimerNode<C>>, after: map<int, Timer<C>>)
    requires FiredFrom(before, gone, after) && gone == []
    ensures after == before
  {
    assert Ids(gone) == {};
  }

  lemma OneKey(keys: set<int>, a: int)
    requires keys <= {a}
    ensures |keys| <= 1
  {
    if a in keys { assert keys == {a}; } else { assert keys == {}; }
  }

  lemma TwoKeys(keys: set<int>, a: int, b: int)
    requires a in keys && b in keys && a != b
    ensures |keys| > 1
  {
    assert keys == (keys - {a, b}) + {a, b} && |{a, b}| == 2;
  }

  /** What never fired: the timers at the odd places. */
  lemma EverySecondIsLost<C>(before: map<int, Timer<C>>, fired: seq<TimerNode<C>>, gone: seq<TimerNode<C>>,
                             after: map<int, Timer<C>>, clock: nat -> int, k: nat)
    requires Skipping(before, fired, gone, after, clock) && 2 * k + 1 < |gone|
    ensures gone[2 * k + 1].id in before && gone[2 * k + 1].id !in after && gone[2 * k + 1].id !in Ids(fired)
  {
    assert gone[2 * k + 1].id in Ids(gone);
    forall j | 0 <= j < |fired| ensures fired[j].id != gone[2 * k + 1].id {}
  }

  lemma LaterNotExpired<C>(timers: map<int, Timer<C>>, least: int, now: int)
    requires forall id <- timers :: least <= timers[id].expires
    requires !Expired(least, now)
    ensures forall id <- timers :: !Expired(timers[id].expires, now)
  {
    forall id <- timers ensures !Expired(timers[id].expires, now) {
      ExpiredIsEarlier(least, now);
      ExpiredIsEarlier(timers[id].expires, now);
    }
  }

  lemma FrontIsLeast<C>(h: seq<TimerNode<C>>, ref: map<int, nat>)
    requires Inverse(h, ref) && Heap(h, |h|) && |h| > 0
    ensures h[0].id in Contents(h, ref) && Contents(h, ref)[h[0].id] == Timer(h[0].expires, h[0].cb)
    ensures forall id <- Contents(h, ref) :: h[0].expires <= Contents(h, ref)[id].expires
  {
    assert h[0].id in ref && ref[h[0].id] == 0;
    forall id <- ref ensures h[0].expires <= h[ref[id]].expires { RootIsLeast(h, ref[id]); }
  }

  lemma EmptyHeap<C>(h: seq<TimerNode<C>>, ref: map<int, nat>)
    requires Inverse(h, ref)
    ensures |h| == 0 <==> Contents(h, ref) == map[]
  {
    KeysAreIds(h, ref);
    if |h| > 0 { assert h[0].id in Contents(h, ref); }
  }

  lemma KeysAreIds<C>(h: seq<TimerNode<C>>, ref: map<int, nat>)
    requires Inverse(h, ref)
    ensures Contents(h, ref).Keys == ref.Keys
    ensures |h| == 0 ==> ref == map[]
  {
    assert forall id <- ref :: ref[id] < |h|;
  }

  /** ms is left in milliseconds, the fraction cut off towards zero. */
  predicate IsCut(ms: int, left: int) {
    if left >= 0 then ms * 1_000_000 <= left < (ms + 1) * 1_000_000
    else (ms - 1) * 1_000_000 < left <= ms * 1_000_000
  }

  /** next is left in milliseconds, or what an int keeps of it. */
  ghost predicate Remains(left: int, next: int) {
    && -0x8000_0000 <= next < 0x8000_0000
    && (0 <= left < 0x8000_0000 * 1_000_000 ==> next * 1_000_000 <= left < (next + 1) * 1_000_000)
    && (-0x8000_0000 * 1_000_000 <= left < 0 ==> (next - 1) * 1_000_000 < left <= next * 1_000_000)
    && exists ms :: IsCut(ms, left) && (next - ms) % 0x1_0000_0000 == 0
  }

  /** next is the remaining time of the timer that expires first. */
  ghost predicate NextIn<C>(timers: map<int, Timer<C>>, now: int, next: int) {
    exists id <- timers :: Soonest(timers, id) && Remains(timers[id].expires - now, next)
  }

  ghost predicate Soonest<C>(timers: map<int, Timer<C>>, id: int)
    requires id in timers
  {
    forall other <- timers :: timers[id].expires <= timers[other].expires
  }

  lemma SoonestIs<C>(timers: map<int, Timer<C>>, i: int, j: int)
    requires i in timers && j in timers && Soonest(timers, i) && Soonest(timers, j)
    ensures timers[i].expires == timers[j].expires
  {}

  lemma CutIs(left: int)
    ensures IsCut(Milliseconds(left), left)
  {}

  lemma CutIsUnique(a: int, b: int, left: int)
    requires IsCut(a, left) && IsCut(b, left)
    ensures a == b
  {}

  lemma CutFits(ms: int, left: int)
    requires IsCut(ms, left)
    ensures -0x8000_0000 * 1_000_000 <= left < 0x8000_0000 * 1_000_000 ==> -0x8000_0000 <= ms < 0x8000_0000
  {}

  lemma RemainsIs(left: int)
    ensures Remains(left, ToInt(ToSize(Milliseconds(left))))
  {
    hide ToInt, ToSize, Milliseconds;
    var ms := Milliseconds(left);
    CutIs(left);
    CutFits(ms, left);
    ThroughInt(ms);
    if -0x8000_0000 <= ms < 0x8000_0000 { ThroughSize(ms); }
  }

  lemma RemainsIsUnique(left: int, a: int, b: int)
    requires Remains(left, a) && Remains(left, b)
    ensures a == b
  {
    hide IsCut;
    var m :| IsCut(m, left) && (a - m) % 0x1_0000_0000 == 0;
    var n :| IsCut(n, left) && (b - n) % 0x1_0000_0000 == 0;
    CutIsUnique(m, n, left);
    SameInt(a, b, m);
  }

  lemma SameInt(a: int, b: int, m: int)
    requires (a - m) % 0x1_0000_0000 == 0 && (b - m) % 0x1_0000_0000 == 0
    requires -0x8000_0000 <= a < 0x8000_0000 && -0x8000_0000 <= b < 0x8000_0000
    ensures a == b
  {
    assert a - m == 0x1_0000_0000 * ((a - m) / 0x1_0000_0000);
    assert b - m == 0x1_0000_0000 * ((b - m) / 0x1_0000_0000);
  }

  lemma Nearest<C>(timers: map<int, Timer<C>>, id: int, now: int)
    requires id in timers && forall other <- timers :: timers[id].expires <= timers[other].expires
    ensures NextIn(timers, now, ToInt(ToSize(Milliseconds(timers[id].expires - now))))
  {
    hide ToInt, ToSize, Milliseconds, Remains;
    assert Soonest(timers, id);
    RemainsIs(timers[id].expires - now);
  }

  /** -1 does not mean that no timer is left: it is also what the caller gets when the time of the next one
      passed between one and two milliseconds before the second look at the clock. */
  lemma MinusOneIsAmbiguous<C>(timers: map<int, Timer<C>>, id: int, now: int)
    requires id in timers && forall other <- timers :: timers[id].expires <= timers[other].expires
    requires -0x8000_0000 * 1_000_000 <= timers[id].expires - now < 0x8000_0000 * 1_000_000
    ensures NextIn(timers, now, -1) <==> -2_000_000 < timers[id].expires - now <= -1_000_000
  {
    hide ToInt, ToSize, Milliseconds, NextIn, IsCut;
    var left := timers[id].expires - now;
    Nearest(timers, id, now);
    RemainsIs(left);
    if NextIn(timers, now, -1) { NextIsUnique(timers, now, ToInt(ToSize(Milliseconds(left))), -1); }
  }

  lemma NextIsUnique<C>(timers: map<int, Timer<C>>, now: int, a: int, b: int)
    requires NextIn(timers, now, a) && NextIn(timers, now, b)
    ensures a == b
  {
    hide Remains, Soonest;
    var i :| i in timers && Soonest(timers, i) && Remains(timers[i].expires - now, a);
    var j :| j in timers && Soonest(timers, j) && Remains(timers[j].expires - now, b);
    SoonestIs(timers, i, j);
    RemainsIsUnique(timers[i].expires - now, a, b);
  }

  lemma NothingFired<C>(timers: map<int, Timer<C>>)
    ensures FiredFrom(timers, [], timers)
  {
    var none: seq<TimerNode<C>> := [];
    assert Ids(none) == {};
  }

  // ---------------------------------------------------------------- the timer

  class HeapTimer<C> {
    var heap: seq<TimerNode<C>>
    var ref: map<int, nat>

    predicate Valid()
      reads this
    {
      Inverse(heap, ref) && Heap(heap, |heap|)
    }

    /** The timers that are set. */
    function Timers(): map<int, Timer<C>>
      requires Valid()
      reads this
    {
      Contents(heap, ref)
    }

    constructor ()
      ensures Valid() && Timers() == map[]
    {
      heap, ref := [], map[];
    }

    method SwapNode(u: nat, v: nat)
      requires u < |heap| && v < |heap|
      modifies this
      ensures heap == Swapped(old(heap), u, v)
      ensures Kept(old(heap), old(ref), heap, ref)
    {
      SwapKeeps(heap, ref, u, v);
      heap := heap[u := heap[v]][v := heap[u]];
      ref := ref[heap[u].id := u];
      ref := ref[heap[v].id := v];
    }

    /** n is how much of the array is meant to be a heap. */
    method SiftUp(start: nat, ghost n: nat)
      requires start < n <= |heap| && HeapAbove(heap, start, n)
      modifies this
      ensures Kept(old(heap), old(ref), heap, ref)
      ensures |heap| == old(|heap|) && heap[n..] == old(heap[n..]) && Heap(heap, n)
    {
      hide Inverse, Contents, Kept;
      Unmoved(heap, ref);
      if start == 0 { return; }
      var idx := start;
      var f := Parent(idx);
      while true
        invariant 0 < idx < n && f == Parent(idx)
        invariant Kept(old(heap), old(ref), heap, ref)
        invariant |heap| == old(|heap|) && heap[n..] == old(heap[n..]) && HeapAbove(heap, idx, n)
        decreases idx
      {
        if heap[f].expires < heap[idx].expires { break; }
        SwapUp(heap, idx, n);
        ghost var h, r := heap, ref;
        SwapNode(f, idx);
        KeptOn(old(heap), old(ref), h, r, heap, ref);
        idx := f;
        if idx == 0 { break; }
        f := Parent(idx);
      }
    }

    method SiftDown(idx: nat, n: nat) returns (moved: bool)
      requires idx < n <= |heap| && HeapAround(heap, idx, n)
      modifies this
      ensures Kept(old(heap), old(ref), heap, ref)
      ensures |heap| == old(|heap|) && heap[n..] == old(heap[n..])
      ensures if moved then Heap(heap, n) else heap == old(heap) && ref == old(ref) && HeapAbove(heap, idx, n)
      ensures old(Before(heap, idx, n)) ==> !moved
    {
      hide Inverse, HeapAround, HeapBelow, HeapAbove, Heap, Contents, Kept;
      Unmoved(heap, ref);
      var i := idx;
      var j := i * 2 + 1;
      while j < n
        invariant idx <= i < n && j == i * 2 + 1
        invariant Kept(old(heap), old(ref), heap, ref)
        invariant |heap| == old(|heap|) && heap[n..] == old(heap[n..])
        invariant HeapAround(heap, i, n)
        invariant if i > idx then HeapBelow(heap, i, n) && !old(Before(heap, idx, n))
                  else heap == old(heap) && ref == old(ref)
      {
        if j + 1 < n && heap[j + 1].expires < heap[j].expires { j := j + 1; }
        if heap[i].expires < heap[j].expires { break; }
        SwapDown(heap, i, j, n);
        ghost var h, r := heap, ref;
        SwapNode(i, j);
        KeptOn(old(heap), old(ref), h, r, heap, ref);
        i := j;
        j := i * 2 + 1;
        BelowIsAround(heap, i, n);
      }
      SettledKeeps(heap, i, n);
      return i > idx;
    }

    method Del(idx: nat)
      requires Valid()
      modifies this
      ensures Valid()
      ensures Timers() ==
              if idx < old(|heap|) then old(Timers()) - {old(heap[idx].id)} else old(Timers())
      ensures |heap| == if idx < old(|heap|) then old(|heap|) - 1 else old(|heap|)
    {
      hide Inverse, HeapAround, HeapAbove, HeapBelow, Heap, Contents, Ids;
      if |heap| == 0 || idx >= |heap| { return; }
      var n := |heap| - 1;
      if idx < n {
        SwapLast(heap, idx);
        SwapNode(idx, n);
        assert heap[n..] == [old(heap[idx])];
        var moved := SiftDown(idx, n);
        if !moved { SiftUp(idx, n); }
        assert heap[n..][0] == heap[n];
      } else {
        HeapPrefix(heap);
      }
      DropLast(heap, ref);
      ref := ref - {heap[n].id};
      heap := heap[..n];
    }

    /** A timer that is set already is set anew, whatever its new expiry. */
    method Add(id: int, timeout: int, cb: C, now: int)
      requires Valid()
      modifies this
      ensures Valid()
      ensures Timers() == old(Timers())[id := Timer(now + timeout * NS_PER_MS, cb)]
    {
      hide Inverse, HeapAround, HeapAbove, HeapBelow, Heap, Contents, Ids;
      var node := TimerNode(id, now + timeout * NS_PER_MS, cb);
      if id !in ref {
        AppendNode(heap, ref, node);
        var i := |heap|;
        ref := ref[id := i];
        heap := heap + [node];
        SiftUp(i, |heap|);
      } else {
        Place(heap, ref, id);
        var i := ref[id];
        SameContents(heap, ref, i, node.expires, cb);
        ResetAround(heap, i, node);
        heap := heap[i := node];
        var moved := SiftDown(i, |heap|);
        if !moved { SiftUp(i, |heap|); }
      }
    }

    /** update only ever moves a timer towards the leaves, and looks an unknown id up by inserting it with
        place 0. So it keeps the timer sound exactly if the id is set and its new expiry is no earlier than its
        parent's. On an empty heap an unknown id reaches outside the array. */
    method Update(id: int, timeout: int, now: int)
      requires Valid() && (id in ref || |heap| > 0)
      modifies this
      ensures Valid() <==>
              id in old(ref)
              && var k, expires := old(ref[id]), now + timeout * NS_PER_MS;
                 k > 0 ==> old(heap)[Parent(k)].expires <= expires
      ensures Valid() ==>
                Timers() == old(Timers())[id := Timer(now + timeout * NS_PER_MS, old(Timers())[id].cb)]
    {
      hide Inverse, HeapAround, HeapAbove, HeapBelow, Heap, Contents, Ids;
      ghost var h, r, known := heap, ref, id in ref;
      if id !in ref {
        ref := ref[id := 0];
        assert id !in Ids(heap) by { Strange(heap, r, id); }
      } else {
        Place(heap, ref, id);
      }
      var i := ref[id];
      ghost var node := TimerNode(heap[i].id, now + timeout * NS_PER_MS, heap[i].cb);
      ResetAround(heap, i, node);
      if known { SameContents(heap, ref, i, node.expires, node.cb); }
      heap := heap[i := heap[i].(expires := now + timeout * NS_PER_MS)];
      SameIds(h, i, heap[i]);
      var moved := SiftDown(i, |heap|);
      if !known {
        StrangerBreaks(heap, ref, id);
      } else if !moved {
        AboveAndOrdered(heap, i, |heap|);
      } else if i > 0 && node.expires < h[Parent(i)].expires {
        EarlyIsBefore(h, i, node);
        assert false;
      }
    }

    method Close(id: int) returns (called: seq<TimerNode<C>>)
      requires Valid()
      modifies this
      ensures Valid() && Timers() == old(Timers()) - {id}
      ensures called == if id in old(Timers())
                        then [TimerNode(id, old(Timers())[id].expires, old(Timers())[id].cb)] else []
    {
      hide Inverse, Heap, Contents;
      called := [];
      KeysAreIds(heap, ref);
      if |heap| == 0 || id !in ref { return; }
      Place(heap, ref, id);
      var i := ref[id];
      called := [heap[i]];
      Del(i);
    }

    /** close with a callback that erases its own timer: the place of the timer is looked up before the callback, so
        the timer that has moved there is dropped too, without its callback. That spares the others if and only if the
        timer stood at the last place. */
    method CloseErasing(id: int) returns (called: seq<TimerNode<C>>, ghost lost: seq<TimerNode<C>>)
      requires Valid()
      modifies this
      ensures Valid() && |called| == (if id in old(Timers()) then 1 else 0)
      ensures forall node <- called :: node.id == id
      ensures lost != [] <==> id in old(Timers()) && id in old(ref) && old(ref[id]) + 1 < old(|heap|)
      ensures |lost| <= 1 && forall node <- lost :: node.id in old(Timers()) && node.id != id
      ensures Timers() == if lost == [] then old(Timers()) - {id} else old(Timers()) - {id} - {lost[0].id}
    {
      hide Inverse, Heap, Contents;
      called, lost := [], [];
      KeysAreIds(heap, ref);
      if |heap| == 0 || id !in ref { return; }
      Place(heap, ref, id);
      var i := ref[id];
      called := [heap[i]];
      Erase(id);
      if i < |heap| {
        lost := [heap[i]];
        NodeIsIn(heap, ref, i);
      }
      Del(i);
    }

    method Erase(id: int)
      requires Valid()
      modifies this
      ensures Valid() && Timers() == old(Timers()) - {id}
      ensures |heap| == if id in old(Timers()) then old(|heap|) - 1 else old(|heap|)
    {
      hide Inverse, Heap, Contents;
      KeysAreIds(heap, ref);
      if |heap| == 0 || id !in ref { return; }
      Place(heap, ref, id);
      Del(ref[id]);
    }

    method Clear()
      modifies this
      ensures Valid() && Timers() == map[]
    {
      heap, ref := [], map[];
    }

    /** The first node is a timer that no other comes before. */
    lemma FrontIsFirst()
      requires Valid() && |heap| > 0
      ensures First(Timers(), heap[0])
    {
      FrontIsLeast(heap, ref);
    }

    lemma NoneLeft(now: int)
      requires Valid() && |heap| == 0
      ensures NoneExpired(Timers(), now)
    {
      EmptyMeansNone();
    }

    lemma EmptyMeansNone()
      requires Valid()
      ensures |heap| == 0 <==> Timers() == map[]
    {
      EmptyHeap(heap, ref);
    }

    /** Removes the first timer, if there is one. */
    method Pop() returns (ghost popped: seq<TimerNode<C>>)
      requires Valid()
      modifies this
      ensures Valid() && (popped == [] <==> old(Timers()) == map[])
      ensures popped == [] ==> Timers() == map[] && |heap| == 0
      ensures popped != [] ==>
                |popped| == 1 && First(old(Timers()), popped[0]) && Timers() == old(Timers()) - {popped[0].id}
                && |heap| == |old(heap)| - 1
    {
      hide Inverse, Heap, Contents, First;
      EmptyMeansNone();
      if |heap| == 0 { return []; }
      FrontIsFirst();
      popped := [heap[0]];
      Del(0);
    }

    /** clock(k) is the time at the k-th look. fired lists the timers whose callbacks were called, in order;
        asked says how often the clock was looked at. */
    method Tick(clock: nat -> int) returns (fired: seq<TimerNode<C>>, asked: nat)
      requires Valid()
      modifies this
      ensures Valid() && FiredFrom(old(Timers()), fired, Timers())
      ensures (asked > 0 <==> old(Timers()) != map[]) && (asked == 0 ==> Timers() == map[])
      ensures |fired| <= asked <= |fired| + 1 && forall k :: 0 <= k < |fired| ==> Expired(fired[k].expires, clock(k))
      ensures asked > 0 ==> NoneExpired(Timers(), clock(asked - 1))
      ensures asked > 0 && Monotone(clock) ==>
                forall id <- old(Timers()) :: id in Timers() <==> !Expired(old(Timers())[id].expires, clock(asked - 1))
    {
      hide *;
      fired, asked := [], 0;
      ghost var before := Timers();
      EmptyMeansNone();
      NothingTicked(before, clock);
      if |heap| == 0 {
        NothingFired(before);
        return;
      }
      while |heap| > 0
        invariant Valid() && Ticking(before, fired, Timers(), clock)
        invariant |fired| == asked && (asked == 0 ==> |heap| > 0)
        decreases |heap|
      {
        var node := heap[0];
        FrontIsFirst();
        asked := asked + 1;
        if !Expired(node.expires, clock(asked - 1)) {
          FirstNotExpired(Timers(), node, clock(asked - 1));
          break;
        }
        TickNext(before, fired, Timers(), clock, node);
        fired := fired + [node];
        Del(0);
      }
      EmptyMeansNone();
      if |heap| == 0 { NoTimerExpired<C>(clock(asked - 1)); }
      TickEnds(before, fired, Timers(), clock, asked - 1);
    }

    method FirstIsDue(now: int) returns (due: bool)
      requires Valid() && |heap| > 0
      ensures due == Expired(heap[0].expires, now) && (!due ==> NoneExpired(Timers(), now))
    {
      hide Expired, First, NoneExpired, Inverse, Heap, Contents;
      FrontIsFirst();
      due := Expired(heap[0].expires, now);
      if !due { FirstNotExpired(Timers(), heap[0], now); }
    }

    /** The first timer fires, its callback erases it, and the timer that is first then is popped. */
    method FireErasing(ghost before: map<int, Timer<C>>, fired: seq<TimerNode<C>>, ghost gone: seq<TimerNode<C>>,
                       clock: nat -> int)
      returns (fired': seq<TimerNode<C>>, ghost gone': seq<TimerNode<C>>)
      requires Valid() && |heap| > 0 && Even(gone) && Skipping(before, fired, gone, Timers(), clock)
      requires Expired(heap[0].expires, clock(|fired|))
      modifies this
      ensures Valid() && |heap| < old(|heap|)
      ensures fired' == fired + [old(heap[0])]
      ensures Skipping(before, fired', gone', Timers(), clock) && (|heap| > 0 ==> Even(gone'))
    {
      hide Inverse, Heap, Contents, Expired, FiredFrom, Skipping, First, Even;
      var node := heap[0];
      ghost var timers := Timers();
      FrontIsFirst();
      FirstIsIn(timers, node);
      Erase(node.id);
      ghost var popped := Pop();
      SkipNext(before, fired, gone, timers, clock, node, popped);
      fired', gone' := fired + [node], gone + [node] + popped;
    }

    /** The state of that loop. It is over when the first timer is not due. */
    ghost predicate Looping(before: map<int, Timer<C>>, fired: seq<TimerNode<C>>, gone: seq<TimerNode<C>>,
                            clock: nat -> int, due: bool, asked: nat)
      reads this
    {
      && Valid() && Skipping(before, fired, gone, Timers(), clock)
      && if due then asked == |fired| && (|heap| > 0 ==> Even(gone)) && (asked == 0 ==> |heap| > 0)
         else asked == |fired| + 1 && NoneExpired(Timers(), clock(asked - 1))
    }

    /** One look at the first timer. */
    method TurnErasing(ghost before: map<int, Timer<C>>, fired: seq<TimerNode<C>>, ghost gone: seq<TimerNode<C>>,
                       clock: nat -> int, asked: nat)
      returns (due: bool, fired': seq<TimerNode<C>>, ghost gone': seq<TimerNode<C>>)
      requires Looping(before, fired, gone, clock, true, asked) && |heap| > 0
      modifies this
      ensures Looping(before, fired', gone', clock, due, asked + 1) && (due ==> |heap| < old(|heap|))
    {
      hide Inverse, Heap, Contents, Expired, FiredFrom, Skipping, NoneExpired, Even;
      fired', gone' := fired, gone;
      due := FirstIsDue(clock(asked));
      if due { fired', gone' := FireErasing(before, fired, gone, clock); }
    }

    lemma LoopStarts(clock: nat -> int)
      requires Valid() && |heap| > 0
      ensures Looping(Timers(), [], [], clock, true, 0)
    {
      hide Inverse, Heap, Contents, FiredFrom, Skipping;
      NothingSkipped(Timers(), clock);
    }

    lemma LoopEnds(before: map<int, Timer<C>>, fired: seq<TimerNode<C>>, gone: seq<TimerNode<C>>, clock: nat -> int,
                   due: bool, asked: nat)
      requires Looping(before, fired, gone, clock, due, asked) && (due ==> |heap| == 0)
      ensures Valid() && Skipping(before, fired, gone, Timers(), clock)
      ensures 0 < asked && |fired| <= asked <= |fired| + 1 && NoneExpired(Timers(), clock(asked - 1))
    {
      hide Inverse, Heap, Contents, Expired, FiredFrom, Skipping, NoneExpired;
      if due { NoneLeft(clock(asked - 1)); }
    }

    /** tick with the callback that the servers register: closing a connection erases its timer. Then `pop` takes the
        next timer instead, which never fires, expired or not. gone lists the timers that left, in order. All of them
        fired exactly if there was one timer at most, or the first look found none expired. */
    method TickErasing(clock: nat -> int)
      returns (fired: seq<TimerNode<C>>, ghost gone: seq<TimerNode<C>>, asked: nat)
      requires Valid()
      modifies this
      ensures Valid() && Skipping(old(Timers()), fired, gone, Timers(), clock)
      ensures (asked == 0 <==> old(|heap|) == 0) && |fired| <= asked <= |fired| + 1
      ensures asked > 0 ==> NoneExpired(Timers(), clock(asked - 1))
      ensures |gone| > 1 <==> |old(Timers())| > 1 && !NoneExpired(old(Timers()), clock(0))
    {
      hide *;
      fired, gone, asked := [], [], 0;
      EmptyMeansNone();
      if |heap| == 0 {
        NothingSkipped(Timers(), clock);
      } else {
        fired, gone, asked := LoopErasing(clock);
      }
      Lost(old(Timers()), fired, gone, clock, asked);
    }

    lemma Lost(before: map<int, Timer<C>>, fired: seq<TimerNode<C>>, gone: seq<TimerNode<C>>, clock: nat -> int,
               asked: nat)
      requires Valid() && Skipping(before, fired, gone, Timers(), clock) && |fired| <= asked <= |fired| + 1
      requires if asked == 0 then before == map[] else NoneExpired(Timers(), clock(asked - 1))
      ensures |gone| > 1 <==> |before| > 1 && !NoneExpired(before, clock(0))
    {
      hide *;
      LosesIff(before, fired, gone, Timers(), clock, asked);
    }

    method LoopErasing(clock: nat -> int)
      returns (fired: seq<TimerNode<C>>, ghost gone: seq<TimerNode<C>>, asked: nat)
      requires Valid() && |heap| > 0
      modifies this
      ensures Valid() && Skipping(old(Timers()), fired, gone, Timers(), clock)
      ensures 0 < asked && |fired| <= asked <= |fired| + 1 && NoneExpired(Timers(), clock(asked - 1))
    {
      hide *;
      fired, gone, asked := [], [], 0;
      ghost var before := Timers();
      LoopStarts(clock);
      var due := true;
      while due && |heap| > 0
        invariant Looping(before, fired, gone, clock, due, asked)
        decreases due, |heap|
      {
        due, fired, gone := TurnErasing(before, fired, gone, clock, asked);
        asked := asked + 1;
      }
      LoopEnds(before, fired, gone, clock, due, asked);
    }

    /** The milliseconds until the next timer expires, or -1 if none is left. The time that passes between the
        two looks at the clock counts: it can make the result negative, for the clamp at zero tests an unsigned
        value. */
    method GetNextTick(clock: nat -> int) returns (next: int, fired: seq<TimerNode<C>>, asked: nat)
      requires Valid()
      modifies this
      ensures Valid() && FiredFrom(old(Timers()), fired, Timers())
      ensures (asked > 0 <==> old(Timers()) != map[]) && (asked == 0 ==> Timers() == map[])
      ensures asked > 0 && Monotone(clock) ==>
                forall id <- old(Timers()) :: id in Timers() <==> !Expired(old(Timers())[id].expires, clock(asked - 1))
      ensures |fired| <= asked <= |fired| + 1 && forall k :: 0 <= k < |fired| ==> Expired(fired[k].expires, clock(k))
      ensures asked > 0 ==> NoneExpired(Timers(), clock(asked - 1))
      ensures Timers() == map[] ==> next == -1
      ensures Timers() != map[] ==> NextIn(Timers(), clock(asked), next)
    {
      hide *;
      fired, asked := Tick(clock);
      next := Remaining(clock(asked));
    }

    /** GetNextTick with the callback that the servers register. */
    method GetNextTickErasing(clock: nat -> int)
      returns (next: int, fired: seq<TimerNode<C>>, ghost gone: seq<TimerNode<C>>, asked: nat)
      requires Valid()
      modifies this
      ensures Valid() && Skipping(old(Timers()), fired, gone, Timers(), clock)
      ensures (asked == 0 <==> old(|heap|) == 0) && |fired| <= asked <= |fired| + 1
      ensures asked > 0 ==> NoneExpired(Timers(), clock(asked - 1))
      ensures |gone| > 1 <==> |old(Timers())| > 1 && !NoneExpired(old(Timers()), clock(0))
      ensures Timers() == map[] ==> next == -1
      ensures Timers() != map[] ==> NextIn(Timers(), clock(asked), next)
    {
      hide *;
      fired, gone, asked := TickErasing(clock);
      next := Remaining(clock(asked));
    }

    /** What GetNextTick returns once tick is over. */
    method Remaining(now: int) returns (next: int)
      requires Valid()
      ensures Timers() == map[] ==> next == -1
      ensures Timers() != map[] ==> NextIn(Timers(), now, next)
    {
      hide Inverse, Heap, Contents, FiredFrom, Expired, NoneExpired, ToSize, ToInt, Milliseconds;
      var res: int := ToSize(-1);
      EmptyMeansNone();
      if |heap| > 0 {
        FrontIsFirst();
        Nearest(Timers(), heap[0].id, now);
        res := ToSize(Milliseconds(heap[0].expires - now));
        if res < 0 { res := 0; }
      } else {
        ThroughSize(-1);
      }
      next := ToInt(res);
    }
  }

  lemma NoTimerExpired<C>(now: int)
    ensures NoneExpired<C>(map[], now)
  {}

  // ---------------------------------------------------------------- runs that fail

  /** GetNextTick says that no timer is left, one millisecond after the timer it saw has expired. */
  method MinusOneWithTimerLeft<C>(cb: C) returns (timer: HeapTimer<C>, next: int)
    ensures next == -1 && timer.Valid() && timer.Timers() == map[7 := Timer(2_000_000, cb)]
  {
    hide FiredFrom, NextIn, Expired, NoneExpired, ToInt, ToSize, Milliseconds, Contents;
    timer := new HeapTimer<C>();
    timer.Add(7, 2, cb, 0);
    var clock := (k: nat) => if k == 0 then 0 else 3_000_000;
    var fired, asked;
    next, fired, asked := timer.GetNextTick(clock);
    OneLeft(cb, fired, timer.Timers(), clock);
    assert Milliseconds(2_000_000 - 3_000_000) == -1 by { OneMillisecondAgo(); }
    MinusOneIsAmbiguous(timer.Timers(), 7, 3_000_000);
    NextIsUnique(timer.Timers(), 3_000_000, next, -1);
  }

  lemma OneMillisecondAgo()
    ensures Milliseconds(2_000_000 - 3_000_000) == -1
  {}

  lemma OneLeft<C>(cb: C, fired: seq<TimerNode<C>>, after: map<int, Timer<C>>, clock: nat -> int)
    requires clock(0) == 0 && FiredFrom(map[7 := Timer(2_000_000, cb)], fired, after)
    requires forall k :: 0 <= k < |fired| ==> Expired(fired[k].expires, clock(k))
    ensures fired == [] && after == map[7 := Timer(2_000_000, cb)]
  {
    hide FiredFrom;
    assert |fired| == 0 by {
      if |fired| > 0 { GoneIsLeast(map[7 := Timer(2_000_000, cb)], fired, after, 0); }
    }
    WhoIsLeft(map[7 := Timer(2_000_000, cb)], fired, after, 7);
  }

  /** Three connections, and a tick when the first has timed out. Closing it erases its timer, and the second timer is
      lost beside it. The next event of the second connection then updates a timer that is not there, which leaves the
      timer unsound. */
  method LostTimerIsUpdated<C>(cb: C) returns (timer: HeapTimer<C>)
    ensures !timer.Valid()
  {
    hide *;
    timer := ThreeTimers(cb);
    TickThree(cb, timer);
    timer.Update(2, 100, 7_000_000);
  }

  method ThreeTimers<C>(cb: C) returns (timer: HeapTimer<C>)
    ensures fresh(timer) && timer.Valid() && timer.Timers() ==
            map[1 := Timer(5_000_000, cb), 2 := Timer(100_000_000, cb), 3 := Timer(200_000_000, cb)]
  {
    hide Contents, Inverse, Heap;
    timer := new HeapTimer<C>();
    timer.Add(1, 5, cb, 0);
    timer.Add(2, 100, cb, 0);
    timer.Add(3, 200, cb, 0);
  }

  method TickThree<C>(cb: C, timer: HeapTimer<C>)
    requires timer.Valid() && timer.Timers() ==
             map[1 := Timer(5_000_000, cb), 2 := Timer(100_000_000, cb), 3 := Timer(200_000_000, cb)]
    modifies timer
    ensures timer.Valid() && timer.ref.Keys == {3} && |timer.heap| > 0
  {
    hide Skipping, Expired, NoneExpired, Contents, Inverse, Heap;
    ghost var before := timer.Timers();
    assert 1 in before;
    timer.EmptyMeansNone();
    var clock := (k: nat) => 6_000_000;
    var fired, asked;
    ghost var gone;
    fired, gone, asked := timer.TickErasing(clock);
    SecondIsLost(cb, before, fired, gone, timer.Timers(), clock);
    KeysAreIds(timer.heap, timer.ref);
    assert 3 in timer.Timers();
    timer.EmptyMeansNone();
  }

  lemma SecondIsLost<C>(cb: C, before: map<int, Timer<C>>, fired: seq<TimerNode<C>>, gone: seq<TimerNode<C>>,
                        after: map<int, Timer<C>>, clock: nat -> int)
    requires before == map[1 := Timer(5_000_000, cb), 2 := Timer(100_000_000, cb), 3 := Timer(200_000_000, cb)]
    requires Skipping(before, fired, gone, after, clock) && NoneExpired(after, 6_000_000)
    requires forall k :: clock(k) == 6_000_000
    ensures after == map[3 := Timer(200_000_000, cb)]
    ensures |fired| == 1 && fired[0].id == 1
  {
    hide FiredFrom;
    WhoIsLeft(before, gone, after, 1);
    WhoIsLeft(before, gone, after, 2);
    WhoIsLeft(before, gone, after, 3);
    GoneIsLeast(before, gone, after, 0);
    assert gone[2 * 0].id == 1;
    assert |fired| < 2 by {
      if |fired| >= 2 {
        GoneIsLeast(before, gone, after, 2);
        assert gone[2 * 1].expires == 5_000_000;
        TwoGone(before, gone, after, 0, 2);
      }
    }
    assert |gone| == 2;
    TwoGone(before, gone, after, 0, 1);
    GoneIsLeast(before, gone, after, 1);
  }

  lemma WhoIsLeft<C>(before: map<int, Timer<C>>, gone: seq<TimerNode<C>>, after: map<int, Timer<C>>, id: int)
    requires FiredFrom(before, gone, after)
    ensures after.Keys <= before.Keys
    ensures id in after ==> after[id] == before[id]
    ensures id in before ==> (id in after <==> forall k :: 0 <= k < |gone| ==> gone[k].id != id)
  {}

  lemma TwoGone<C>(before: map<int, Timer<C>>, gone: seq<TimerNode<C>>, after: map<int, Timer<C>>, i: nat, j: nat)
    requires FiredFrom(before, gone, after) && i < j < |gone|
    ensures gone[i].id != gone[j].id
  {}

  lemma GoneIsLeast<C>(before: map<int, Timer<C>>, gone: seq<TimerNode<C>>, after: map<int, Timer<C>>, i: nat)
    requires FiredFrom(before, gone, after) && i < |gone|
    ensures gone[i].id in before && before[gone[i].id].expires == gone[i].expires
    ensures forall id <- after :: gone[i].expires <= after[id].expires
  {}
}
