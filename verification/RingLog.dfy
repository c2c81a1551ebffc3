/** The ring log (storage/src/consistlog/ringlog/ringlog.cpp): a file of 64-byte pages through which two lists
    are threaded, the pages that hold a log record and the pages that are free. An address is given here as
    the number of its page, that is divided by 64. Page 0 holds the header; it also serves as the end of both
    lists, for the links of a page lie where the header has fill bytes. */
module RingLogs {
  import PageBytes

  /** What the first 48 bytes of a page hold. */
  datatype Record =
    | Blank
    | Header(todo: nat, free: nat, freeEnd: nat, todoNum: nat, freeNum: nat)
    | Rollback(isUpload: bool, username: string, filename: string)
    | Syn(isUpload: bool, hasUser: bool, username: string, filename: string)

  datatype Page = Page(record: Record, pre: nat, nxt: nat)

  const UINT64 := PageBytes.UINT64

  const PAGE := PageBytes.PAGE

  /** The page number of a byte address. An address inside a page, which only a damaged link holds, gets a number
      of its own beyond every page. */
  function PageOf(address: nat): nat {
    if address % PAGE == 0 then address / PAGE else UINT64 + address
  }

  /** The page that is written for a record: copying the names of a rollback record may run over the links. The
      names of a sync record come from fields of 12 bytes and go to fields of 12 bytes. */
  function Stored(record: Record, pre: nat, nxt: nat): (page: Page)
    ensures page.record == record
  {
    match record
    case Rollback(_, username, filename) =>
      var l := PageBytes.LinksAfter(PageBytes.Links(PAGE * pre, PAGE * nxt), username, filename);
      Page(record, PageOf(l.pre), PageOf(l.nxt))
    case _ => Page(record, pre, nxt)
  }

  /** The names of the record fit a page. */
  predicate Fits(record: Record) {
    record.Rollback? ==> |record.filename| <= 12 && |record.username| <= 23
  }

  lemma StoredFits(record: Record, pre: nat, nxt: nat)
    requires Fits(record) && PAGE * pre < UINT64 && PAGE * nxt < UINT64
    ensures Stored(record, pre, nxt) == Page(record, pre, nxt)
  {
    hide PageBytes.LinksAfter;
    if record.Rollback? {
      PageBytes.LinksKept(PageBytes.Links(PAGE * pre, PAGE * nxt), record.username, record.filename);
    }
  }

  /** Addresses in the file are of type int. */
  const MAX_CAPACITY := 0x20_0000

  function Succ(n: nat): nat { (n + 1) % UINT64 }

  function Pred(n: nat): nat { (n + UINT64 - 1) % UINT64 }

  /** The file and the header in memory. The code maintains neither count; `counts` says whether they are
      maintained all the same: by GetFreebody_ and InitLogFile_, and by FreeLog, which takes the wrong one. */
  datatype Ring = Ring(
    pages: seq<Page>, todoList: nat, freeList: nat, freeListEnd: nat, todoListNum: nat, freeListNum: nat, counts: bool)
  {
    function Get(a: nat): Page { if a < |pages| then pages[a] else Page(Blank, 0, 0) }

    function Put(a: nat, page: Page): Ring { if a < |pages| then this.(pages := pages[a := page]) else this }

    /** The header laid over page a: its fill bytes become the links. */
    function PutHeader(a: nat): Ring { Put(a, Page(HeaderRecord(), 0, 0)) }

    function HeaderRecord(): Record { Header(todoList, freeList, freeListEnd, todoListNum, freeListNum) }

    /** The count that FreeLog tests and reduces. */
    function Counter(): nat { if counts then todoListNum else freeListNum }

    function CounterReduced(): Ring {
      if counts then this.(todoListNum := Pred(todoListNum)) else this.(freeListNum := Pred(freeListNum))
    }

    function CountTaken(): Ring {
      if counts then this.(todoListNum := Succ(todoListNum), freeListNum := Pred(freeListNum)) else this
    }
  }

  // ---------------------------------------------------------------- the operations on values

  function FreshPage(i: nat, last: nat): Page {
    Page(Blank, if i == 0 then 0 else i - 1, if i == 0 || i >= last then 0 else i + 1)
  }

  /** The file of capacity kilobytes, all of it free. */
  function Init(capacity: nat, counts: bool): Ring
    requires 0 < capacity < MAX_CAPACITY
  {
    var last := 16 * capacity - 1;
    var num := if counts then last else 0;
    Ring(seq(last + 1, i requires 0 <= i =>
               if i == 0 then Page(Header(0, 1, last, 0, num), 0, 0) else FreshPage(i, last)),
         0, 1, last, 0, num, counts)
  }

  /** GetFreebody_ and the caller's writing of the page: the first free page gets the record, the next free page
      as its predecessor and the first page in use as its successor. */
  function Allocated(r: Ring, record: Record): Ring {
    var page := r.Get(r.freeList);
    var u := r.(freeList := page.nxt, todoList := r.freeList).CountTaken();
    u.PutHeader(0).Put(r.freeList, Stored(record, page.nxt, r.todoList))
  }

  /** FreeLog. It writes the header to page `header`, which is page 1 in the source. */
  function Freed(r: Ring, a: nat, header: nat): Ring { Enlisted(Unlinked(r, a), a, header) }

  /** The second half of FreeLog: page a becomes the last free page. */
  function Enlisted(u: Ring, a: nat, header: nat): Ring {
    var w := u.CounterReduced();
    var x := w.Put(w.freeListEnd, w.Get(w.freeListEnd).(nxt := a));
    var y := x.Put(a, Page(Blank, x.freeListEnd, 0)).(freeListEnd := a);
    y.(freeListNum := Succ(y.freeListNum)).PutHeader(header)
  }

  /** The first half of FreeLog: page a leaves the list of the pages in use. */
  function Unlinked(r: Ring, a: nat): Ring {
    var cur := r.Get(a);
    if r.todoList == a then
      if r.Counter() == 1 then r.(todoList := 0)
      else r.Put(cur.nxt, r.Get(cur.nxt).(pre := cur.pre)).(todoList := cur.nxt)
    else
      var u := r.Put(cur.nxt, r.Get(cur.nxt).(pre := cur.pre));
      u.Put(cur.pre, u.Get(cur.pre).(nxt := cur.nxt))
  }

  // ---------------------------------------------------------------- what the lists are meant to be

  /** Every page but the header is in exactly one of the two lists, once. */
  ghost predicate Partition(n: nat, todo: seq<nat>, free: seq<nat>) {
    && (forall i, j :: 0 <= i < j < |todo| ==> todo[i] != todo[j])
    && (forall i, j :: 0 <= i < j < |free| ==> free[i] != free[j])
    && (forall i, j :: 0 <= i < |todo| && 0 <= j < |free| ==> todo[i] != free[j])
    && forall p :: p in todo || p in free <==> 0 < p < n
  }

  /** Element i of a list, or the header's page at either end. */
  function At(s: seq<nat>, i: int): nat { if 0 <= i < |s| then s[i] else 0 }

  /** The pages in use are linked both ways. The first one names the first free page as its predecessor: the
      page that will come before it. */
  predicate TodoLink(pages: seq<Page>, todo: seq<nat>, next: nat, i: nat)
    requires i < |todo|
  {
    && todo[i] < |pages|
    && pages[todo[i]].nxt == At(todo, i + 1)
    && pages[todo[i]].pre == if i == 0 then next else todo[i - 1]
  }

  predicate TodoLinked(pages: seq<Page>, todo: seq<nat>, next: nat) {
    forall i :: 0 <= i < |todo| ==> TodoLink(pages, todo, next, i)
  }

  predicate FreeLink(pages: seq<Page>, free: seq<nat>, i: nat)
    requires i < |free|
  {
    free[i] < |pages| && pages[free[i]].nxt == At(free, i + 1)
  }

  predicate FreeLinked(pages: seq<Page>, free: seq<nat>) {
    forall i :: 0 <= i < |free| ==> FreeLink(pages, free, i)
  }

  /** The free pages are linked backwards too, though nothing reads these links. */
  predicate BackLink(pages: seq<Page>, free: seq<nat>, i: nat)
    requires 0 < i < |free|
  {
    free[i] < |pages| && pages[free[i]].pre == free[i - 1]
  }

  predicate BackLinked(pages: seq<Page>, free: seq<nat>) {
    forall i :: 0 < i < |free| ==> BackLink(pages, free, i)
  }

  /** The counts are the lengths of the lists, or zero if nothing maintains them. */
  predicate Tallied(r: Ring, todo: seq<nat>, free: seq<nat>) {
    && r.todoListNum == (if r.counts then |todo| else 0)
    && r.freeListNum == (if r.counts then |free| else 0)
  }

  /** The two lists of a ring in order, with at least one page free. */
  ghost predicate Linked(r: Ring, todo: seq<nat>, free: seq<nat>) {
    && Partition(|r.pages|, todo, free)
    && |free| > 0 && r.freeList == free[0] && r.freeListEnd == free[|free| - 1]
    && r.todoList == At(todo, 0)
    && TodoLinked(r.pages, todo, free[0]) && FreeLinked(r.pages, free)
    && PAGE * |r.pages| < UINT64 && Tallied(r, todo, free)
  }

  /** The log as its users see it: the records that are kept, by address. */
  function Records(r: Ring, todo: seq<nat>): map<nat, Record>
    requires forall p <- todo :: p < |r.pages|
  {
    map p | p in todo :: r.pages[p].record
  }

  lemma InRange(r: Ring, todo: seq<nat>, free: seq<nat>)
    requires Linked(r, todo, free)
    ensures forall p <- todo :: 0 < p < |r.pages|
    ensures forall p <- free :: 0 < p < |r.pages|
  {}

  // ---------------------------------------------------------------- initialisation

  function Upto(n: nat): seq<nat> { seq(n, i requires 0 <= i => i + 1) }

  lemma InitLinked(capacity: nat, counts: bool)
    requires 0 < capacity < MAX_CAPACITY
    ensures Linked(Init(capacity, counts), [], Upto(16 * capacity - 1))
    ensures |Init(capacity, counts).pages| == 16 * capacity
  {
    var free := Upto(16 * capacity - 1);
    forall p | 0 < p < 16 * capacity ensures p in free { assert free[p - 1] == p; }
  }

  lemma Distinct(s: seq<nat>) returns (all: set<nat>)
    requires forall i, j :: 0 <= i < j < |s| ==> s[i] != s[j]
    ensures |all| == |s| && forall p :: p in all <==> p in s
  {
    if s == [] {
      all := {};
    } else {
      all := Distinct(s[1..]);
      all := all + {s[0]};
    }
  }

  lemma Below(n: nat) returns (all: set<nat>)
    ensures |all| == n && forall p :: p in all <==> 0 < p <= n
  {
    if n == 0 {
      all := {};
    } else {
      all := Below(n - 1);
      all := all + {n};
    }
  }

  /** The two lists together have as many elements as there are pages besides the header. */
  lemma PartitionSize(n: nat, todo: seq<nat>, free: seq<nat>)
    requires n > 0 && Partition(n, todo, free)
    ensures |todo| + |free| == n - 1
  {
    var a := Distinct(todo);
    var b := Distinct(free);
    var c := Below(n - 1);
    assert a !! b && a + b == c;
  }

  // ---------------------------------------------------------------- allocation

  lemma AllocatedPartition(n: nat, todo: seq<nat>, free: seq<nat>)
    requires Partition(n, todo, free) && |free| > 0
    ensures Partition(n, [free[0]] + todo, free[1..])
  {
    var todo', free' := [free[0]] + todo, free[1..];
    forall p ensures p in todo' || p in free' <==> 0 < p < n {
      assert p in free <==> p == free[0] || p in free';
      assert p in todo' <==> p == free[0] || p in todo;
    }
  }

  lemma AllocatedPages(r: Ring, record: Record, p: nat)
    requires 0 < r.freeList < |r.pages| && p < |r.pages|
    ensures |Allocated(r, record).pages| == |r.pages|
    ensures p == r.freeList ==> Allocated(r, record).pages[p] == Stored(record, r.pages[p].nxt, r.todoList)
    ensures p != r.freeList && p > 0 ==> Allocated(r, record).pages[p] == r.pages[p]
  {}

  lemma AllocatedTally(r: Ring, record: Record, todo: seq<nat>, free: seq<nat>)
    requires Linked(r, todo, free) && 0 < r.freeList < |r.pages|
    ensures Tallied(Allocated(r, record), [free[0]] + todo, free[1..])
  {
    hide Stored, TodoLinked, FreeLinked, Partition;
    PartitionSize(|r.pages|, todo, free);
  }

  /** Copying the names into the next page would leave its links as they are meant to be. */
  predicate Undamaged(record: Record, todo: seq<nat>, free: seq<nat>) {
    Stored(record, At(free, 1), At(todo, 0)) == Page(record, At(free, 1), At(todo, 0))
  }

  lemma FitsIsUndamaged(r: Ring, record: Record, todo: seq<nat>, free: seq<nat>)
    requires Linked(r, todo, free) && Fits(record)
    ensures Undamaged(record, todo, free)
  {
    hide Stored;
    InRange(r, todo, free);
    if |free| > 1 { assert free[1] in free; }
    if |todo| > 0 { assert todo[0] in todo; }
    assert free[0] in free;
    StoredFits(record, At(free, 1), At(todo, 0));
  }

  /** While two pages are free and the names do no damage, allocation moves the first free page to the front of the
      pages in use: both lists stay linked, and exactly the new record is added, at an address that held none. */
  lemma AllocatedLinked(r: Ring, record: Record, todo: seq<nat>, free: seq<nat>)
    requires Linked(r, todo, free) && |free| > 1 && Undamaged(record, todo, free)
    ensures Linked(Allocated(r, record), [free[0]] + todo, free[1..])
    ensures free[0] !in todo
    ensures (InRange(r, todo, free); InRange(Allocated(r, record), [free[0]] + todo, free[1..]);
             Records(Allocated(r, record), [free[0]] + todo) == Records(r, todo)[free[0] := record])
  {
    hide Stored;
    var r', todo', free' := Allocated(r, record), [free[0]] + todo, free[1..];
    AllocatedPartition(|r.pages|, todo, free);
    InRange(r, todo, free);
    assert free[0] in free && free[1] in free && FreeLink(r.pages, free, 0);
    AllocatedPages(r, record, free[0]);
    AllocatedTally(r, record, todo, free);
    AllocatedTodo(r, record, todo, free);
    AllocatedFree(r, record, todo, free);
    forall p <- todo ensures r'.pages[p].record == r.pages[p].record { AllocatedPages(r, record, p); }
  }

  lemma AllocatedTodo(r: Ring, record: Record, todo: seq<nat>, free: seq<nat>)
    requires Linked(r, todo, free) && |free| > 1 && Undamaged(record, todo, free)
    ensures TodoLinked(Allocated(r, record).pages, [free[0]] + todo, free[1])
  {
    hide Allocated, Stored;
    var r', todo' := Allocated(r, record), [free[0]] + todo;
    InRange(r, todo, free);
    assert free[0] in free;
    assert FreeLink(r.pages, free, 0);
    forall i | 0 <= i < |todo'| ensures TodoLink(r'.pages, todo', free[1], i) {
      if i > 0 { assert todo'[i] == todo[i - 1] && todo[i - 1] in todo && TodoLink(r.pages, todo, free[0], i - 1); }
      AllocatedPages(r, record, todo'[i]);
    }
  }

  lemma AllocatedFree(r: Ring, record: Record, todo: seq<nat>, free: seq<nat>)
    requires Linked(r, todo, free) && |free| > 1
    ensures FreeLinked(Allocated(r, record).pages, free[1..])
  {
    hide Allocated;
    var r', free' := Allocated(r, record), free[1..];
    InRange(r, todo, free);
    assert free[0] in free;
    forall i | 0 <= i < |free'| ensures FreeLink(r'.pages, free', i) {
      assert free'[i] == free[i + 1] && free[i + 1] in free && FreeLink(r.pages, free, i + 1);
      AllocatedPages(r, record, free'[i]);
    }
  }

  /** After any allocation the free list can only be what is left of the old one. */
  lemma {:induction false} FreeIsForced(r: Ring, record: Record, todo: seq<nat>, free: seq<nat>,
                                        todo': seq<nat>, free': seq<nat>, i: nat)
    requires Linked(r, todo, free) && |free| > 1 && Linked(Allocated(r, record), todo', free')
    requires i < |free| - 1
    ensures i < |free'| && free'[i] == free[i + 1]
  {
    hide Allocated, Stored, TodoLinked, Partition, At;
    InRange(r, todo, free);
    HeaderAfter(r, record, todo, free);
    if i > 0 {
      FreeIsForced(r, record, todo, free, todo', free', i - 1);
      assert FreeLink(r.pages, free, i) && FreeLink(Allocated(r, record).pages, free', i - 1);
      NotFirst(r, todo, free, i);
      AllocatedPages(r, record, free[i]);
      AtIsListed(r, todo, free, i + 1);
      AtPositive(free', i);
    }
  }

  lemma AtPositive(s: seq<nat>, i: nat)
    requires At(s, i) > 0
    ensures i < |s| && At(s, i) == s[i]
  {}

  lemma HeaderAfter(r: Ring, record: Record, todo: seq<nat>, free: seq<nat>)
    requires Linked(r, todo, free) && |free| > 1
    ensures 0 < r.freeList < |r.pages|
    ensures var r' := Allocated(r, record);
            |r'.pages| == |r.pages| && r'.freeList == free[1] && r'.todoList == free[0] > 0
  {
    InRange(r, todo, free);
    assert free[0] in free && FreeLink(r.pages, free, 0);
  }

  lemma NotFirst(r: Ring, todo: seq<nat>, free: seq<nat>, i: nat)
    requires Linked(r, todo, free) && 0 < i < |free|
    ensures free[i] != r.freeList && 0 < free[i] < |r.pages|
  {
    InRange(r, todo, free);
    assert free[i] in free;
  }

  lemma AtIsListed(r: Ring, todo: seq<nat>, free: seq<nat>, i: nat)
    requires Linked(r, todo, free)
    ensures i < |free| ==> At(free, i) == free[i] > 0
  {
    InRange(r, todo, free);
    if i < |free| { assert free[i] in free; }
  }

  lemma FreeIsRest(r: Ring, record: Record, todo: seq<nat>, free: seq<nat>, todo': seq<nat>, free': seq<nat>)
    requires Linked(r, todo, free) && |free| > 1 && Linked(Allocated(r, record), todo', free')
    ensures free' == free[1..]
  {
    hide Allocated, Stored, TodoLinked, Partition;
    forall i | 0 <= i < |free| - 1 ensures i < |free'| && free'[i] == free[i + 1] {
      FreeIsForced(r, record, todo, free, todo', free', i);
    }
    var n := |free| - 1;
    FreeIsForced(r, record, todo, free, todo', free', n - 1);
    HeaderAfter(r, record, todo, free);
    NotFirst(r, todo, free, n);
    AllocatedPages(r, record, free[n]);
    assert FreeLink(r.pages, free, n) && FreeLink(Allocated(r, record).pages, free', n - 1);
    AtIsListed(Allocated(r, record), todo', free', n);
  }

  /** After any allocation the list in use can only begin with the new page and the old first one. */
  lemma SecondIsForced(r: Ring, record: Record, todo: seq<nat>, free: seq<nat>, todo': seq<nat>, free': seq<nat>)
    requires Linked(r, todo, free) && |free| > 1 && Linked(Allocated(r, record), todo', free')
    ensures |todo'| > 0 && todo'[0] == free[0] && At(todo', 1) == At(todo, 0)
  {
    hide Allocated, Stored, TodoLinked, FreeLinked;
    var r' := Allocated(r, record);
    HeaderAfter(r, record, todo, free);
    FreeIsRest(r, record, todo, free, todo', free');
    assert free == [free[0]] + free[1..];
    if todo == [] {
      forall i | 0 <= i < |todo'| ensures todo'[i] == free[0] {
        assert todo'[i] in todo' && todo'[i] !in free' && todo'[i] in free;
      }
      AllAlike(todo', free[0]);
    } else {
      OldFirstIsSecond(r, record, todo, free, todo', free');
    }
  }

  lemma AllAlike(s: seq<nat>, p: nat)
    requires forall i :: 0 <= i < |s| ==> s[i] == p
    ensures |s| > 1 ==> s[0] == s[1]
  {}

  lemma OldFirstIsSecond(r: Ring, record: Record, todo: seq<nat>, free: seq<nat>, todo': seq<nat>, free': seq<nat>)
    requires Linked(r, todo, free) && |free| > 1 && Linked(Allocated(r, record), todo', free') && todo != []
    requires free' == free[1..] && |todo'| > 0 && todo'[0] == free[0]
    ensures |todo'| > 1 && todo'[1] == todo[0]
  {
    hide Allocated, Stored;
    var r' := Allocated(r, record);
    HeaderAfter(r, record, todo, free);
    InRange(r, todo, free);
    assert todo[0] in todo && todo[0] !in free';
    var i :| 0 <= i < |todo'| && todo'[i] == todo[0];
    AllocatedPages(r, record, todo[0]);
    assert TodoLink(r.pages, todo, free[0], 0) && TodoLink(r'.pages, todo', free'[0], i);
  }

  /** Allocation leaves two sound lists exactly if a second page was free and the names do not run over the links.
      The last free page must not be given away: then the header names page 0 as the first free one. */
  lemma AllocatedLinkedIff(r: Ring, record: Record, todo: seq<nat>, free: seq<nat>)
    requires Linked(r, todo, free)
    ensures (exists todo', free' :: Linked(Allocated(r, record), todo', free'))
       <==> |free| > 1 && Undamaged(record, todo, free)
  {
    hide Stored, TodoLinked, FreeLinked;
    var r' := Allocated(r, record);
    if |free| > 1 && Undamaged(record, todo, free) {
      AllocatedLinked(r, record, todo, free);
    } else {
      forall todo', free' ensures !Linked(r', todo', free') {
        if Linked(r', todo', free') { OnlyIfUndamaged(r, record, todo, free, todo', free'); }
      }
    }
  }

  lemma OnlyIfUndamaged(r: Ring, record: Record, todo: seq<nat>, free: seq<nat>, todo': seq<nat>, free': seq<nat>)
    requires Linked(r, todo, free) && Linked(Allocated(r, record), todo', free')
    ensures |free| > 1 && Undamaged(record, todo, free)
  {
    hide Stored;
    var r' := Allocated(r, record);
    InRange(r, todo, free);
    InRange(r', todo', free');
    assert FreeLink(r.pages, free, 0) && free'[0] in free' && free[0] in free;
    FreeIsRest(r, record, todo, free, todo', free');
    SecondIsForced(r, record, todo, free, todo', free');
    AllocatedPages(r, record, free[0]);
    assert TodoLink(r'.pages, todo', free'[0], 0);
  }

  // ---------------------------------------------------------------- release

  function Without(s: seq<nat>, j: nat): seq<nat>
    requires j < |s|
  {
    s[..j] + s[j + 1..]
  }

  lemma FreedPartition(n: nat, todo: seq<nat>, free: seq<nat>, j: nat)
    requires Partition(n, todo, free) && j < |todo|
    ensures Partition(n, Without(todo, j), free + [todo[j]])
  {
    var todo', free' := Without(todo, j), free + [todo[j]];
    forall p ensures p in todo' || p in free' <==> 0 < p < n {
      assert p in todo' <==> p in todo[..j] || p in todo[j + 1..];
      assert p in todo <==> p in todo' || p == todo[j] by {
        assert todo == todo[..j] + [todo[j]] + todo[j + 1..];
      }
      assert p in free' <==> p in free || p == todo[j];
    }
  }

  /** What leaving the list does to the pages: the predecessor gets the successor's address and the reverse. */
  lemma UnlinkedPages(r: Ring, a: nat, p: nat)
    requires a < |r.pages| && p < |r.pages|
    requires if r.todoList == a then r.Counter() == 1 ==> r.pages[a].nxt == 0
             else r.pages[a].pre != r.pages[a].nxt
    ensures var u, cur := Unlinked(r, a), r.pages[a];
            && |u.pages| == |r.pages| && u.pages[p].record == r.pages[p].record
            && u.pages[p].nxt == (if r.todoList != a && p == cur.pre then cur.nxt else r.pages[p].nxt)
            && (p > 0 ==> u.pages[p].pre == (if p == cur.nxt then cur.pre else r.pages[p].pre))
            && u == r.(pages := u.pages, todoList := if r.todoList == a then cur.nxt else r.todoList)
  {}

  /** A page and its neighbours are three pages, or the neighbour is the header's. */
  lemma Neighbours(r: Ring, todo: seq<nat>, free: seq<nat>, j: nat)
    requires Linked(r, todo, free) && j < |todo|
    ensures todo[j] < |r.pages| && (r.todoList == todo[j] <==> j == 0)
    ensures j > 0 ==> r.pages[todo[j]].pre != r.pages[todo[j]].nxt
    ensures At(todo, j + 1) < |r.pages| && At(todo, j + 1) !in free
    ensures At(todo, j + 1) != todo[j] && (j > 0 ==> todo[j - 1] !in free)
    ensures r.pages[todo[j]].nxt == At(todo, j + 1)
    ensures j == 0 && r.Counter() == 1 ==> r.pages[todo[j]].nxt == 0
    ensures r.pages[todo[j]].nxt < |r.pages| && (j > 0 ==> r.pages[todo[j]].pre < |r.pages|)
  {
    InRange(r, todo, free);
    assert TodoLink(r.pages, todo, free[0], j);
    if j > 0 { assert todo[0] != todo[j] && todo[j - 1] in todo; }
    if j + 1 < |todo| { assert todo[j + 1] in todo; }
  }

  lemma UnlinkedTodo(r: Ring, todo: seq<nat>, free: seq<nat>, j: nat)
    requires Linked(r, todo, free) && j < |todo|
    ensures TodoLinked(Unlinked(r, todo[j]).pages, Without(todo, j), free[0])
    ensures Unlinked(r, todo[j]).todoList == At(Without(todo, j), 0)
  {
    hide Unlinked;
    InRange(r, todo, free);
    Neighbours(r, todo, free, j);
    UnlinkedPages(r, todo[j], 0);
    var u, todo' := Unlinked(r, todo[j]), Without(todo, j);
    assert TodoLink(r.pages, todo, free[0], j);
    forall i | 0 <= i < |todo'| ensures TodoLink(u.pages, todo', free[0], i) {
      var k := if i < j then i else i + 1;
      assert todo'[i] == todo[k] && todo[k] in todo && TodoLink(r.pages, todo, free[0], k);
      UnlinkedPages(r, todo[j], todo[k]);
      if j + 1 < |todo| { assert k != j + 1 ==> todo[k] != todo[j + 1]; }
      if j > 0 { assert k != j - 1 ==> todo[k] != todo[j - 1]; }
    }
  }

  lemma UnlinkedFree(r: Ring, todo: seq<nat>, free: seq<nat>, j: nat)
    requires Linked(r, todo, free) && j < |todo|
    ensures FreeLinked(Unlinked(r, todo[j]).pages, free)
  {
    hide Unlinked;
    InRange(r, todo, free);
    Neighbours(r, todo, free, j);
    var u := Unlinked(r, todo[j]);
    assert TodoLink(r.pages, todo, free[0], j);
    forall i | 0 <= i < |free| ensures FreeLink(u.pages, free, i) {
      assert free[i] in free && FreeLink(r.pages, free, i);
      UnlinkedPages(r, todo[j], free[i]);
    }
  }

  /** The second half of FreeLog: page a becomes the last free page. */
  lemma FreedPages(r: Ring, a: nat, header: nat, p: nat)
    requires var u := Unlinked(r, a); |u.pages| == |r.pages| && u.freeListEnd != a
    requires var u := Unlinked(r, a); p < |u.pages| && a < |u.pages| && u.freeListEnd < |u.pages| && header < |u.pages|
    ensures var u, f := Unlinked(r, a), Freed(r, a, header);
            && |f.pages| == |u.pages|
            && f == u.CounterReduced().(pages := f.pages, freeListEnd := a,
                                        freeListNum := Succ(u.CounterReduced().freeListNum))
            && f.pages[p] == if p == header then Page(f.HeaderRecord(), 0, 0)
                             else if p == a then Page(Blank, u.freeListEnd, 0)
                             else if p == u.freeListEnd then u.pages[p].(nxt := a)
                             else u.pages[p]
  {
    hide Unlinked;
  }

  lemma FreedTodo(r: Ring, todo: seq<nat>, free: seq<nat>, j: nat, header: nat, i: nat)
    requires Linked(r, todo, free) && j < |todo| && (header == 0 || header == todo[j])
    requires i < |todo| - 1
    ensures var u, f := Unlinked(r, todo[j]), Freed(r, todo[j], header);
            && Without(todo, j)[i] < |r.pages| == |u.pages| == |f.pages|
            && f.pages[Without(todo, j)[i]] == u.pages[Without(todo, j)[i]]
            && u.pages[Without(todo, j)[i]].record == r.pages[Without(todo, j)[i]].record
  {
    hide Freed, Unlinked;
    InRange(r, todo, free);
    Neighbours(r, todo, free, j);
    var k := if i < j then i else i + 1;
    assert Without(todo, j)[i] == todo[k] && todo[k] in todo && todo[j] in todo;
    assert free[|free| - 1] in free && todo[k] != todo[j];
    UnlinkedPages(r, todo[j], todo[k]);
    FreedPages(r, todo[j], header, todo[k]);
  }

  lemma FreedFree(r: Ring, todo: seq<nat>, free: seq<nat>, j: nat, header: nat, i: nat)
    requires Linked(r, todo, free) && j < |todo| && (header == 0 || header == todo[j])
    requires i <= |free|
    ensures FreeLink(Freed(r, todo[j], header).pages, free + [todo[j]], i)
  {
    hide Freed, Unlinked, FreeLinked, TodoLinked;
    var free' := free + [todo[j]];
    InRange(r, todo, free);
    Neighbours(r, todo, free, j);
    UnlinkedFree(r, todo, free, j);
    assert todo[j] in todo && free[|free| - 1] in free;
    UnlinkedPages(r, todo[j], 0);
    assert free'[i] == if i < |free| then free[i] else todo[j];
    if i < |free| { assert free[i] in free; }
    FreedPages(r, todo[j], header, free'[i]);
    if i < |free| {
      assert FreeLink(Unlinked(r, todo[j]).pages, free, i) by { AllFreeLinks(Unlinked(r, todo[j]).pages, free, i); }
    }
  }

  lemma AllFreeLinks(pages: seq<Page>, free: seq<nat>, i: nat)
    requires FreeLinked(pages, free) && i < |free|
    ensures FreeLink(pages, free, i)
  {}

  lemma FreedTally(r: Ring, todo: seq<nat>, free: seq<nat>, j: nat, header: nat)
    requires Linked(r, todo, free) && j < |todo|
    requires var u, f := Unlinked(r, todo[j]), Freed(r, todo[j], header);
             && u.counts == r.counts && u.todoListNum == r.todoListNum && u.freeListNum == r.freeListNum
             && f == u.CounterReduced().(pages := f.pages, freeListEnd := todo[j],
                                         freeListNum := Succ(u.CounterReduced().freeListNum))
    ensures Tallied(Freed(r, todo[j], header), Without(todo, j), free + [todo[j]])
  {
    hide Freed, Unlinked;
    InRange(r, todo, free);
    assert free[0] in free;
    PartitionSize(|r.pages|, todo, free);
  }

  lemma FreedLists(r: Ring, todo: seq<nat>, free: seq<nat>, j: nat, header: nat)
    requires Linked(r, todo, free) && j < |todo| && (header == 0 || header == todo[j])
    ensures Linked(Freed(r, todo[j], header), Without(todo, j), free + [todo[j]])
  {
    hide Freed, Unlinked, FreeLink, TodoLink;
    var a, todo', free' := todo[j], Without(todo, j), free + [todo[j]];
    var u, f := Unlinked(r, a), Freed(r, a, header);
    InRange(r, todo, free);
    Neighbours(r, todo, free, j);
    assert todo[j] in todo && free[|free| - 1] in free;
    UnlinkedPages(r, a, 0);
    FreedPages(r, a, header, 0);
    FreedTally(r, todo, free, j, header);
    UnlinkedTodo(r, todo, free, j);
    FreedPartition(|r.pages|, todo, free, j);
    forall i | 0 <= i < |todo'| ensures TodoLink(f.pages, todo', free'[0], i) {
      FreedTodo(r, todo, free, j, header, i);
      SameLink(u.pages, f.pages, todo', free[0], i);
    }
    forall i | 0 <= i < |free'| ensures FreeLink(f.pages, free', i) { FreedFree(r, todo, free, j, header, i); }
  }

  /** FreeLog, if it writes the header where the header is or over the page that it frees: the page moves to
      the end of the free list, both lists stay linked, and exactly its record goes. */
  lemma FreedLinked(r: Ring, todo: seq<nat>, free: seq<nat>, j: nat, header: nat)
    requires Linked(r, todo, free) && j < |todo| && (header == 0 || header == todo[j])
    ensures Linked(Freed(r, todo[j], header), Without(todo, j), free + [todo[j]])
    ensures (InRange(r, todo, free); InRange(Freed(r, todo[j], header), Without(todo, j), free + [todo[j]]);
             Records(Freed(r, todo[j], header), Without(todo, j)) == Records(r, todo) - {todo[j]})
  {
    hide Freed, Unlinked, TodoLinked, FreeLinked;
    var a, todo', free' := todo[j], Without(todo, j), free + [todo[j]];
    var f := Freed(r, a, header);
    FreedLists(r, todo, free, j, header);
    InRange(r, todo, free);
    InRange(f, todo', free');
    forall p ensures p in todo' <==> p in todo && p != a {
      assert p in free' <==> p in free || p == a;
      assert p in todo ==> p !in free;
    }
    forall p | p in todo' ensures f.pages[p].record == r.pages[p].record {
      var i :| 0 <= i < |todo'| && todo'[i] == p;
      FreedTodo(r, todo, free, j, header, i);
    }
  }

  lemma SameLink(pages: seq<Page>, pages': seq<Page>, todo: seq<nat>, next: nat, i: nat)
    requires i < |todo| && TodoLink(pages, todo, next, i)
    requires |pages| == |pages'| && pages'[todo[i]] == pages[todo[i]]
    ensures TodoLink(pages', todo, next, i)
  {}

  /** FreeLog as written lays the header over page 1. Page 1 then names no page before it and no page after it,
      which is right only for the last free page. So the two lists survive exactly if page 1 is the page freed. */
  lemma FreedAsWrittenIff(r: Ring, todo: seq<nat>, free: seq<nat>, j: nat)
    requires Linked(r, todo, free) && j < |todo|
    ensures (exists todo', free' :: Linked(Freed(r, todo[j], 1), todo', free')) <==> todo[j] == 1
  {
    if todo[j] == 1 {
      FreedLinked(r, todo, free, j, 1);
    } else {
      FreedHeader(r, todo, free, j);
      var f := Freed(r, todo[j], 1);
      forall todo', free' ensures !Linked(f, todo', free') {
        if Linked(f, todo', free') { PageOneIsLost(f, todo', free'); }
      }
    }
  }

  lemma FreedHeader(r: Ring, todo: seq<nat>, free: seq<nat>, j: nat)
    requires Linked(r, todo, free) && j < |todo|
    ensures var f := Freed(r, todo[j], 1);
            |f.pages| > 1 && f.pages[1].pre == 0 && f.pages[1].nxt == 0 && f.freeListEnd == todo[j]
  {
    hide Freed, Unlinked, TodoLinked, FreeLinked;
    InRange(r, todo, free);
    Neighbours(r, todo, free, j);
    assert todo[j] in todo && free[|free| - 1] in free;
    UnlinkedPages(r, todo[j], 0);
    FreedPages(r, todo[j], 1, 1);
  }

  lemma TodoNamesBefore(r: Ring, todo: seq<nat>, free: seq<nat>, i: nat)
    requires Linked(r, todo, free) && i < |todo|
    ensures todo[i] < |r.pages| && r.pages[todo[i]].pre > 0
  {
    InRange(r, todo, free);
    assert TodoLink(r.pages, todo, free[0], i);
    assert if i > 0 then todo[i - 1] in todo else free[0] in free;
  }

  lemma FreeNamesAfter(r: Ring, todo: seq<nat>, free: seq<nat>, i: nat)
    requires Linked(r, todo, free) && i < |free| - 1
    ensures free[i] < |r.pages| && r.pages[free[i]].nxt > 0
  {
    InRange(r, todo, free);
    assert FreeLink(r.pages, free, i);
    assert free[i + 1] in free;
  }

  lemma PageOneIsLost(r: Ring, todo: seq<nat>, free: seq<nat>)
    requires Linked(r, todo, free) && |r.pages| > 1 && r.pages[1].pre == 0 && r.pages[1].nxt == 0
    ensures r.freeListEnd == 1
  {
    hide TodoLinked, FreeLinked;
    assert 1 !in todo by {
      forall i | 0 <= i < |todo| ensures todo[i] != 1 { TodoNamesBefore(r, todo, free, i); }
    }
    forall i | 0 <= i < |free| - 1 ensures free[i] != 1 { FreeNamesAfter(r, todo, free, i); }
    assert 1 in free;
  }

  // ---------------------------------------------------------------- runs

  datatype Op = Write(record: Record) | Free(a: nat)

  /** What the two lists do: pages leave the free list at the front and join it at the end, join the other list
      at the front and leave it anywhere. */
  datatype Lists = Lists(todo: seq<nat>, free: seq<nat>, records: map<nat, Record>)

  predicate Allowed(l: Lists, op: Op) {
    match op
    case Write(record) => |l.free| > 1 && Fits(record)
    case Free(a) => a in l.todo
  }

  function Position(s: seq<nat>, a: nat): (j: nat)
    requires a in s
    ensures j < |s| && s[j] == a
  {
    if s[0] == a then 0 else 1 + Position(s[1..], a)
  }

  function OnLists(l: Lists, op: Op): Lists
    requires Allowed(l, op)
  {
    match op
    case Write(record) => Lists([l.free[0]] + l.todo, l.free[1..], l.records[l.free[0] := record])
    case Free(a) => Lists(Without(l.todo, Position(l.todo, a)), l.free + [a], l.records - {a})
  }

  /** FreeLog with the header where it belongs. */
  function OnRing(r: Ring, op: Op): Ring {
    match op
    case Write(record) => Allocated(r, record)
    case Free(a) => Freed(r, a, 0)
  }

  predicate AllAllowed(l: Lists, ops: seq<Op>)
    decreases |ops|
  {
    ops != [] ==> Allowed(l, ops[0]) && AllAllowed(OnLists(l, ops[0]), ops[1..])
  }

  function ListsAfter(l: Lists, ops: seq<Op>): Lists
    requires AllAllowed(l, ops)
    decreases |ops|
  {
    if ops == [] then l else ListsAfter(OnLists(l, ops[0]), ops[1..])
  }

  function RingAfter(r: Ring, ops: seq<Op>): Ring
    decreases |ops|
  {
    if ops == [] then r else RingAfter(OnRing(r, ops[0]), ops[1..])
  }

  /** The pages hold the lists l and their records. */
  ghost predicate Holds(r: Ring, l: Lists) {
    && Linked(r, l.todo, l.free) && BackLinked(r.pages, l.free)
    && (InRange(r, l.todo, l.free); Records(r, l.todo) == l.records)
    && |r.pages| > 0 && r.pages[0].record == r.HeaderRecord()
  }

  lemma AllocatedBack(r: Ring, record: Record, todo: seq<nat>, free: seq<nat>)
    requires Linked(r, todo, free) && |free| > 1 && BackLinked(r.pages, free)
    ensures BackLinked(Allocated(r, record).pages, free[1..])
  {
    hide Allocated, Stored, TodoLinked, FreeLinked;
    InRange(r, todo, free);
    assert free[0] in free;
    forall i | 0 < i < |free[1..]| ensures BackLink(Allocated(r, record).pages, free[1..], i) {
      assert free[i + 1] in free && BackLink(r.pages, free, i + 1);
      AllocatedPages(r, record, free[i + 1]);
    }
  }

  lemma FreedBack(r: Ring, todo: seq<nat>, free: seq<nat>, j: nat)
    requires Linked(r, todo, free) && j < |todo| && BackLinked(r.pages, free)
    ensures BackLinked(Freed(r, todo[j], 0).pages, free + [todo[j]])
  {
    hide Freed, Unlinked, TodoLinked, FreeLinked;
    var a, free' := todo[j], free + [todo[j]];
    InRange(r, todo, free);
    Neighbours(r, todo, free, j);
    assert a in todo && free[|free| - 1] in free;
    UnlinkedPages(r, a, a);
    forall i | 0 < i < |free'| ensures BackLink(Freed(r, a, 0).pages, free', i) {
      if i < |free| {
        assert free[i] in free && BackLink(r.pages, free, i);
        UnlinkedPages(r, a, free[i]);
      }
      FreedPages(r, a, 0, free'[i]);
    }
  }

  lemma StepHolds(r: Ring, l: Lists, op: Op)
    requires Holds(r, l) && Allowed(l, op)
    ensures Holds(OnRing(r, op), OnLists(l, op))
  {
    match op
    case Write(record) =>
      FitsIsUndamaged(r, record, l.todo, l.free);
      AllocatedLinked(r, record, l.todo, l.free);
      AllocatedBack(r, record, l.todo, l.free);
    case Free(a) =>
      FreedLinked(r, l.todo, l.free, Position(l.todo, a), 0);
      FreedBack(r, l.todo, l.free, Position(l.todo, a));
  }

  /** Over every run of writing and freeing records in any order, as long as a page stays free: the file holds
      two linked lists that share out all the pages, and the records are those written and not yet freed. */
  lemma {:induction false} RunHolds(r: Ring, l: Lists, ops: seq<Op>)
    requires Holds(r, l) && AllAllowed(l, ops)
    ensures Holds(RingAfter(r, ops), ListsAfter(l, ops))
    decreases |ops|
  {
    hide Holds, OnRing, OnLists, Allowed;
    if ops != [] {
      StepHolds(r, l, ops[0]);
      RunHolds(OnRing(r, ops[0]), OnLists(l, ops[0]), ops[1..]);
    }
  }

  lemma RunFromInit(capacity: nat, counts: bool, ops: seq<Op>)
    requires 0 < capacity < MAX_CAPACITY && AllAllowed(Lists([], Upto(16 * capacity - 1), map[]), ops)
    ensures Holds(RingAfter(Init(capacity, counts), ops), ListsAfter(Lists([], Upto(16 * capacity - 1), map[]), ops))
  {
    InitLinked(capacity, counts);
    assert BackLinked(Init(capacity, counts).pages, Upto(16 * capacity - 1));
    RunHolds(Init(capacity, counts), Lists([], Upto(16 * capacity - 1), map[]), ops);
  }

  // ---------------------------------------------------------------- runs that fail

  predicate FittingWrites(ops: seq<Op>) {
    forall op <- ops :: op.Write? && Fits(op.record)
  }

  lemma {:induction false} WritesTake(l: Lists, ops: seq<Op>)
    requires FittingWrites(ops) && |ops| < |l.free|
    ensures AllAllowed(l, ops) && ListsAfter(l, ops).free == l.free[|ops|..]
    decreases |ops|
  {
    if ops != [] {
      assert ops[0] in ops;
      WritesTake(OnLists(l, ops[0]), ops[1..]);
      assert l.free[1..][|ops| - 1..] == l.free[|ops|..];
    }
  }

  /** A log of any size that is filled without freeing anything: all goes well until one page is left, and the next
      record, whatever it is, breaks the lists. */
  lemma FillingBreaks(capacity: nat, counts: bool, ops: seq<Op>, record: Record)
    requires 0 < capacity < MAX_CAPACITY && FittingWrites(ops) && |ops| == 16 * capacity - 2
    ensures var r := RingAfter(Init(capacity, counts), ops);
            && (exists todo, free :: Linked(r, todo, free))
            && !exists todo, free :: Linked(Allocated(r, record), todo, free)
  {
    hide Linked, RingAfter, ListsAfter, AllAllowed, Undamaged, Init;
    var start := Lists([], Upto(16 * capacity - 1), map[]);
    WritesTake(start, ops);
    RunFromInit(capacity, counts, ops);
    var l := ListsAfter(start, ops);
    assert Linked(RingAfter(Init(capacity, counts), ops), l.todo, l.free);
    AllocatedLinkedIff(RingAfter(Init(capacity, counts), ops), record, l.todo, l.free);
  }

  /** Two records are written to a new log and the second is freed, as FreeLog is written: the lists are broken. */
  lemma FreeingPageTwoBreaks(capacity: nat, counts: bool, a: Record, b: Record)
    requires 0 < capacity < MAX_CAPACITY && Fits(a) && Fits(b)
    ensures var r := Allocated(Allocated(Init(capacity, counts), a), b);
            && (exists todo, free :: Linked(r, todo, free)) && r.todoList == 2
            && !exists todo, free :: Linked(Freed(r, r.todoList, 1), todo, free)
  {
    hide Linked, Undamaged, Allocated, Freed, Init;
    var r0, free0 := Init(capacity, counts), Upto(16 * capacity - 1);
    InitLinked(capacity, counts);
    FitsIsUndamaged(r0, a, [], free0);
    AllocatedLinked(r0, a, [], free0);
    var r1, todo1, free1 := Allocated(r0, a), [free0[0]] + [], free0[1..];
    FitsIsUndamaged(r1, b, todo1, free1);
    AllocatedLinked(r1, b, todo1, free1);
    var r2, todo2, free2 := Allocated(r1, b), [free1[0]] + todo1, free1[1..];
    assert Linked(r2, todo2, free2);
    HandsOut(r2, todo2, free2);
    FreedAsWrittenIff(r2, todo2, free2, 0);
  }

  /** A file name of 13 bytes in the first record of a new log: its last byte lies over the link. */
  lemma ThirteenByteNameBreaks(capacity: nat, counts: bool)
    requires 0 < capacity < MAX_CAPACITY
    ensures !exists todo, free ::
              Linked(Allocated(Init(capacity, counts), Rollback(true, "u", "thirteen.file")), todo, free)
  {
    hide Linked, Allocated, Init, PageBytes.LinksAfter;
    var free := Upto(16 * capacity - 1);
    InitLinked(capacity, counts);
    PageBytes.LinkOverwritten(PageBytes.Links(PAGE * 2, 0), "u", "thirteen.file");
    AllocatedLinkedIff(Init(capacity, counts), Rollback(true, "u", "thirteen.file"), [], free);
  }

  // ---------------------------------------------------------------- the gap between taking a page and writing it

  /** What GetFreebody_ has done when it gives up the mutex: the page itself is written later. */
  function Taken(r: Ring): Ring {
    r.(freeList := r.Get(r.freeList).nxt, todoList := r.freeList).CountTaken().PutHeader(0)
  }

  /** A record whose page is written only after other operations. */
  function WrittenLate(r: Ring, record: Record, ops: seq<Op>): Ring {
    RingAfter(Taken(r), ops).Put(r.freeList, Stored(record, r.Get(r.freeList).nxt, r.todoList))
  }

  predicate Spares(ops: seq<Op>, a: nat, b: nat, c: nat) {
    forall op <- ops :: op.Free? ==> op.a != a && op.a != b && op.a != c
  }

  /** Two rings that differ at most in page a. */
  predicate Alike(r: Ring, r': Ring, a: nat) {
    0 < a < |r'.pages| == |r.pages| && r' == r.Put(a, r'.pages[a])
  }

  lemma AlikeWrite(r: Ring, r': Ring, a: nat, record: Record)
    requires Alike(r, r', a) && 0 < r.freeList < |r.pages| && r.freeList != a
    ensures Alike(Allocated(r, record), Allocated(r', record), a)
    ensures Allocated(r', record).pages[a] == r'.pages[a]
  {
    hide Stored;
  }

  lemma AlikeUnlink(r: Ring, r': Ring, a: nat, d: nat)
    requires Alike(r, r', a) && d < |r.pages| && d != a && r'.pages[d].nxt != a
    requires r'.todoList != d ==> r'.pages[d].pre != a
    ensures Alike(Unlinked(r, d), Unlinked(r', d), a) && Unlinked(r', d).pages[a] == r'.pages[a]
  {}

  lemma AlikeEnlist(u: Ring, u': Ring, a: nat, d: nat)
    requires Alike(u, u', a) && d != a && u'.freeListEnd != a
    ensures Alike(Enlisted(u, d, 0), Enlisted(u', d, 0), a) && Enlisted(u', d, 0).pages[a] == u'.pages[a]
  {}

  lemma EndKept(r: Ring, d: nat)
    ensures Unlinked(r, d).freeListEnd == r.freeListEnd
  {}

  /** A page that is freed names page a only if it is one of the neighbours of a. */
  lemma NotNextTo(r: Ring, todo: seq<nat>, free: seq<nat>, a: nat, d: nat)
    requires Linked(r, todo, free) && a in todo && d in todo && d != a
    requires a < |r.pages| && d != r.pages[a].nxt && d != r.pages[a].pre
    ensures d < |r.pages| && r.pages[d].nxt != a && (r.todoList != d ==> r.pages[d].pre != a)
    ensures r.freeListEnd != a > 0
  {
    InRange(r, todo, free);
    var i, j := Position(todo, a), Position(todo, d);
    assert TodoLink(r.pages, todo, free[0], i) && TodoLink(r.pages, todo, free[0], j);
    assert free[|free| - 1] in free;
  }

  lemma AlikeStep(r: Ring, r': Ring, l: Lists, op: Op, a: nat)
    requires Alike(r, r', a) && Linked(r', l.todo, l.free) && Allowed(l, op) && a in l.todo
    requires Spares([op], a, r'.pages[a].nxt, r'.pages[a].pre)
    ensures Alike(OnRing(r, op), OnRing(r', op), a) && OnRing(r', op).pages[a] == r'.pages[a]
  {
    hide Linked, Allocated, Unlinked, Enlisted, Alike;
    assert op in [op];
    SameShape(r, r', a);
    match op
    case Write(record) =>
      HandsOut(r', l.todo, l.free);
      AlikeWrite(r, r', a, record);
    case Free(d) =>
      NotNextTo(r', l.todo, l.free, a, d);
      AlikeUnlink(r, r', a, d);
      EndKept(r', d);
      AlikeEnlist(Unlinked(r, d), Unlinked(r', d), a, d);
  }

  lemma SameShape(r: Ring, r': Ring, a: nat)
    requires Alike(r, r', a)
    ensures 0 < a < |r.pages| == |r'.pages| && r.freeList == r'.freeList
  {}

  lemma {:induction false} AlikeRun(r: Ring, r': Ring, l: Lists, ops: seq<Op>, a: nat)
    requires Alike(r, r', a) && Holds(r', l) && AllAllowed(l, ops) && a in l.todo
    requires Spares(ops, a, r'.pages[a].nxt, r'.pages[a].pre)
    ensures Alike(RingAfter(r, ops), RingAfter(r', ops), a) && RingAfter(r', ops).pages[a] == r'.pages[a]
    decreases |ops|
  {
    hide Alike, Linked, OnRing;
    SameShape(r, r', a);
    if ops != [] {
      assert ops[0] in ops;
      AlikeStep(r, r', l, ops[0], a);
      SameShape(OnRing(r, ops[0]), OnRing(r', ops[0]), a);
      StepHolds(r', l, ops[0]);
      StaysListed(l, ops[0], a);
      AlikeRun(OnRing(r, ops[0]), OnRing(r', ops[0]), OnLists(l, ops[0]), ops[1..], a);
    }
  }

  lemma StaysListed(l: Lists, op: Op, a: nat)
    requires Allowed(l, op) && a in l.todo && (op.Free? ==> op.a != a)
    ensures a in OnLists(l, op).todo
  {
    if op.Free? {
      var j, k := Position(l.todo, op.a), Position(l.todo, a);
      assert Without(l.todo, j)[if k < j then k else k - 1] == a;
    } else {
      assert OnLists(l, op).todo[Position(l.todo, a) + 1] == a;
    }
  }

  /** A record whose page is written late is written as if at once, whatever runs in between, as long as the record
      before it and the record after it are not freed. */
  lemma LateIsPrompt(r: Ring, l: Lists, record: Record, ops: seq<Op>)
    requires Holds(r, l) && Allowed(l, Write(record)) && AllAllowed(OnLists(l, Write(record)), ops)
    requires Spares(ops, l.free[0], At(l.todo, 0), l.free[1])
    ensures WrittenLate(r, record, ops) == RingAfter(Allocated(r, record), ops)
  {
    hide Linked, Stored, RingAfter, AllAllowed, Allocated, Alike;
    var a, r', l' := l.free[0], Allocated(r, record), OnLists(l, Write(record));
    StepHolds(r, l, Write(record));
    FitsIsUndamaged(r, record, l.todo, l.free);
    HandsOut(r, l.todo, l.free);
    LateStart(r, record, l.todo, l.free);
    AlikeRun(Taken(r), r', l', ops, a);
    AlikeIs(RingAfter(Taken(r), ops), RingAfter(r', ops), a);
  }

  lemma AlikeIs(r: Ring, r': Ring, a: nat)
    requires Alike(r, r', a)
    ensures a < |r'.pages| && r' == r.Put(a, r'.pages[a])
  {}

  lemma LateStart(r: Ring, record: Record, todo: seq<nat>, free: seq<nat>)
    requires Linked(r, todo, free) && |free| > 1 && Undamaged(record, todo, free)
    ensures Alike(Taken(r), Allocated(r, record), free[0])
    ensures Allocated(r, record).pages[free[0]] == Page(record, free[1], At(todo, 0))
            == Stored(record, r.Get(r.freeList).nxt, r.todoList)
  {
    hide Linked, Stored;
    HandsOut(r, todo, free);
  }

  /** If one operation runs in between, the lists are sound afterwards if and only if it did not free the newest
      record. */
  lemma LateWriteIff(r: Ring, l: Lists, record: Record, op: Op)
    requires Holds(r, l) && Allowed(l, Write(record)) && Allowed(OnLists(l, Write(record)), op)
    requires op.Free? ==> op.a in l.todo
    ensures (exists todo, free :: Linked(WrittenLate(r, record, [op]), todo, free))
       <==> !(l.todo != [] && op == Free(l.todo[0]))
  {
    hide Linked, Stored, Allocated, Unlinked, Enlisted;
    var r', l' := Allocated(r, record), OnLists(l, Write(record));
    StepHolds(r, l, Write(record));
    if l.todo != [] && op == Free(l.todo[0]) {
      var late := WrittenLate(r, record, [op]);
      NewestFreed(r, l, record);
      forall todo, free ensures !Linked(late, todo, free) {
        if Linked(late, todo, free) { EndIsNotSecond(late, todo, free); }
      }
    } else {
      OthersSpared(r, l, op);
      assert AllAllowed(l', [op]);
      LateIsPrompt(r, l, record, [op]);
      StepHolds(r', l', op);
      assert RingAfter(r', [op]) == OnRing(r', op);
    }
  }

  lemma OthersSpared(r: Ring, l: Lists, op: Op)
    requires Linked(r, l.todo, l.free) && |l.free| > 1 && (op.Free? ==> op.a in l.todo)
    requires !(l.todo != [] && op == Free(l.todo[0]))
    ensures Spares([op], l.free[0], At(l.todo, 0), l.free[1])
  {}

  lemma NewestFreed(r: Ring, l: Lists, record: Record)
    requires Linked(r, l.todo, l.free) && |l.free| > 1 && l.todo != [] && Fits(record)
    ensures var late := WrittenLate(r, record, [Free(l.todo[0])]);
            && 0 < late.todoList < |late.pages| && late.pages[late.todoList].nxt == late.freeListEnd > 0
  {
    hide Linked, Stored;
    FitsIsUndamaged(r, record, l.todo, l.free);
    HandsOut(r, l.todo, l.free);
    FirstFree(r, l.todo, l.free);
    assert l.todo[0] in l.todo;
    assert RingAfter(Taken(r), [Free(l.todo[0])]) == Freed(Taken(r), l.todo[0], 0);
  }

  lemma EndIsNotSecond(r: Ring, todo: seq<nat>, free: seq<nat>)
    requires Linked(r, todo, free) && 0 < r.todoList < |r.pages|
    ensures r.pages[r.todoList].nxt != r.freeListEnd
  {
    InRange(r, todo, free);
    assert TodoLink(r.pages, todo, free[0], 0);
    assert free[|free| - 1] in free;
  }

  // ---------------------------------------------------------------- the log as the program has it

  class RingLog {
    var file: array<Page>
    var todoList: nat
    var freeList: nat
    var freeListEnd: nat
    var todoListNum: nat
    var freeListNum: nat
    const counts: bool
    ghost var todo: seq<nat>
    ghost var free: seq<nat>

    ghost function View(): Ring
      reads this, file
    {
      Ring(file[..], todoList, freeList, freeListEnd, todoListNum, freeListNum, counts)
    }

    ghost predicate Valid()
      reads this, file
    {
      Linked(View(), todo, free)
    }

    /** The records in the log, by address. */
    ghost function Log(): map<nat, Record>
      requires Valid()
      reads this, file
    {
      InRange(View(), todo, free);
      Records(View(), todo)
    }

    /** InitLogFile_ on the empty file. */
    constructor (capacity: nat, counts: bool)
      requires 0 < capacity < MAX_CAPACITY
      ensures Valid() && fresh(file) && View() == Init(capacity, counts)
      ensures Log() == map[] && |free| == 16 * capacity - 1
    {
      this.counts := counts;
      file := new Page[16 * capacity](i => Page(Blank, 0, 0));
      todoList, freeList, freeListEnd := 0, 1, 16 * capacity - 1;
      todoListNum, freeListNum := 0, if counts then 16 * capacity - 1 else 0;
      todo, free := [], Upto(16 * capacity - 1);
      new;
      WriteHeader(0);
      var last := 16 * capacity - 1;
      for i := 1 to last + 1
        invariant file.Length == last + 1 && fresh(file)
        invariant View() == Init(capacity, counts).(pages := file[..])
        invariant file[0] == Init(capacity, counts).pages[0]
        invariant forall k :: 0 < k < i ==> file[k] == FreshPage(k, last)
        invariant todo == [] && free == Upto(last)
      {
        WritePage(i, Page(Blank, if i == 1 then 0 else i - 1, if i == last then 0 else i + 1));
      }
      assert file[..] == Init(capacity, counts).pages;
      InitLinked(capacity, counts);
    }

    method WriteHeader(a: nat)
      requires a < file.Length
      modifies file
      ensures View() == old(View()).PutHeader(a)
    {
      WritePage(a, Page(Header(todoList, freeList, freeListEnd, todoListNum, freeListNum), 0, 0));
    }

    method WritePage(a: nat, page: Page)
      requires a < file.Length
      modifies file
      ensures file[..] == old(file[..])[a := page]
    {
      file[a] := page;
    }

    /** The page that is handed out held no record. Its links name the page that will be handed out next and the
        record that was the newest. */
    method GetFreebody() returns (body: Page, a: nat)
      requires Valid()
      modifies this, file
      ensures file == old(file) && todo == old(todo) && free == old(free)
      ensures a == old(free)[0] && a !in old(todo)
      ensures body.pre == At(old(free), 1) && body.nxt == At(old(todo), 0)
      ensures View() == old(View()).(freeList := At(old(free), 1), todoList := a).CountTaken().PutHeader(0)
    {
      HandsOut(View(), todo, free);
      body := file[freeList];
      a := freeList;
      freeList := body.nxt;
      body := body.(pre := body.nxt);
      body := body.(nxt := todoList);
      todoList := a;
      if counts { todoListNum, freeListNum := Succ(todoListNum), Pred(freeListNum); }
      WriteHeader(0);
    }

    /** WriteRollbackLog and WriteSynLog: they differ in the record. The log stays sound exactly if a second page was
        free and copying the names does not change the links, which it does not for names that fit. */
    method WriteLog(record: Record) returns (a: nat)
      requires Valid()
      modifies this, file
      ensures file == old(file) && View() == Allocated(old(View()), record)
      ensures (exists todo', free' :: Linked(View(), todo', free'))
         <==> |old(free)| > 1 && Undamaged(record, old(todo), old(free))
      ensures Fits(record) ==> Undamaged(record, old(todo), old(free))
      ensures |old(free)| > 1 && Undamaged(record, old(todo), old(free)) ==>
                Valid() && free == old(free)[1..] && a !in old(Log()) && Log() == old(Log())[a := record]
    {
      hide Linked, Stored, Undamaged;
      AllocatedLinkedIff(View(), record, todo, free);
      if Fits(record) { FitsIsUndamaged(View(), record, todo, free); }
      if |free| > 1 && Undamaged(record, todo, free) { AllocatedLinked(View(), record, todo, free); }
      HandsOut(View(), todo, free);
      AllocatedIs(View(), record, todo, free);
      var body: Page;
      body, a := GetFreebody();
      var page := Filled(record, body);
      WritePage(a, page);
      todo, free := [a] + todo, free[1..];
    }

    method Filled(record: Record, body: Page) returns (page: Page)
      ensures page == Stored(record, body.pre, body.nxt)
    {
      hide PageBytes.LinksAfter;
      page := body.(record := record);
      if record.Rollback? {
        var l := PageBytes.FillNames(PageBytes.Links(PAGE * body.pre, PAGE * body.nxt), record.username, record.filename);
        page := Page(record, PageOf(l.pre), PageOf(l.nxt));
      }
    }

    /** FreeLog; header says to which page it writes the header. */
    method FreeLogAt(a: nat, header: nat)
      requires Valid() && a in Log() && header < file.Length
      modifies this, file
      ensures file == old(file) && View() == Freed(old(View()), a, header)
      ensures todo == Without(old(todo), Position(old(todo), a)) && free == old(free) + [a]
    {
      hide Linked, Unlinked, Enlisted;
      FirstFree(View(), todo, free);
      Neighbours(View(), todo, free, Position(todo, a));
      UnlinkedPages(View(), a, 0);
      todo, free := Without(todo, Position(todo, a)), free + [a];
      Unlink(a);
      Enlist(a, header);
    }

    /** The part of FreeLog that makes page a the last free one. */
    method Enlist(a: nat, header: nat)
      requires a < file.Length && header < file.Length && freeListEnd < file.Length
      modifies this`todoListNum, this`freeListNum, this`freeListEnd, file
      ensures View() == Enlisted(old(View()), a, header)
    {
      if counts { todoListNum := Pred(todoListNum); } else { freeListNum := Pred(freeListNum); }
      WritePage(freeListEnd, file[freeListEnd].(nxt := a));
      WritePage(a, Page(Blank, freeListEnd, 0));
      freeListEnd := a;
      freeListNum := Succ(freeListNum);
      WriteHeader(header);
    }

    /** The part of FreeLog that takes page a out of its list. */
    method Unlink(a: nat)
      requires a < file.Length && file[a].nxt < file.Length
      requires todoList != a ==> file[a].pre < file.Length
      modifies this`todoList, file
      ensures View() == Unlinked(old(View()), a)
    {
      var cur := file[a];
      if todoList == a {
        if (if counts then todoListNum else freeListNum) == 1 {
          todoList := 0;
        } else {
          WritePage(cur.nxt, file[cur.nxt].(pre := cur.pre));
          todoList := cur.nxt;
        }
      } else {
        WritePage(cur.nxt, file[cur.nxt].(pre := cur.pre));
        WritePage(cur.pre, file[cur.pre].(nxt := cur.nxt));
      }
    }

    /** FreeLog as written. */
    method FreeLog(a: nat)
      requires Valid() && a in Log() && file.Length > 1
      modifies this, file
      ensures (exists todo', free' :: Linked(View(), todo', free')) <==> a == 1
      ensures a == 1 ==> Valid() && Log() == old(Log()) - {a}
    {
      hide Linked;
      FreedAsWrittenIff(View(), todo, free, Position(todo, a));
      if a == 1 { FreedLinked(View(), todo, free, Position(todo, a), 1); }
      FreeLogAt(a, 1);
    }

    /** FreeLog with the header written where the header is. */
    method FreeLogRepaired(a: nat)
      requires Valid() && a in Log()
      modifies this, file
      ensures Valid() && file == old(file)
      ensures Log() == old(Log()) - {a} && free == old(free) + [a]
    {
      hide Linked;
      FirstFree(View(), todo, free);
      FreedLinked(View(), todo, free, Position(todo, a), 0);
      FreeLogAt(a, 0);
    }
  }

  lemma HandsOut(r: Ring, todo: seq<nat>, free: seq<nat>)
    requires Linked(r, todo, free)
    ensures 0 < r.freeList < |r.pages| && r.freeList == free[0] && free[0] !in todo && |free| > 0
    ensures r.pages[r.freeList].nxt == At(free, 1) && r.todoList == At(todo, 0)
  {
    InRange(r, todo, free);
    assert free[0] in free && FreeLink(r.pages, free, 0);
  }

  /** What allocation does, in terms of the lists. */
  lemma AllocatedIs(r: Ring, record: Record, todo: seq<nat>, free: seq<nat>)
    requires Linked(r, todo, free)
    ensures Allocated(r, record)
         == r.(freeList := At(free, 1), todoList := free[0]).CountTaken().PutHeader(0)
             .Put(free[0], Stored(record, At(free, 1), At(todo, 0)))
  {
    hide Linked, Stored;
    HandsOut(r, todo, free);
  }

  lemma FirstFree(r: Ring, todo: seq<nat>, free: seq<nat>)
    requires Linked(r, todo, free)
    ensures 0 < r.freeList < |r.pages| && 0 < r.freeListEnd < |r.pages| && r.freeList == free[0]
    ensures forall p <- todo :: 0 < p < |r.pages|
    ensures |free| > 0
  {
    InRange(r, todo, free);
    assert free[0] in free && free[|free| - 1] in free;
  }
}
