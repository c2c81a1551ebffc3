/** Replication of one file: for every content and every way of cutting the message into reads, exactly when the
    receiver ends up with the same names and bytes. */
module SyncTransfer {
  import opened ByteSearch
  import opened FileScan
  import opened SyncWire
  import opened CutSafety
  import opened SyncReceiver

  /** The upload being sent. Its names are words, its size fits, and its boundary is a word. */
  datatype Transfer = Transfer(user: string, name: string, content: string, boundary: string)
  {
    ghost predicate Sendable() {
      (user == "" || IsWord(user)) && IsWord(name) && IsWord(boundary) && |content| <= LONG_MAX
    }

    function Fields(): string { UploadFields(user, name, |content|, boundary) }

    function First(): string { "UPL " + Fields() }

    function Second(): string { boundary + "--" }

    function Front(): string { First() + CRLF + Second() + CRLF }

    function Trail(): string { Trailer(boundary) }

    function Body(): string { content + Trail() }

    function Text(): string { Front() + Body() }

    function Path(root: string): string { AreaPath(root, AreaWord(user), UserWord(user), name) }

    function Opened(t: Task): Task {
      t.(status := HANDLE_BODY, path := Path(t.root), user := UserWord(user), size := |content|, boundary := boundary)
    }

    function Finished(t: Task): Task {
      Init(Opened(t)).(path := "", boundary := boundary, synced := t.synced + [UserWord(user)])
    }
  }

  // ---------------------------------------------------------------- the line stages

  lemma LinesHaveNoCR(x: Transfer)
    requires x.Sendable()
    ensures '\r' !in x.First() && '\r' !in x.Second()
  {
    var d := Decimal(|x.content|);
    assert forall i :: 0 <= i < |d| ==> d[i] in DIGITS;
    assert '\r' !in DIGITS && IsSpace('\r');
    assert '\r' !in AreaFields(x.user);
    assert x.First() == "UPL " + AreaFields(x.user) + x.name + " " + d + " " + x.boundary;
  }

  /** A line that is not complete yet is not taken. */
  lemma NoLineYet(line: string, k: nat)
    requires '\r' !in line && k < |line| + 2
    ensures Find((line + CRLF)[..k], CRLF, 0) == k
  {
    var p := (line + CRLF)[..k];
    forall i | 0 <= i < k
      ensures !OccursAt(p, CRLF, i)
    {
      OccursCRLF(p, i);
      if i < |line| {
        assert p[i] == line[i];
      }
    }
    FindIs(p, CRLF, 0, k);
  }

  lemma HeadOpens(x: Transfer, t: Task, disk: map<string, string>, rest: string)
    requires x.Sendable() && t.status.HANDLE_INIT?
    ensures ParseHead(Receiver(t, disk, x.First() + CRLF + rest))
         == Receiver(x.Opened(t), disk[x.Path(t.root) := ""], rest)
  {
    hide ReadUpload, AreaPath, IsWord, UploadFields, Find;
    var line := x.First();
    var p := line + CRLF + rest;
    LinesHaveNoCR(x);
    FindLineEnd(line, rest);
    assert p[..3] == "UPL" && p[4..|line|] == x.Fields() && p[|line| + 2..] == rest;
    UploadFieldsRoundTrip(x.user, x.name, |x.content|, x.boundary, t.boundary);
    assert x.Path(t.root) != "" by { PathIsNotEmpty(x, t.root); }
  }

  lemma PathIsNotEmpty(x: Transfer, root: string)
    ensures x.Path(root) != ""
  {
  }

  lemma BeginPasses(x: Transfer, r: Receiver, rest: string)
    requires x.Sendable() && r.task.boundary == x.boundary && r.pending == x.Second() + CRLF + rest
    ensures ParseBegin(r) == Receiver(r.task.(fileStatus := FILE_HEAD), r.disk, rest)
  {
    LinesHaveNoCR(x);
    FindLineEnd(x.Second(), rest);
    assert r.pending[..|x.Second()|] == x.Second();
    assert r.pending[|x.Second()| + 2..] == rest;
  }

  // ---------------------------------------------------------------- read by read

  /** Where the receiver stands after the first `n` bytes of the message with body `y`. */
  ghost function Expected(x: Transfer, t: Task, disk: map<string, string>, y: string, cuts: set<nat>, n: nat): Receiver
    requires n <= |x.Front() + y|
  {
    if n < |x.Front()| then BeforeBody(x, t, disk, (x.Front() + y)[..n])
    else
      var m := n - |x.Front()|;
      var e := Flushed(y, |x.Trail()|, cuts, m);
      InBody(x, t, disk, y[..e], y[e..m])
  }

  function BeforeBody(x: Transfer, t: Task, disk: map<string, string>, got: string): Receiver {
    var l := |x.First()| + 2;
    if |got| < l then Receiver(t, disk, got) else Receiver(x.Opened(t), disk[x.Path(t.root) := ""], got[l..])
  }

  function InBody(x: Transfer, t: Task, disk: map<string, string>, written: string, pending: string): Receiver {
    Receiver(x.Opened(t).(fileStatus := FILE_HEAD), disk[x.Path(t.root) := written], pending)
  }

  ghost predicate Idle(t: Task) {
    t.status.HANDLE_INIT? && t.fileStatus.FILE_BEGIN?
  }

  /** The line stages do not depend on how the front is cut. */
  lemma SettleFront(x: Transfer, t: Task, disk: map<string, string>, y: string, n: nat, n': nat)
    requires x.Sendable() && Idle(t) && n < |x.Front()| && n <= n' <= |x.Front() + y|
    ensures var s := x.Front() + y;
            var r := BeforeBody(x, t, disk, s[..n]);
            Settle(Receiver(r.task, r.disk, r.pending + s[n..n']))
            == if n' < |x.Front()| then BeforeBody(x, t, disk, s[..n'])
               else InBody(x, t, disk, "", s[|x.Front()|..n'])
  {
    hide ParseHead, ParseBegin, Transfer.First, Transfer.Second, Transfer.Sendable, Transfer.Path;
    var s, l := x.Front() + y, |x.First()| + 2;
    Associative(x.First() + CRLF, x.Second(), CRLF);
    if n < l {
      SliceJoin(s, 0, n, n');
      LineSlices(x.First(), x.Second() + CRLF, y, n');
      if n' < l {
        NoHead(x, t, disk, n');
      } else {
        HeadOpens(x, t, disk, s[l..n']);
        SettleSecond(x, t, disk, y, n');
      }
    } else {
      SliceJoin(s, l, n, n');
      SettleSecond(x, t, disk, y, n');
    }
  }

  lemma SliceJoin(s: string, l: nat, n: nat, n': nat)
    requires l <= n <= n' <= |s|
    ensures s[..n][l..] + s[n..n'] == s[l..n'] && s[..n] + s[n..n'] == s[..n']
  {
  }

  /** The first line of a text and what follows it, cut off at `n`. */
  lemma LineSlices(line: string, rest: string, y: string, n: nat)
    requires n <= |line + CRLF + rest + y|
    ensures var s, l := line + CRLF + rest + y, |line| + 2;
            s[..n] == if n < l then (line + CRLF)[..n] else line + CRLF + s[l..n]
  {
  }

  lemma SecondSlices(a: string, b: string, y: string, n: nat)
    requires |a| <= n <= |a + b + y|
    ensures var s := a + b + y; s[|a|..n] == if n < |a + b| then b[..n - |a|] else b + s[|a + b|..n]
  {
  }

  lemma NoHead(x: Transfer, t: Task, disk: map<string, string>, k: nat)
    requires x.Sendable() && k < |x.First()| + 2
    ensures var r := Receiver(t, disk, (x.First() + CRLF)[..k]); ParseHead(r) == r
  {
    LinesHaveNoCR(x);
    NoLineYet(x.First(), k);
  }

  lemma SettleSecond(x: Transfer, t: Task, disk: map<string, string>, y: string, n: nat)
    requires x.Sendable() && Idle(t) && |x.First()| + 2 <= n <= |x.Front() + y|
    ensures var s := x.Front() + y;
            ParseBegin(Receiver(x.Opened(t), disk[x.Path(t.root) := ""], s[|x.First()| + 2..n]))
            == if n < |x.Front()| then BeforeBody(x, t, disk, s[..n]) else InBody(x, t, disk, "", s[|x.Front()|..n])
  {
    hide Find, Transfer.Path, Transfer.Sendable, Transfer.First, Transfer.Second;
    var s, l := x.Front() + y, |x.First()| + 2;
    var r := Receiver(x.Opened(t), disk[x.Path(t.root) := ""], s[l..n]);
    Associative(x.First() + CRLF, x.Second(), CRLF);
    SliceJoin(s, l, n, n);
    SecondSlices(x.First() + CRLF, x.Second() + CRLF, y, n);
    if n < |x.Front()| {
      assert s[..n][l..] == s[l..n];
      LinesHaveNoCR(x);
      NoLineYet(x.Second(), n - l);
    } else {
      BeginPasses(x, r, s[|x.Front()|..n]);
    }
  }

  /** How far the body had been read before the read that starts at `n`. */
  function BodyRead(x: Transfer, n: nat): nat {
    if n < |x.Front()| then 0 else n - |x.Front()|
  }

  /** What the flush loop finds: the bytes held back so far, and the new ones. */
  lemma Arrive(x: Transfer, t: Task, disk: map<string, string>, y: string, cuts: set<nat>, n: nat, n': nat)
    requires x.Sendable() && Idle(t) && n <= n' <= |x.Front() + y| && |x.Front()| <= n'
    ensures var s, m, m' := x.Front() + y, BodyRead(x, n), n' - |x.Front()|;
            var e := Flushed(y, |x.Trail()|, cuts, m);
            var r := Expected(x, t, disk, y, cuts, n);
            && !r.task.status.FAULT?
            && Settle(Receiver(r.task, r.disk, r.pending + s[n..n'])) == InBody(x, t, disk, y[..e], y[e..m'])
  {
    hide *;
    if n < |x.Front()| {
      ArriveFront(x, t, disk, y, cuts, n, n');
    } else {
      ExpectedInBody(x, t, disk, y, cuts, n);
      var s, m, m' := x.Front() + y, BodyRead(x, n), n' - |x.Front()|;
      var e := Flushed(y, |x.Trail()|, cuts, m);
      BodyReadIs(x, n);
      ChunkOfBody(x.Front(), y, e, m, m');
      SettleInBody(x, t, disk, y[..e], y[e..m']);
      InBodyIs(x, t, disk, y[..e], y[e..m], s[n..n']);
    }
  }

  lemma ArriveFront(x: Transfer, t: Task, disk: map<string, string>, y: string, cuts: set<nat>, n: nat, n': nat)
    requires x.Sendable() && Idle(t) && n < |x.Front()| <= n' <= |x.Front() + y|
    ensures var s, m' := x.Front() + y, n' - |x.Front()|;
            var e := Flushed(y, |x.Trail()|, cuts, BodyRead(x, n));
            var r := Expected(x, t, disk, y, cuts, n);
            && e <= m' && !r.task.status.FAULT?
            && Settle(Receiver(r.task, r.disk, r.pending + s[n..n'])) == InBody(x, t, disk, y[..e], y[e..m'])
  {
    hide Flushed, Settle, AreaPath, Find, IsWord, Transfer.Front, Transfer.First, Transfer.Path, Transfer.Sendable;
    var s := x.Front() + y;
    FlushedBounds(y, |x.Trail()|, cuts, 0);
    SettleFront(x, t, disk, y, n, n');
    assert s[|x.Front()|..n'] == y[0..n' - |x.Front()|] && y[..0] == "";
  }

  lemma ChunkOfBody(front: string, y: string, e: nat, m: nat, m': nat)
    requires e <= m <= m' <= |y|
    ensures y[e..m] + (front + y)[|front| + m..|front| + m'] == y[e..m']
  {
    assert (front + y)[|front| + m..|front| + m'] == y[m..m'];
  }

  lemma InBodyIs(x: Transfer, t: Task, disk: map<string, string>, written: string, pending: string, more: string)
    ensures var r := InBody(x, t, disk, written, pending);
            && r.task.status == HANDLE_BODY
            && Receiver(r.task, r.disk, r.pending + more) == InBody(x, t, disk, written, pending + more)
  {
  }

  lemma SettleInBody(x: Transfer, t: Task, disk: map<string, string>, written: string, pending: string)
    ensures var r := InBody(x, t, disk, written, pending); Settle(r) == r
  {
  }

  /** One run of the flush loop in the body. */
  lemma FlushInBody(x: Transfer, t: Task, disk: map<string, string>, written: string, pending: string)
    requires x.Sendable() && Idle(t)
    ensures var e := Stop(pending, CRLF, x.Trail(), 0);
            Pass(InBody(x, t, disk, written, pending))
            == if OccursAt(pending, x.Trail(), e) then
                 Receiver(x.Finished(t), disk[x.Path(t.root) := written + pending[..e]], pending[e + |x.Trail()|..])
               else InBody(x, t, disk, written + pending[..e], pending[e..])
  {
    hide Stop, OccursAt, AreaPath;
    PathIsNotEmpty(x, t.root);
  }

  /** A read that does not bring the end of the message, or brings it when the trailer is lost already. */
  lemma ReceiveOne(x: Transfer, t: Task, disk: map<string, string>, y: string, cuts: set<nat>, n: nat, n': nat)
    requires x.Sendable() && Idle(t) && n <= n' <= |x.Front() + y|
    requires |x.Front()| <= n' ==>
               var m, m' := BodyRead(x, n), n' - |x.Front()|;
               && NextCut(cuts, m, m')
               && (forall p :: Flushed(y, |x.Trail()|, cuts, m) <= p && p + |x.Trail()| <= m' ==> !OccursAt(y, x.Trail(), p))
    ensures Receive(Expected(x, t, disk, y, cuts, n), (x.Front() + y)[n..n']) == Expected(x, t, disk, y, cuts, n')
  {
    hide Flushed, Settle, ParseFlush, NextCut, OccursAt, AreaPath;
    if n' < |x.Front()| {
      SettleFront(x, t, disk, y, n, n');
    } else {
      hide Expected;
      var m, m' := BodyRead(x, n), n' - |x.Front()|;
      var e := Flushed(y, |x.Trail()|, cuts, m);
      FlushedBounds(y, |x.Trail()|, cuts, m);
      Arrive(x, t, disk, y, cuts, n, n');
      SettleInBody(x, t, disk, y[..e], y[e..m']);
      PassInBody(x, t, disk, y, cuts, m, m');
      ExpectedInBody(x, t, disk, y, cuts, n');
    }
  }

  lemma ExpectedInBody(x: Transfer, t: Task, disk: map<string, string>, y: string, cuts: set<nat>, n: nat)
    requires |x.Front()| <= n <= |x.Front() + y|
    ensures var m := n - |x.Front()|;
            var e := Flushed(y, |x.Trail()|, cuts, m);
            e <= m && Expected(x, t, disk, y, cuts, n) == InBody(x, t, disk, y[..e], y[e..m])
  {
  }

  lemma PassInBody(x: Transfer, t: Task, disk: map<string, string>, y: string, cuts: set<nat>, m: nat, m': nat)
    requires x.Sendable() && Idle(t) && m' <= |y| && NextCut(cuts, m, m')
    requires forall p :: Flushed(y, |x.Trail()|, cuts, m) <= p && p + |x.Trail()| <= m' ==> !OccursAt(y, x.Trail(), p)
    ensures var e, e' := Flushed(y, |x.Trail()|, cuts, m), Flushed(y, |x.Trail()|, cuts, m');
            && e <= m <= m' && e' <= m'
            && Pass(InBody(x, t, disk, y[..e], y[e..m'])) == InBody(x, t, disk, y[..e'], y[e'..m'])
  {
    hide Flushed, Pass, OccursAt;
    var e := Flushed(y, |x.Trail()|, cuts, m);
    FlushedBounds(y, |x.Trail()|, cuts, m);
    PassFlushes(y, x.Trail(), cuts, m, m');
    FlushInBody(x, t, disk, y[..e], y[e..m']);
    var k := Stop(y[e..m'], CRLF, x.Trail(), 0);
    SliceOfSlice(y, e, m', k);
  }

  // ---------------------------------------------------------------- whole transfers

  /** Where reads end in the body. */
  ghost function Cuts(x: Transfer, chunks: seq<string>): set<nat> {
    set k | 0 <= k <= |chunks| && |x.Front()| <= End(chunks, k) :: End(chunks, k) - |x.Front()|
  }

  lemma CutsInARow(x: Transfer, chunks: seq<string>, k: nat)
    requires k < |chunks| && |x.Front()| <= End(chunks, k + 1)
    ensures NextCut(Cuts(x, chunks), BodyRead(x, End(chunks, k)), End(chunks, k + 1) - |x.Front()|)
  {
    hide End;
    forall j | 0 <= j <= |chunks|
      ensures if j <= k then End(chunks, j) <= End(chunks, k) else End(chunks, k + 1) <= End(chunks, j)
    {
      if j <= k {
        EndMonotone(chunks, j, k);
      } else {
        EndMonotone(chunks, k + 1, j);
      }
    }
    EndMonotone(chunks, k, k + 1);
    var cuts, m, m' := Cuts(x, chunks), BodyRead(x, End(chunks, k)), End(chunks, k + 1) - |x.Front()|;
    forall c | c in cuts
      ensures c <= m || m' <= c
    {
    }
    if |x.Front()| <= End(chunks, k) {
      assert m in cuts;
    }
    assert m' in cuts;
  }

  /** The message, then bytes of whatever the peer sends next. */
  ghost predicate Stream(x: Transfer, chunks: seq<string>, rest: string) {
    chunks != [] && Flatten(chunks) == x.Text() + rest
  }

  /** The last read brings the end of the message, and perhaps more. */
  ghost predicate Delivers(x: Transfer, chunks: seq<string>, rest: string) {
    Stream(x, chunks, rest) && End(chunks, |chunks| - 1) < |x.Text()|
  }

  /** The trailer at the end of the content is safe from the cuts, and no trailer inside the content is. */
  ghost predicate TrailerFirst(x: Transfer, chunks: seq<string>, rest: string) {
    FirstSafe(x.Body() + rest, x.Trail(), Cuts(x, chunks), |x.content|)
  }

  /** A trailer inside the content is safe from the cuts. */
  ghost predicate EndsEarly(x: Transfer, chunks: seq<string>, rest: string) {
    exists c: nat :: c < |x.content| && FirstSafe(x.Body() + rest, x.Trail(), Cuts(x, chunks), c)
  }

  /** No trailer lies among the bytes that are unflushed when read `k` arrives. */
  ghost predicate Quiet(x: Transfer, y: string, chunks: seq<string>, k: nat)
    requires 0 < k <= |chunks|
  {
    |x.Front()| <= End(chunks, k) ==>
      NoTrailerIn(x, y, Flushed(y, |x.Trail()|, Cuts(x, chunks), BodyRead(x, End(chunks, k - 1))),
                  End(chunks, k) - |x.Front()|)
  }

  ghost predicate NoTrailerIn(x: Transfer, y: string, e: nat, m: nat) {
    forall p :: e <= p && p + |x.Trail()| <= m ==> !OccursAt(y, x.Trail(), p)
  }

  /** As long as no read finds a trailer, the receiver is where it is expected to be. */
  lemma {:induction false} ReceiveRun(x: Transfer, t: Task, disk: map<string, string>, chunks: seq<string>,
                                      y: string, k: nat)
    requires x.Sendable() && Idle(t) && chunks != [] && Flatten(chunks) == x.Front() + y && k <= |chunks|
    requires forall j :: 0 < j <= k ==> Quiet(x, y, chunks, j)
    ensures End(chunks, k) <= |x.Front() + y|
    ensures ReceiveAll(Receiver(t, disk, ""), chunks[..k]) == Expected(x, t, disk, y, Cuts(x, chunks), End(chunks, k))
    decreases k
  {
    hide *;
    EndMonotone(chunks, k, |chunks|);
    AllRead(chunks);
    if k == 0 {
      NothingRead(x, t, disk, y, Cuts(x, chunks), chunks);
    } else {
      ReceiveRun(x, t, disk, chunks, y, k - 1);
      TakeSnoc(chunks, k);
      ReceiveAllSnoc(Receiver(t, disk, ""), chunks[..k - 1], chunks[k - 1]);
      ChunkIsSlice(chunks, k - 1);
      assert Quiet(x, y, chunks, k);
      QuietRead(x, t, disk, chunks, y, k);
    }
  }

  /** One such read. */
  lemma QuietRead(x: Transfer, t: Task, disk: map<string, string>, chunks: seq<string>, y: string, k: nat)
    requires x.Sendable() && Idle(t) && 0 < k <= |chunks| && Quiet(x, y, chunks, k)
    requires End(chunks, k - 1) <= End(chunks, k) <= |x.Front() + y|
    ensures Receive(Expected(x, t, disk, y, Cuts(x, chunks), End(chunks, k - 1)),
                    (x.Front() + y)[End(chunks, k - 1)..End(chunks, k)])
         == Expected(x, t, disk, y, Cuts(x, chunks), End(chunks, k))
  {
    hide *;
    var n, n' := End(chunks, k - 1), End(chunks, k);
    if |x.Front()| <= n' {
      CutsInARow(x, chunks, k - 1);
      QuietSays(x, y, chunks, k);
    }
    ReceiveOne(x, t, disk, y, Cuts(x, chunks), n, n');
  }

  lemma QuietSays(x: Transfer, y: string, chunks: seq<string>, k: nat)
    requires 0 < k <= |chunks| && Quiet(x, y, chunks, k) && |x.Front()| <= End(chunks, k)
    ensures NoTrailerIn(x, y, Flushed(y, |x.Trail()|, Cuts(x, chunks), BodyRead(x, End(chunks, k - 1))),
                        End(chunks, k) - |x.Front()|)
  {}

  lemma AllRead(chunks: seq<string>)
    ensures End(chunks, |chunks|) == |Flatten(chunks)|
  {
    assert chunks[..|chunks|] == chunks;
  }

  /** A read that ends before the first safe trailer does finds no trailer. */
  lemma QuietBefore(x: Transfer, chunks: seq<string>, y: string, c: nat, k: nat)
    requires 0 < k <= |chunks| && NoneSafe(y, x.Trail(), Cuts(x, chunks), c)
    requires End(chunks, k) < |x.Front()| + c + |x.Trail()|
    ensures Quiet(x, y, chunks, k)
  {
    hide Flushed, Cuts, NextCut, OccursAt, End, NoneSafe;
    if |x.Front()| <= End(chunks, k) {
      var m, m' := BodyRead(x, End(chunks, k - 1)), End(chunks, k) - |x.Front()|;
      var e := Flushed(y, |x.Trail()|, Cuts(x, chunks), m);
      CutsInARow(x, chunks, k - 1);
      forall p: nat | e <= p && p + |x.Trail()| <= m' ensures !OccursAt(y, x.Trail(), p) {
        NoneHeld(y, x.Trail(), Cuts(x, chunks), m, m', c, p);
      }
    }
  }

  lemma TakeSnoc(chunks: seq<string>, k: nat)
    requires 0 < k <= |chunks|
    ensures chunks[..k] == chunks[..k - 1] + [chunks[k - 1]]
  {
  }

  lemma StreamSplits(x: Transfer, chunks: seq<string>, rest: string)
    requires Stream(x, chunks, rest)
    ensures Flatten(chunks) == x.Front() + (x.Body() + rest) && chunks != []
    ensures |x.Text()| <= End(chunks, |chunks|) == |x.Front() + (x.Body() + rest)|
    ensures |x.Text()| == |x.Front()| + |x.Body()|
  {
    hide Flatten, Transfer.Front, Transfer.Body;
    Associative(x.Front(), x.Body(), rest);
    assert chunks[..|chunks|] == chunks;
  }

  lemma NothingRead(x: Transfer, t: Task, disk: map<string, string>, y: string, cuts: set<nat>, chunks: seq<string>)
    ensures End(chunks, 0) == 0
    ensures ReceiveAll(Receiver(t, disk, ""), chunks[..0]) == Expected(x, t, disk, y, cuts, 0)
  {
    assert chunks[..0] == [] && (x.Front() + y)[..0] == "";
  }

  lemma TrailerAtEnd(x: Transfer, rest: string)
    ensures OccursAt(x.Body() + rest, x.Trail(), |x.content|)
  {
    assert (x.Body() + rest)[|x.content|..|x.content| + |x.Trail()|] == x.Trail();
  }

  /** The read that brings the end of the first safe trailer. */
  lemma ReceiveLast(x: Transfer, t: Task, disk: map<string, string>, y: string, cuts: set<nat>, c: nat, n: nat, n': nat)
    requires x.Sendable() && Idle(t) && n < |x.Front()| + c + |x.Trail()| <= n' <= |x.Front() + y|
    requires NextCut(cuts, BodyRead(x, n), n' - |x.Front()|) && FirstSafe(y, x.Trail(), cuts, c)
    ensures Receive(Expected(x, t, disk, y, cuts, n), (x.Front() + y)[n..n'])
         == Receiver(x.Finished(t), disk[x.Path(t.root) := y[..c]], y[c + |x.Trail()|..n' - |x.Front()|])
  {
    hide Expected, Flushed, FirstSafe, NextCut, OccursAt, InBody, Pass, Transfer.Sendable, Transfer.Path,
      Transfer.Finished, Transfer.Front, Transfer.Trail;
    var m, m' := BodyRead(x, n), n' - |x.Front()|;
    var e := Flushed(y, |x.Trail()|, cuts, m);
    FlushedBounds(y, |x.Trail()|, cuts, m);
    Arrive(x, t, disk, y, cuts, n, n');
    SettleInBody(x, t, disk, y[..e], y[e..m']);
    SettledPass(Expected(x, t, disk, y, cuts, n), (x.Front() + y)[n..n'], InBody(x, t, disk, y[..e], y[e..m']));
    TrailFits(x);
    SafeTrailerFound(y, x.Trail(), cuts, m, m', c);
    LastPass(x, t, disk, y, e, c, m');
  }

  lemma TrailFits(x: Transfer)
    ensures Compatible(CRLF, x.Trail())
  {
  }

  /** A read whose line stages are over does what a pass does. */
  lemma SettledPass(r: Receiver, chunk: string, settled: Receiver)
    requires !r.task.status.FAULT?
    requires Settle(Receiver(r.task, r.disk, r.pending + chunk)) == settled && Settle(settled) == settled
    ensures Receive(r, chunk) == Pass(settled)
  {
    hide Settle, ParseFlush;
  }

  lemma LastPass(x: Transfer, t: Task, disk: map<string, string>, y: string, e: nat, c: nat, m: nat)
    requires x.Sendable() && Idle(t) && e <= c && c + |x.Trail()| <= m <= |y|
    requires Stop(y[e..m], CRLF, x.Trail(), 0) == c - e && OccursAt(y[e..m], x.Trail(), c - e)
    ensures Pass(InBody(x, t, disk, y[..e], y[e..m]))
         == Receiver(x.Finished(t), disk[x.Path(t.root) := y[..c]], y[c + |x.Trail()|..m])
  {
    hide Stop, OccursAt, Pass, InBody, Transfer.Sendable, Transfer.Finished, Transfer.Path, Transfer.Trail;
    FlushInBody(x, t, disk, y[..e], y[e..m]);
    assert y[..e] + y[e..m][..c - e] == y[..c];
    assert y[e..m][c - e + |x.Trail()|..] == y[c + |x.Trail()|..m];
  }

  /** Before the read that brings the end of the first safe trailer, the receiver is where it is expected to be. */
  lemma ReceivePrefix(x: Transfer, t: Task, disk: map<string, string>, chunks: seq<string>, y: string, c: nat, k: nat)
    requires x.Sendable() && Idle(t) && chunks != [] && Flatten(chunks) == x.Front() + y && k <= |chunks|
    requires NoneSafe(y, x.Trail(), Cuts(x, chunks), c) && End(chunks, k) < |x.Front()| + c + |x.Trail()|
    ensures End(chunks, k) <= |x.Front() + y|
    ensures ReceiveAll(Receiver(t, disk, ""), chunks[..k]) == Expected(x, t, disk, y, Cuts(x, chunks), End(chunks, k))
  {
    hide *;
    forall j | 0 < j <= k ensures Quiet(x, y, chunks, j) {
      EndMonotone(chunks, j, k);
      QuietBefore(x, chunks, y, c, j);
    }
    ReceiveRun(x, t, disk, chunks, y, k);
  }

  /** Whatever follows the head of an upload: the read that brings the end of the first safe trailer completes the
      transfer, with the bytes before that trailer in the file, and what it brings besides left for the next message. */
  lemma Completes(x: Transfer, t: Task, disk: map<string, string>, chunks: seq<string>, y: string, c: nat, k: nat)
    requires x.Sendable() && Idle(t) && k < |chunks| && Flatten(chunks) == x.Front() + y
    requires FirstSafe(y, x.Trail(), Cuts(x, chunks), c)
    requires End(chunks, k) < |x.Front()| + c + |x.Trail()| <= End(chunks, k + 1)
    ensures End(chunks, k + 1) <= |x.Front() + y|
    ensures ReceiveAll(Receiver(t, disk, ""), chunks[..k + 1])
         == Receiver(x.Finished(t), disk[x.Path(t.root) := y[..c]], y[c + |x.Trail()|..End(chunks, k + 1) - |x.Front()|])
  {
    hide *;
    AllRead(chunks);
    EndMonotone(chunks, k + 1, |chunks|);
    FirstIsNone(y, x.Trail(), Cuts(x, chunks), c);
    ReceivePrefix(x, t, disk, chunks, y, c, k);
    TakeSnoc(chunks, k + 1);
    ReceiveAllSnoc(Receiver(t, disk, ""), chunks[..k], chunks[k]);
    ChunkIsSlice(chunks, k);
    CutsInARow(x, chunks, k);
    ReceiveLast(x, t, disk, y, Cuts(x, chunks), c, End(chunks, k), End(chunks, k + 1));
  }

  lemma FirstIsNone(y: string, trailer: string, cuts: set<nat>, c: nat)
    requires FirstSafe(y, trailer, cuts, c)
    ensures NoneSafe(y, trailer, cuts, c)
  {
  }

  /** And if no trailer is safe, nothing is ever completed: everything that arrives, however it is cut and whatever
      messages it holds, goes into the file, but for a last part shorter than a trailer. */
  lemma NeverCompletes(x: Transfer, t: Task, disk: map<string, string>, chunks: seq<string>, y: string)
    requires x.Sendable() && Idle(t) && chunks != [] && Flatten(chunks) == x.Front() + y
    requires NoneSafe(y, x.Trail(), Cuts(x, chunks), |y|)
    ensures exists e: nat :: e <= |y| < e + |x.Trail()| &&
              ReceiveAll(Receiver(t, disk, ""), chunks) == InBody(x, t, disk, y[..e], y[e..])
  {
    hide *;
    var k, cuts := |chunks|, Cuts(x, chunks);
    AllRead(chunks);
    assert |x.Front() + y| < |x.Front()| + |y| + |x.Trail()| by { SomeTrail(x); }
    ReceivePrefix(x, t, disk, chunks, y, |y|, k);
    assert chunks[..k] == chunks;
    var e := Flushed(y, |x.Trail()|, cuts, |y|);
    ExpectedInBody(x, t, disk, y, cuts, End(chunks, k));
    assert y[e..|y|] == y[e..];
    EndMonotone(chunks, k - 1, k);
    QuietBefore(x, chunks, y, |y|, k);
    FlushedOn(x, chunks, y, k);
  }

  lemma SomeTrail(x: Transfer)
    ensures x.Trail() != ""
  {
  }

  lemma FlushedOn(x: Transfer, chunks: seq<string>, y: string, k: nat)
    requires x.Sendable() && 0 < k <= |chunks| && Quiet(x, y, chunks, k)
    requires End(chunks, k - 1) <= End(chunks, k) == |x.Front() + y|
    ensures var e := Flushed(y, |x.Trail()|, Cuts(x, chunks), |y|);
            Flushed(y, |x.Trail()|, Cuts(x, chunks), BodyRead(x, End(chunks, k - 1))) <= e <= |y| < e + |x.Trail()|
  {
    hide Flushed, Cuts, NextCut, Safe, OccursAt, End, Find, Quiet;
    var cuts, m := Cuts(x, chunks), BodyRead(x, End(chunks, k - 1));
    CutsInARow(x, chunks, k - 1);
    QuietSays(x, y, chunks, k);
    PassFlushes(y, x.Trail(), cuts, m, |y|);
    FlushedBounds(y, |x.Trail()|, cuts, |y|);
  }

  /** If every trailer inside the content is lost to the cuts and the one at its end is not, the transfer completes with
      the read that brings its last byte: the file has exactly the bytes sent, under the same area and names, and what
      follows the message is left for the next one. */
  lemma SafeTransfer(x: Transfer, t: Task, disk: map<string, string>, chunks: seq<string>, rest: string)
    requires x.Sendable() && Idle(t) && Delivers(x, chunks, rest) && TrailerFirst(x, chunks, rest)
    ensures ReceiveAll(Receiver(t, disk, ""), chunks)
         == Receiver(x.Finished(t), disk[x.Path(t.root) := x.content], rest)
  {
    hide *;
    var k, y := |chunks| - 1, x.Body() + rest;
    DeliversIs(x, chunks, rest);
    StreamSplits(x, chunks, rest);
    FirstSafeIs(x, chunks, rest);
    Completes(x, t, disk, chunks, y, |x.content|, k);
    assert chunks[..k + 1] == chunks;
    ExactlyContent(x, rest);
  }

  lemma ExactlyContent(x: Transfer, rest: string)
    ensures var y := x.Body() + rest;
            && y[..|x.content|] == x.content && |x.Body()| == |x.content| + |x.Trail()|
            && y[|x.content| + |x.Trail()|..|y|] == rest
  {
  }

  lemma DeliversIs(x: Transfer, chunks: seq<string>, rest: string)
    requires Delivers(x, chunks, rest)
    ensures Stream(x, chunks, rest) && chunks != [] && End(chunks, |chunks| - 1) < |x.Text()|
    ensures |x.Text()| == |x.Front()| + |x.content| + |x.Trail()|
  {
  }

  lemma FirstSafeIs(x: Transfer, chunks: seq<string>, rest: string)
    requires TrailerFirst(x, chunks, rest)
    ensures FirstSafe(x.Body() + rest, x.Trail(), Cuts(x, chunks), |x.content|)
  {
  }

  /** If the trailer at the end of the content is lost too: with the read that brings the end of the message, the file
      has taken in the beginning of the trailer, whatever that read brings besides. */
  lemma UnsafeTransfer(x: Transfer, t: Task, disk: map<string, string>, chunks: seq<string>, rest: string)
    requires x.Sendable() && Idle(t) && Delivers(x, chunks, rest)
    requires NoneSafe(x.Body() + rest, x.Trail(), Cuts(x, chunks), |x.content| + 1)
    ensures var q := ReceiveAll(Receiver(t, disk, ""), chunks);
            x.Path(t.root) in q.disk && x.content + CR <= q.disk[x.Path(t.root)]
  {
    hide *;
    var k, y, cuts := |chunks| - 1, x.Body() + rest, Cuts(x, chunks);
    DeliversIs(x, chunks, rest);
    StreamSplits(x, chunks, rest);
    AllRead(chunks);
    ReceivePrefix(x, t, disk, chunks, y, |x.content| + 1, k);
    TakeSnoc(chunks, k + 1);
    assert chunks[..k + 1] == chunks;
    ReceiveAllSnoc(Receiver(t, disk, ""), chunks[..k], chunks[k]);
    FlushedPastEnd(x, chunks, rest, k);
    ExpectedInBody(x, t, disk, y, cuts, End(chunks, k));
    var m := End(chunks, k) - |x.Front()|;
    var e := Flushed(y, |x.Trail()|, cuts, m);
    BodyReadIs(x, End(chunks, k));
    OnlyAdds(x, t, disk, y[..e], y[e..m], chunks[k]);
    BeginsWithCR(x, rest, e);
  }

  /** A trailer that is not safe: when its end arrives, its first byte is in the file already. */
  lemma FlushedPastEnd(x: Transfer, chunks: seq<string>, rest: string, k: nat)
    requires Stream(x, chunks, rest) && NoneSafe(x.Body() + rest, x.Trail(), Cuts(x, chunks), |x.content| + 1)
    requires k < |chunks| && |x.Text()| <= End(chunks, k + 1)
    ensures |x.Front()| <= End(chunks, k)
    ensures |x.content| < Flushed(x.Body() + rest, |x.Trail()|, Cuts(x, chunks), BodyRead(x, End(chunks, k)))
  {
    hide Cuts, OccursAt, Flushed, NextCut, Safe, Flatten, End;
    var y, cuts, m := x.Body() + rest, Cuts(x, chunks), BodyRead(x, End(chunks, k));
    CutsInARow(x, chunks, k);
    TrailerAtEnd(x, rest);
    UnsafeTrailerLost(y, x.Trail(), cuts, m, End(chunks, k + 1) - |x.Front()|, |x.content|);
    FlushedBounds(y, |x.Trail()|, cuts, m);
  }

  /** A read in the body only ever adds to the file. */
  lemma OnlyAdds(x: Transfer, t: Task, disk: map<string, string>, written: string, pending: string, chunk: string)
    requires x.Sendable() && Idle(t)
    ensures var q := Receive(InBody(x, t, disk, written, pending), chunk);
            x.Path(t.root) in q.disk && written <= q.disk[x.Path(t.root)]
  {
    hide Pass, AreaPath, OccursAt, Stop, Find, IsWord;
    assert !InBody(x, t, disk, written, pending).task.status.FAULT?;
    FlushInBody(x, t, disk, written, pending + chunk);
  }

  lemma BodyReadIs(x: Transfer, n: nat)
    requires |x.Front()| <= n
    ensures BodyRead(x, n) == n - |x.Front()|
  {
  }

  lemma BeginsWithCR(x: Transfer, rest: string, e: nat)
    requires |x.content| < e <= |x.Body() + rest|
    ensures x.content + CR <= (x.Body() + rest)[..e]
  {
    assert (x.Body() + rest)[..|x.content| + 1] == x.content + CR;
  }

  // ---------------------------------------------------------------- a transfer that ends early

  /** How many messages have been carried out. */
  function Completed(t: Task): nat { |t.synced| + |t.peers| }

  /** Nothing but "" has come into a file. */
  predicate OnlyEmptied(disk: map<string, string>, disk': map<string, string>) {
    forall p <- disk' :: disk'[p] == "" || (p in disk && disk'[p] == disk[p])
  }

  lemma HeadKeeps(r: Receiver)
    requires r.task.status.HANDLE_INIT?
    ensures var q := ParseHead(r);
            && Completed(q.task) == Completed(r.task) + (if q.task.status.HANDLE_COMPLETE? then 1 else 0)
            && q.task.fileStatus == r.task.fileStatus
            && (!q.task.status.HANDLE_COMPLETE? ==> OnlyEmptied(r.disk, q.disk))
  {
    hide Find, Word, AreaPath, ReadUpload;
  }

  lemma BeginKeeps(r: Receiver)
    requires r.task.status.HANDLE_BODY? && r.task.fileStatus.FILE_BEGIN?
    ensures var q := ParseBegin(r);
            && Completed(q.task) == Completed(r.task) && q.disk == r.disk
            && (q.task.status.HANDLE_BODY? || q.task.status.HANDLE_INIT?)
  {
    hide Find;
  }

  lemma FlushKeeps(r: Receiver)
    requires r.task.status.HANDLE_BODY? && r.task.fileStatus.FILE_HEAD?
    ensures var q := ParseFlush(r);
            && Completed(q.task) == Completed(r.task) + (if q.task.status.HANDLE_COMPLETE? then 1 else 0)
            && (q.task.status.HANDLE_COMPLETE? || q.task.status.FAULT?
                || (q.task.status.HANDLE_BODY? && q.task.fileStatus.FILE_HEAD?))
  {
    hide Stop, OccursAt;
  }

  /** A read completes at most one message. */
  lemma AtMostOne(r: Receiver, chunk: string)
    ensures Completed(r.task) <= Completed(Receive(r, chunk).task) <= Completed(r.task) + 1
  {
    hide ParseHead, ParseBegin, ParseFlush;
    var q := Receiver(r.task, r.disk, r.pending + chunk);
    if q.task.status.HANDLE_INIT? { HeadKeeps(q); }
    var q1 := if q.task.status.HANDLE_INIT? then ParseHead(q) else q;
    if q1.task.status.HANDLE_BODY? && q1.task.fileStatus.FILE_BEGIN? { BeginKeeps(q1); }
    var q2 := Settle(q);
    if q2.task.status.HANDLE_BODY? && q2.task.fileStatus.FILE_HEAD? { FlushKeeps(q2); }
  }

  /** A file other than `content` that only a message still to be completed can change into it. */
  predicate Astray(r: Receiver, n: nat, path: string, content: string) {
    && n <= Completed(r.task)
    && (n < Completed(r.task) || r.task.status.FAULT?
        || (r.task.status.HANDLE_BODY? && r.task.fileStatus.FILE_HEAD?)
        || (path in r.disk ==> r.disk[path] != content))
  }

  lemma StaysAstray(r: Receiver, chunk: string, n: nat, path: string, content: string)
    requires Astray(r, n, path, content) && content != ""
    ensures Astray(Receive(r, chunk), n, path, content)
  {
    hide ParseHead, ParseBegin, ParseFlush;
    var q := Receiver(r.task, r.disk, r.pending + chunk);
    if q.task.status.HANDLE_INIT? { HeadKeeps(q); }
    var q1 := if q.task.status.HANDLE_INIT? then ParseHead(q) else q;
    if q1.task.status.HANDLE_BODY? && q1.task.fileStatus.FILE_BEGIN? { BeginKeeps(q1); }
    var q2 := Settle(q);
    if q2.task.status.HANDLE_BODY? && q2.task.fileStatus.FILE_HEAD? { FlushKeeps(q2); }
  }

  lemma {:induction false} RunsAstray(r: Receiver, chunks: seq<string>, n: nat, path: string, content: string)
    requires Astray(r, n, path, content) && content != ""
    ensures Astray(ReceiveAll(r, chunks), n, path, content)
    decreases |chunks|
  {
    hide Astray, Receive;
    if chunks != [] {
      StaysAstray(r, chunks[0], n, path, content);
      RunsAstray(Receive(r, chunks[0]), chunks[1..], n, path, content);
    }
  }

  lemma {:induction false} ReceiveSplit(r: Receiver, chunks: seq<string>, k: nat)
    requires k <= |chunks|
    ensures ReceiveAll(r, chunks) == ReceiveAll(ReceiveAll(r, chunks[..k]), chunks[k..])
    decreases |chunks| - k
  {
    hide Receive;
    if k == |chunks| {
      assert chunks[..k] == chunks;
    } else {
      ReceiveSplit(r, chunks, k + 1);
      TakeSnoc(chunks, k + 1);
      ReceiveAllSnoc(r, chunks[..k], chunks[k]);
      assert chunks[k..][1..] == chunks[k + 1..];
    }
  }

  /** The read that brings the byte at `n`. */
  lemma {:induction false} ReadAt(chunks: seq<string>, n: nat) returns (k: nat)
    requires n < |Flatten(chunks)|
    ensures k < |chunks| && End(chunks, k) <= n < End(chunks, k + 1)
  {
    hide End, Flatten;
    k := |chunks|;
    AllRead(chunks);
    NoneRead(chunks);
    while n < End(chunks, k)
      invariant k <= |chunks| && (k < |chunks| ==> n < End(chunks, k + 1))
      decreases k
    {
      k := k - 1;
    }
  }

  lemma NoneRead(chunks: seq<string>)
    ensures End(chunks, 0) == 0
  {
    assert chunks[..0] == [];
  }

  /** A trailer inside the content that is safe from the cuts ends the transfer early: with the read that brings its
      last byte, the file has only the content before it, and no later read gives it the whole content within this one
      message. */
  lemma EarlyTransfer(x: Transfer, t: Task, disk: map<string, string>, chunks: seq<string>, rest: string, c: nat)
    returns (k: nat, left: string)
    requires x.Sendable() && Idle(t) && Delivers(x, chunks, rest) && c < |x.content|
    requires FirstSafe(x.Body() + rest, x.Trail(), Cuts(x, chunks), c)
    ensures k < |chunks|
    ensures ReceiveAll(Receiver(t, disk, ""), chunks[..k + 1])
         == Receiver(x.Finished(t), disk[x.Path(t.root) := x.content[..c]], left)
    ensures ReceiveAll(Receiver(t, disk, ""), chunks)
         != Receiver(x.Finished(t), disk[x.Path(t.root) := x.content], rest)
  {
    hide *;
    var y, path := x.Body() + rest, x.Path(t.root);
    DeliversIs(x, chunks, rest);
    StreamSplits(x, chunks, rest);
    AllRead(chunks);
    SomeTrail(x);
    ExactlyContent(x, rest);
    k := ReadAt(chunks, |x.Front()| + c + |x.Trail()| - 1);
    Completes(x, t, disk, chunks, y, c, k);
    assert y[..c] == x.content[..c];
    left := y[c + |x.Trail()|..End(chunks, k + 1) - |x.Front()|];
    var r := Receiver(x.Finished(t), disk[path := x.content[..c]], left);
    ShortIsAstray(x, t, disk, left, c);
    RunsAstray(r, chunks[k + 1..], Completed(x.Finished(t)), path, x.content);
    ReceiveSplit(Receiver(t, disk, ""), chunks, k + 1);
    WholeIsNot(x, t, disk, rest);
  }

  lemma ShortIsAstray(x: Transfer, t: Task, disk: map<string, string>, left: string, c: nat)
    requires c < |x.content|
    ensures Astray(Receiver(x.Finished(t), disk[x.Path(t.root) := x.content[..c]], left),
                   Completed(x.Finished(t)), x.Path(t.root), x.content)
  {
  }

  lemma WholeIsNot(x: Transfer, t: Task, disk: map<string, string>, rest: string)
    ensures !Astray(Receiver(x.Finished(t), disk[x.Path(t.root) := x.content], rest),
                    Completed(x.Finished(t)), x.Path(t.root), x.content)
  {
  }

  // ---------------------------------------------------------------- exactly when it arrives

  /** Replication is exact if and only if the trailer at the end of the content is safe from the way the message is cut
      and no trailer inside the content is, whatever the last read brings behind the message. */
  lemma TransferIff(x: Transfer, t: Task, disk: map<string, string>, chunks: seq<string>, rest: string)
    requires x.Sendable() && Idle(t) && Delivers(x, chunks, rest)
    ensures TrailerFirst(x, chunks, rest) <==>
            ReceiveAll(Receiver(t, disk, ""), chunks) == Receiver(x.Finished(t), disk[x.Path(t.root) := x.content], rest)
  {
    hide *;
    if TrailerFirst(x, chunks, rest) {
      SafeTransfer(x, t, disk, chunks, rest);
    } else {
      var y, cuts := x.Body() + rest, Cuts(x, chunks);
      var c := FirstSafeTo(y, x.Trail(), cuts, |x.content| + 1);
      if c <= |x.content| {
        NotAtEnd(x, chunks, rest, c);
        var k, left := EarlyTransfer(x, t, disk, chunks, rest, c);
      } else {
        UnsafeTransfer(x, t, disk, chunks, rest);
        LongerIsOther(x.content, disk, x.Path(t.root));
      }
    }
  }

  lemma NotAtEnd(x: Transfer, chunks: seq<string>, rest: string, c: nat)
    requires !TrailerFirst(x, chunks, rest) && FirstSafe(x.Body() + rest, x.Trail(), Cuts(x, chunks), c)
    ensures c != |x.content|
  {
  }

  /** The first safe trailer before position `n`, or `n` if there is none. */
  lemma FirstSafeTo(y: string, trailer: string, cuts: set<nat>, n: nat) returns (c: nat)
    ensures c <= n && (if c < n then FirstSafe(y, trailer, cuts, c) else NoneSafe(y, trailer, cuts, n))
  {
    hide OccursAt, Safe;
    c := 0;
    while c < n && !(OccursAt(y, trailer, c) && Safe(y, |trailer|, cuts, c))
      invariant c <= n && NoneSafe(y, trailer, cuts, c)
    {
      c := c + 1;
    }
  }

  lemma LongerIsOther(content: string, disk: map<string, string>, path: string)
    ensures !(content + CR <= disk[path := content][path])
  {
  }

  /** For content in which the trailer does not occur, it is enough that no read ends right behind the first byte of the
      trailer. */
  lemma UncutTransfer(x: Transfer, t: Task, disk: map<string, string>, chunks: seq<string>, rest: string)
    requires x.Sendable() && Idle(t) && Delivers(x, chunks, rest)
    requires Find(x.content + x.Trail(), x.Trail(), 0) == |x.content|
    requires forall k :: 0 <= k <= |chunks| ==> End(chunks, k) != |x.Front()| + |x.content| + 1
    ensures ReceiveAll(Receiver(t, disk, ""), chunks)
         == Receiver(x.Finished(t), disk[x.Path(t.root) := x.content], rest)
  {
    hide ReceiveAll, AreaPath, Find, Safe, OccursAt;
    var y, cuts := x.Body() + rest, Cuts(x, chunks);
    UncutIsSafe(y, |x.Trail()|, cuts, |x.content|);
    TrailerAtEnd(x, rest);
    forall p: nat | p < |x.content| ensures !OccursAt(y, x.Trail(), p) { NoEarlyTrailer(x, rest, p); }
    SafeTransfer(x, t, disk, chunks, rest);
  }

  lemma NoEarlyTrailer(x: Transfer, rest: string, p: nat)
    requires Find(x.content + x.Trail(), x.Trail(), 0) == |x.content| && p < |x.content|
    ensures !OccursAt(x.Body() + rest, x.Trail(), p)
  {
    OccursAtWithin(x.Body(), rest, x.Trail(), p);
  }

  /** A message that comes in one read arrives exactly if the trailer does not occur before the end of its content. */
  lemma OneReadIff(x: Transfer, t: Task, disk: map<string, string>, rest: string)
    requires x.Sendable() && Idle(t)
    ensures Find(x.content + x.Trail(), x.Trail(), 0) == |x.content| <==>
            ReceiveAll(Receiver(t, disk, ""), [x.Text() + rest])
            == Receiver(x.Finished(t), disk[x.Path(t.root) := x.content], rest)
  {
    hide ReceiveAll, AreaPath, Find, Safe, OccursAt, Transfer.Finished, Transfer.Path, Transfer.Sendable;
    var chunks, y, c := [x.Text() + rest], x.Body() + rest, |x.content|;
    OneChunk(x.Text() + rest);
    TransferIff(x, t, disk, chunks, rest);
    forall p: nat | OccursAt(y, x.Trail(), p) ensures Safe(y, |x.Trail()|, Cuts(x, chunks), p) {
      assert p + 1 < |y| by { InText(y, x.Trail(), p); }
      assert p + 1 !in Cuts(x, chunks);
      UncutIsSafe(y, |x.Trail()|, Cuts(x, chunks), p);
    }
    TrailerAtEnd(x, rest);
    EarlyIff(x, rest);
  }

  lemma InText(y: string, trailer: string, p: nat)
    requires OccursAt(y, trailer, p) && |trailer| > 1
    ensures p + 1 < |y|
  {
  }

  lemma OneChunk(text: string)
    ensures Flatten([text]) == text && End([text], 0) == 0 && End([text], 1) == |text|
  {
    assert [text][..0] == [] && [text][..1] == [text];
    assert Flatten([text]) == text + Flatten([]);
  }

  lemma EarlyIff(x: Transfer, rest: string)
    ensures Find(x.content + x.Trail(), x.Trail(), 0) == |x.content|
       <==> forall p: nat :: p < |x.content| ==> !OccursAt(x.Body() + rest, x.Trail(), p)
  {
    var c := |x.content|;
    assert OccursAt(x.Body(), x.Trail(), c);
    forall p: nat | p < c ensures OccursAt(x.Body() + rest, x.Trail(), p) <==> OccursAt(x.Body(), x.Trail(), p) {
      OccursAtWithin(x.Body(), rest, x.Trail(), p);
    }
    if forall p: nat :: p < c ==> !OccursAt(x.Body() + rest, x.Trail(), p) {
      FindIs(x.Body(), x.Trail(), 0, c);
    }
  }

  /** An upload whose content begins with its own trailer. */
  const EARLY := Transfer("", "f", "\r\n--b\r\nabc", "b")

  lemma EarlyIs()
    ensures EARLY.Sendable() && EARLY.Trail() == "\r\n--b\r\n" && |EARLY.content| == 10
    ensures EARLY.Body() + "" == EARLY.Body() == "\r\n--b\r\nabc\r\n--b\r\n"
    ensures EARLY.Body()[..0] == "" && EARLY.Body()[7..] == "abc\r\n--b\r\n"
  {
    EarlyTrail();
    EarlyBody("\r\n--b\r\n");
    assert IsWord("f") && IsWord("b");
  }

  lemma EarlyTrail()
    ensures Trailer("b") == "\r\n--b\r\n"
  {
    assert CRLF + "--" == "\r\n--";
    assert "\r\n--" + "b" == "\r\n--b";
  }

  lemma EarlyBody(trail: string)
    requires trail == "\r\n--b\r\n"
    ensures "\r\n--b\r\nabc" + trail == "\r\n--b\r\nabc\r\n--b\r\n"
    ensures "\r\n--b\r\nabc\r\n--b\r\n"[7..] == "abc\r\n--b\r\n"
  {
  }

  lemma EarlyTrailers(p: nat)
    requires p < |EARLY.Body()|
    ensures OccursAt(EARLY.Body(), EARLY.Trail(), p) <==> p == 0 || p == 10
    ensures p < 10 && OccursAt(EARLY.Body(), CRLF, p) ==> p == 0 || p == 5
  {
    EarlyIs();
    EarlyOccurs("\r\n--b\r\nabc\r\n--b\r\n", "\r\n--b\r\n", p);
  }

  lemma EarlyOccurs(y: string, trail: string, p: nat)
    requires y == "\r\n--b\r\nabc\r\n--b\r\n" && trail == "\r\n--b\r\n" && p < |y|
    ensures OccursAt(y, trail, p) <==> p == 0 || p == 10
    ensures p < 10 && OccursAt(y, CRLF, p) ==> p == 0 || p == 5
  {
    OccursCRLF(y, p);
    if OccursAt(y, trail, p) { BeginsWithCRLF(y, trail, p); }
    assert y[p] == '\r' <==> p == 0 || p == 5 || p == 10 || p == 15;
    assert y[0..7] == trail && y[10..17] == trail && y[5..12][2] != trail[2];
  }

  /** In one read the file is cut short, and the rest of the content is left to be taken for messages. */
  lemma EarlyTrailerCutsShort(t: Task, disk: map<string, string>)
    requires Idle(t)
    ensures ReceiveAll(Receiver(t, disk, ""), [EARLY.Text()])
         == Receiver(EARLY.Finished(t), disk[EARLY.Path(t.root) := ""], "abc\r\n--b\r\n")
  {
    hide *;
    var chunks, y := [EARLY.Text()], EARLY.Body();
    EarlyIs();
    OneChunk(EARLY.Text());
    OneCut(EARLY);
    EarlyTrailers(0);
    TextIs(EARLY);
    UncutIsSafe(y, |EARLY.Trail()|, Cuts(EARLY, chunks), 0);
    NoneBefore(y, EARLY.Trail(), Cuts(EARLY, chunks));
    Completes(EARLY, t, disk, chunks, y, 0, 0);
    assert chunks[..1] == chunks;
  }

  lemma TextIs(x: Transfer)
    ensures x.Text() == x.Front() + x.Body()
  {
  }

  lemma NoneBefore(y: string, trailer: string, cuts: set<nat>)
    requires OccursAt(y, trailer, 0) && Safe(y, |trailer|, cuts, 0)
    ensures FirstSafe(y, trailer, cuts, 0)
  {
  }

  lemma OneCut(x: Transfer)
    ensures Cuts(x, [x.Text()]) == {|x.Body()|}
  {
    OneChunk(x.Text());
    assert End([x.Text()], 1) in {|x.Text()|};
    assert |x.Body()| == End([x.Text()], 1) - |x.Front()|;
  }

  /** In two reads that split that trailer it is lost, and the content arrives whole. */
  lemma SplitEarlyTrailerIsHarmless(t: Task, disk: map<string, string>)
    requires Idle(t)
    ensures var k := |EARLY.Front()| + 1;
            ReceiveAll(Receiver(t, disk, ""), [EARLY.Text()[..k], EARLY.Text()[k..]])
            == Receiver(EARLY.Finished(t), disk[EARLY.Path(t.root) := EARLY.content], "")
  {
    hide ReceiveAll, Transfer.Finished, Transfer.Path, Transfer.Front, Flatten, End, OccursAt, Cuts;
    var k := |EARLY.Front()| + 1;
    var chunks := [EARLY.Text()[..k], EARLY.Text()[k..]];
    EarlyIs();
    TwoChunks(EARLY.Text(), k);
    var cuts := Cuts(EARLY, chunks);
    CutIn(EARLY, chunks, 1, 1);
    NoOtherCut(EARLY, chunks);
    forall p: nat | p <= 10 ensures OccursAt(EARLY.Body(), EARLY.Trail(), p) <==> p == 0 || p == 10 { EarlyTrailers(p); }
    SafeTransfer(EARLY, t, disk, chunks, "");
  }

  lemma NoOtherCut(x: Transfer, chunks: seq<string>)
    requires |chunks| == 2 && Flatten(chunks) == x.Text() && End(chunks, 1) == |x.Front()| + 1
    ensures forall m <- Cuts(x, chunks) :: m == 1 || m == |x.Body()|
  {
    hide Flatten, End;
    NoneRead(chunks);
    AllRead(chunks);
    forall j: nat | j <= 2
      ensures End(chunks, j) == 0 || End(chunks, j) == |x.Front()| + 1 || End(chunks, j) == |x.Text()|
    {
    }
  }

  /** For content without a CR it is necessary too that no read ends there: any such message loses its trailer when it is
      cut there. */
  lemma SplitTrailerIsLost(x: Transfer, t: Task, disk: map<string, string>)
    requires x.Sendable() && Idle(t) && '\r' !in x.content
    ensures var k := |x.Front()| + |x.content| + 1;
            var chunks := [x.Text()[..k], x.Text()[k..]];
            && Delivers(x, chunks, "")
            && ReceiveAll(Receiver(t, disk, ""), chunks).task == x.Opened(t).(fileStatus := FILE_HEAD)
  {
    hide ReceiveAll, Flatten, End, Transfer.Front, Cuts;
    var k, c := |x.Front()| + |x.content| + 1, |x.content|;
    var chunks := [x.Text()[..k], x.Text()[k..]];
    TwoChunks(x.Text(), k);
    var cuts := Cuts(x, chunks);
    assert c + 1 in cuts by { CutIn(x, chunks, 1, c + 1); }
    NoneIsSafe(x, cuts);
    Associative(x.Front(), x.Body(), "");
    NeverCompletes(x, t, disk, chunks, x.Body());
  }

  lemma CutIn(x: Transfer, chunks: seq<string>, k: nat, m: nat)
    requires k <= |chunks| && End(chunks, k) == |x.Front()| + m
    ensures m in Cuts(x, chunks)
  {
  }

  lemma NoneIsSafe(x: Transfer, cuts: set<nat>)
    requires '\r' !in x.content && |x.content| + 1 in cuts
    ensures NoneSafe(x.Body(), x.Trail(), cuts, |x.Body()|)
  {
    var y, c := x.Body(), |x.content|;
    forall p: nat | p < c || c + 2 <= p < |y|
      ensures !OccursAt(y, x.Trail(), p)
    {
      if p < c {
        assert y[p] == x.content[p];
      }
    }
    forall p: nat | p < c
      ensures !OccursAt(y, CRLF, p)
    {
      OccursCRLF(y, p);
      assert y[p] == x.content[p];
    }
  }

  lemma TwoChunks(text: string, k: nat)
    requires k <= |text|
    ensures var chunks := [text[..k], text[k..]];
            Flatten(chunks) == text && Flatten(chunks) == text + "" && End(chunks, 1) == k
  {
    var chunks := [text[..k], text[k..]];
    assert chunks[1..] == [text[k..]] && chunks[..1] == [text[..k]];
    assert Flatten([text[k..]]) == text[k..] + Flatten([]) == text[k..];
    assert Flatten([text[..k]]) == text[..k] + Flatten([]) == text[..k];
  }
}
