/** Several messages on one connection: what a number of reads completes. */
module SyncBacklog {
  import opened ByteSearch
  import opened SyncWire
  import opened SyncReceiver
  import opened SyncTransfer
  import LineTransfer

  datatype Msg = Put(x: Transfer) | Drop(user: string, name: string) | Node(port: nat)
  {
    function Text(): string {
      match this
      case Put(x) => x.Text()
      case Drop(user, name) => "DEL " + AreaFields(user) + name + CRLF
      case Node(port) => "NEW " + Decimal(port) + CRLF
    }

    /** The fields come through, and the content does not hold the trailer. */
    ghost predicate Plain() {
      match this
      case Put(x) => x.Sendable() && Find(x.content + x.Trail(), x.Trail(), 0) == |x.content|
      case Drop(user, name) => Printable(user, name)
      case Node(_) => true
    }

    function Task(t: Task): Task {
      match this
      case Put(x) => x.Finished(t)
      case Drop(user, _) => Init(t).(synced := t.synced + [UserWord(user)])
      case Node(port) => LineTransfer.Announced(t, port)
    }

    function Disk(root: string, disk: map<string, string>): map<string, string> {
      match this
      case Put(x) => disk[x.Path(root) := x.content]
      case Drop(user, name) => disk - {AreaPath(root, AreaWord(user), UserWord(user), name)}
      case Node(_) => disk
    }
  }

  function Texts(msgs: seq<Msg>): string {
    if msgs == [] then "" else msgs[0].Text() + Texts(msgs[1..])
  }

  /** What the messages do one after the other. */
  function AllDone(msgs: seq<Msg>, t: Task, disk: map<string, string>, pending: string): Receiver
    decreases |msgs|
  {
    if msgs == [] then Receiver(t, disk, pending)
    else AllDone(msgs[1..], msgs[0].Task(t), msgs[0].Disk(t.root, disk), pending)
  }

  lemma StaysIdle(m: Msg, t: Task)
    requires Idle(t)
    ensures Idle(m.Task(t)) && m.Task(t).root == t.root
  {
  }

  /** A read that finds a whole message carries it out, and no more than that. */
  lemma OnePass(m: Msg, t: Task, disk: map<string, string>, rest: string)
    requires m.Plain() && Idle(t)
    ensures Pass(Receiver(t, disk, m.Text() + rest)) == Receiver(m.Task(t), m.Disk(t.root, disk), rest)
  {
    hide Pass, LineTransfer.Announced, Transfer.Finished, Transfer.Path, Transfer.Text, AreaPath, AreaFields, Decimal, Find;
    match m
    case Put(x) =>
      OneReadIff(x, t, disk, rest);
      OneRead(t, disk, x.Text() + rest);
    case Drop(user, name) => LineTransfer.Removes(t, disk, user, name, rest);
    case Node(port) => LineTransfer.Announces(t, disk, port, rest);
  }

  lemma OneRead(t: Task, disk: map<string, string>, text: string)
    requires Idle(t)
    ensures ReceiveAll(Receiver(t, disk, ""), [text]) == Pass(Receiver(t, disk, text))
  {
    hide Pass;
    assert "" + text == text && [text][1..] == [];
    assert ReceiveAll(Pass(Receiver(t, disk, text)), []) == Pass(Receiver(t, disk, text));
  }

  /** While whole messages are waiting, each read carries out one of them, whatever it brings. */
  lemma {:induction false} Backlog(msgs: seq<Msg>, t: Task, disk: map<string, string>, more: string, chunks: seq<string>)
    requires Idle(t) && (forall m <- msgs :: m.Plain()) && |chunks| <= |msgs|
    ensures ReceiveAll(Receiver(t, disk, Texts(msgs) + more), chunks)
         == AllDone(msgs[..|chunks|], t, disk, Texts(msgs[|chunks|..]) + (more + Flatten(chunks)))
    decreases |chunks|
  {
    hide Pass, Msg.Task, Msg.Disk, Msg.Text, Msg.Plain;
    if chunks == [] {
      assert msgs[..0] == [] && msgs[0..] == msgs && more + "" == more;
    } else {
      var m, left := msgs[0], Texts(msgs[1..]);
      assert m in msgs;
      Associative(m.Text(), left, more);
      Associative(m.Text(), left + more, chunks[0]);
      Associative(left, more, chunks[0]);
      assert !t.status.FAULT?;
      OnePass(m, t, disk, left + (more + chunks[0]));
      StaysIdle(m, t);
      Backlog(msgs[1..], m.Task(t), m.Disk(t.root, disk), more + chunks[0], chunks[1..]);
      Associative(more, chunks[0], Flatten(chunks[1..]));
      assert msgs[..|chunks|][1..] == msgs[1..][..|chunks| - 1];
      assert msgs[1..][|chunks| - 1..] == msgs[|chunks|..];
    }
  }

  /** Messages that come in one read: that read carries out the first, and each further read one more. As long as no
      read comes, the others wait. */
  lemma OnePerRead(msgs: seq<Msg>, t: Task, disk: map<string, string>, more: string, chunks: seq<string>)
    requires Idle(t) && (forall m <- msgs :: m.Plain()) && 0 < |chunks| <= |msgs| && chunks[0] == Texts(msgs) + more
    ensures ReceiveAll(Receiver(t, disk, ""), chunks)
         == AllDone(msgs[..|chunks|], t, disk, Texts(msgs[|chunks|..]) + (more + Flatten(chunks[1..])))
  {
    hide Receive, Texts, AllDone, Msg.Plain;
    var with := [""] + chunks[1..];
    assert with[1..] == chunks[1..];
    assert "" + chunks[0] == chunks[0] && chunks[0] + "" == chunks[0];
    SameRead(t, disk, chunks[0]);
    Backlog(msgs, t, disk, more, with);
    assert Flatten(with) == "" + Flatten(chunks[1..]) == Flatten(chunks[1..]);
  }

  /** Bytes that are waiting might as well come with the next read. */
  lemma SameRead(t: Task, disk: map<string, string>, text: string)
    requires Idle(t)
    ensures Receive(Receiver(t, disk, text), "") == Receive(Receiver(t, disk, ""), text)
  {
    hide Pass;
    assert "" + text == text && text + "" == text;
  }

  /** However the messages are cut, a number of reads completes at most that many of them. */
  lemma {:induction false} AtMostAsMany(r: Receiver, chunks: seq<string>)
    ensures Completed(r.task) <= Completed(ReceiveAll(r, chunks).task) <= Completed(r.task) + |chunks|
    decreases |chunks|
  {
    hide Receive;
    if chunks != [] {
      AtMostOne(r, chunks[0]);
      AtMostAsMany(Receive(r, chunks[0]), chunks[1..]);
    }
  }

  // ---------------------------------------------------------------- transfers in turn

  /** The reads of one transfer, with the bytes that waited before them. */
  function Led(pending: string, chunks: seq<string>): seq<string>
    requires chunks != []
  {
    [pending + chunks[0]] + chunks[1..]
  }

  lemma LedIsSame(t: Task, disk: map<string, string>, pending: string, chunks: seq<string>)
    requires Idle(t) && chunks != []
    ensures ReceiveAll(Receiver(t, disk, pending), chunks) == ReceiveAll(Receiver(t, disk, ""), Led(pending, chunks))
  {
    hide Pass;
    assert "" + (pending + chunks[0]) == pending + chunks[0];
    assert Led(pending, chunks)[1..] == chunks[1..];
  }

  /** The reads fall into groups: the last of each brings the end of one transfer, whose own trailer is the first that the
      cuts do not lose, and what it brings besides is the beginning of the next. `rest` is left at the end. */
  ghost predicate InTurn(xs: seq<Transfer>, groups: seq<seq<string>>, pending: string, rest: string)
    decreases |xs|
  {
    if xs == [] then groups == [] && rest == pending
    else
      && groups != [] && groups[0] != [] && xs[0].Sendable()
      && exists next: string ::
           && Delivers(xs[0], Led(pending, groups[0]), next) && TrailerFirst(xs[0], Led(pending, groups[0]), next)
           && InTurn(xs[1..], groups[1..], next, rest)
  }

  function Join(groups: seq<seq<string>>): seq<string> {
    if groups == [] then [] else groups[0] + Join(groups[1..])
  }

  function Puts(xs: seq<Transfer>): seq<Msg> {
    if xs == [] then [] else [Put(xs[0])] + Puts(xs[1..])
  }

  /** Then all transfers arrive, one after the other, on one connection. */
  lemma {:induction false} TransfersInTurn(xs: seq<Transfer>, groups: seq<seq<string>>, t: Task,
                                           disk: map<string, string>, pending: string, rest: string)
    requires Idle(t) && InTurn(xs, groups, pending, rest)
    ensures ReceiveAll(Receiver(t, disk, pending), Join(groups)) == AllDone(Puts(xs), t, disk, rest)
    decreases |xs|
  {
    hide Receive, Delivers, TrailerFirst, Led, Transfer.Finished, Transfer.Path, Transfer.Sendable;
    if xs != [] {
      var next: string :| Delivers(xs[0], Led(pending, groups[0]), next)
                          && TrailerFirst(xs[0], Led(pending, groups[0]), next)
                          && InTurn(xs[1..], groups[1..], next, rest);
      var g, more := groups[0], Join(groups[1..]);
      LedIsSame(t, disk, pending, g);
      SafeTransfer(xs[0], t, disk, Led(pending, g), next);
      ReceiveSplit(Receiver(t, disk, pending), g + more, |g|);
      assert (g + more)[..|g|] == g && (g + more)[|g|..] == more;
      StaysIdle(Put(xs[0]), t);
      assert ([Put(xs[0])] + Puts(xs[1..]))[1..] == Puts(xs[1..]);
      TransfersInTurn(xs[1..], groups[1..], xs[0].Finished(t), disk[xs[0].Path(t.root) := xs[0].content], next, rest);
    }
  }
}
