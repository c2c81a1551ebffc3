/** A sender and a receiver put together: replication of an upload from one storage node to another. */
module Replication {
  import opened ByteSearch
  import opened SyncWire
  import opened CutSafety
  import opened SyncTransfer
  import SR = SyncReceiver
  import opened StorageNodes
  import opened TaskNodes
  import LineTransfer

  lemma BoundaryIsWord(b: string)
    requires IsBoundary(b)
    ensures IsWord(b)
  {
    forall i | 0 <= i < |b|
      ensures !IsSpace(b[i])
    {
      assert b[i] in "0123456789abcdef";
    }
  }

  /** The transfer that a queued upload amounts to. For a file that cannot be opened, its head announces a content
      that never comes; any content of the size announced stands for it. */
  function AsTransfer(t: Taken): Transfer
    requires t.task.Syn?
  {
    Transfer(t.task.pack.user, t.task.pack.name, if t.file.Open? then t.file.content else Filler(t.size), t.boundary)
  }

  function Filler(size: nat): string {
    seq(size, _ => '-')
  }

  lemma TakenText(t: Taken)
    requires t.task.Syn? && t.task.pack.isUpload && t.Measured()
    ensures t.Text() == if t.file.Open? then AsTransfer(t).Text() else AsTransfer(t).Front()
  {
    hide Decimal, AreaFields;
    var x := AsTransfer(t);
    assert x.Front() == t.Header();
    Associative(x.Front(), x.content, x.Trail());
  }

  /** The upload of a file that is missing when its turn comes: the head goes out alone, so the peer's file is emptied,
      and then takes in what is sent next, until a trailer of that head comes that the cuts do not lose. The sender
      counts the task as done. */
  lemma MissingFileEmpties(taken: Taken, t: SR.Task, disk: map<string, string>, chunks: seq<string>, y: string)
    requires taken.task.Syn? && taken.task.pack.isUpload && Printable(taken.task.pack.user, taken.task.pack.name)
    requires taken.file.Closed? && taken.Measured() && IsBoundary(taken.boundary)
    requires Idle(t) && chunks != [] && Flatten(chunks) == taken.Text() + y
    requires NoneSafe(y, Trailer(taken.boundary), Cuts(AsTransfer(taken), chunks), |y|)
    ensures exists e: nat :: e <= |y| < e + |Trailer(taken.boundary)| &&
              SR.ReceiveAll(SR.Receiver(t, disk, ""), chunks) == InBody(AsTransfer(taken), t, disk, y[..e], y[e..])
  {
    hide SR.ReceiveAll, Flatten, NoneSafe, Cuts, IsWord, InBody, Taken.Text, Transfer.Front;
    var x := AsTransfer(taken);
    TakenText(taken);
    BoundaryIsWord(taken.boundary);
    NeverCompletes(x, t, disk, chunks, y);
  }

  lemma SamePlace(root: string, user: string, name: string)
    ensures SR.AreaPath(root, AreaWord(user), UserWord(user), name) == LocalPath(root, user, name)
  {
  }

  /** A queued deletion, however it is read, removes the file of that user and name at the peer and no other. */
  lemma DeletionArrives(taken: Taken, t: SR.Task, disk: map<string, string>, chunks: seq<string>, rest: string)
    requires taken.task.Syn? && !taken.task.pack.isUpload && taken.Measured()
    requires Printable(taken.task.pack.user, taken.task.pack.name)
    requires Idle(t) && chunks != [] && Flatten(chunks) == taken.Text() + rest
    requires End(chunks, |chunks| - 1) < |taken.Text()|
    ensures var pack := taken.task.pack;
            SR.ReceiveAll(SR.Receiver(t, disk, ""), chunks)
            == SR.Receiver(SR.Init(t).(synced := t.synced + [UserWord(pack.user)]),
                           disk - {LocalPath(t.root, pack.user, pack.name)}, rest)
  {
    hide SR.ReceiveAll, SR.AreaPath, LocalPath, Flatten, End, Taken.Text, Message;
    var pack := taken.task.pack;
    SentAsMessage(taken);
    SamePlace(t.root, pack.user, pack.name);
    LineTransfer.DeleteArrives(t, disk, pack.user, pack.name, taken.boundary, chunks, rest);
  }

  /** A change that was queued as the announcement of a node changes no file of the peer, however it is read. */
  lemma MistaggedChangesNothing(taken: Taken, t: SR.Task, disk: map<string, string>, chunks: seq<string>, rest: string)
    requires taken.task == New && taken.Measured()
    requires Idle(t) && chunks != [] && Flatten(chunks) == taken.Text() + rest
    requires End(chunks, |chunks| - 1) < |taken.Text()|
    ensures SR.ReceiveAll(SR.Receiver(t, disk, ""), chunks)
         == SR.Receiver(LineTransfer.Announced(t, taken.port), disk, rest)
  {
    hide LineTransfer.Announced, SR.ReceiveAll, Flatten, End, Decimal;
    LineTransfer.AnnouncementArrives(t, disk, taken.port, chunks, rest);
  }

  /** The receiver does not fail before the read that brings the first safe trailer. */
  lemma NeverFaults(x: Transfer, t: SR.Task, disk: map<string, string>, chunks: seq<string>, rest: string, y: string,
                    c: nat)
    requires x.Sendable() && Idle(t) && rest != "" && x.Front() + y == Flatten(chunks) + rest
    requires NoneSafe(y, x.Trail(), Cuts(x, chunks + [rest]), c) && |Flatten(chunks)| < |x.Front()| + c + |x.Trail()|
    ensures !SR.ReceiveAll(SR.Receiver(t, disk, ""), chunks).task.status.FAULT?
  {
    hide SR.ReceiveAll, Flatten, NoneSafe, IsWord, Transfer.Front;
    var all := chunks + [rest];
    FlattenSnoc(chunks, rest);
    assert all[..|chunks|] == chunks;
    PrefixIsShorter(chunks, rest);
    ReceivePrefix(x, t, disk, all, y, c, |chunks|);
    ExpectedRuns(x, t, disk, y, Cuts(x, all), End(all, |chunks|));
  }

  /** If it fails within one message, then a trailer inside the content has ended the transfer before. */
  lemma FaultIsEarly(x: Transfer, t: SR.Task, disk: map<string, string>, chunks: seq<string>, rest: string)
    requires x.Sendable() && Idle(t) && rest != "" && x.Text() == Flatten(chunks) + rest
    requires SR.ReceiveAll(SR.Receiver(t, disk, ""), chunks).task.status.FAULT?
    ensures EndsEarly(x, chunks, "")
  {
    hide SR.ReceiveAll, Flatten, OccursAt, Safe, Cuts, IsWord, Transfer.Front;
    var y, cuts, len := x.Body(), Cuts(x, chunks), |x.Trail()|;
    NothingAfter(y);
    var c := FirstSafeTo(y, x.Trail(), cuts, |x.content|);
    if c == |x.content| {
      forall p: nat | p < c && OccursAt(y, x.Trail(), p) ensures !Safe(y, len, Cuts(x, chunks + [rest]), p) {
        LastCut(x, chunks, rest);
        SafeAgrees(y, len, cuts, Cuts(x, chunks + [rest]), p);
      }
      NeverFaults(x, t, disk, chunks, rest, y, c);
    }
  }

  /** The last read ends with the message. */
  lemma LastCut(x: Transfer, chunks: seq<string>, rest: string)
    requires x.Text() == Flatten(chunks) + rest
    ensures forall k: nat :: k <= |x.content| ==> (k in Cuts(x, chunks) <==> k in Cuts(x, chunks + [rest]))
  {
    hide Flatten, Transfer.Front;
    var all, n := chunks + [rest], |chunks|;
    FlattenSnoc(chunks, rest);
    forall j: nat | j <= n ensures End(all, j) == End(chunks, j) {
      assert all[..j] == chunks[..j];
    }
    assert End(all, n + 1) == |x.Text()| by { assert all[..n + 1] == all; }
    forall k: nat | k <= |x.content| ensures k in Cuts(x, chunks) <==> k in Cuts(x, all) {
      if k in Cuts(x, all) {
        var j: nat :| j <= n + 1 && |x.Front()| <= End(all, j) && k == End(all, j) - |x.Front()|;
        assert j <= n;
        assert End(chunks, j) == End(all, j);
      }
      if k in Cuts(x, chunks) {
        var j: nat :| j <= n && |x.Front()| <= End(chunks, j) && k == End(chunks, j) - |x.Front()|;
        assert End(chunks, j) == End(all, j);
      }
    }
  }

  lemma PrefixIsShorter(chunks: seq<string>, rest: string)
    requires rest != ""
    ensures End(chunks + [rest], |chunks|) < |Flatten(chunks) + rest|
  {
    assert (chunks + [rest])[..|chunks|] == chunks;
  }

  lemma ExpectedRuns(x: Transfer, t: SR.Task, disk: map<string, string>, y: string, cuts: set<nat>, n: nat)
    requires Idle(t) && n <= |x.Front() + y|
    ensures !Expected(x, t, disk, y, cuts, n).task.status.FAULT?
  {
  }

  /** Between two tasks the connection has accepted exactly the messages of the finished ones. */
  lemma Between(sender: StorageNode)
    requires sender.Valid() && sender.status.HANDLE_INIT?
    ensures sender.wire == Texts(sender.done)
  {
    hide Texts;
    NothingAfter(sender.wire);
    NothingAfter(Texts(sender.done));
  }

  /** Runs writable events of a sender until its next task is done, `rounds` of them at most. */
  method SendNext(sender: StorageNode, files: map<string, string>, rounds: nat)
    returns (sent: bool, text: string, ghost taken: Taken)
    requires sender.Valid() && sender.status.HANDLE_INIT? && sender.taskQue != []
    modifies sender, sender.sendBuff, sender.sendBuff.data
    ensures sender.Valid() && (sender.sendBuff.data == old(sender.sendBuff.data) || fresh(sender.sendBuff.data))
    ensures sent ==> taken.task == old(sender.taskQue[0]) && sender.Genuine(taken) && text == taken.Text()
    ensures sent ==> taken.file == sender.FileOf(taken.task, files) && sender.done == old(sender.done) + [taken]
  {
    hide StorageNode.Valid, Texts, SynIds, RingIds, Taken.Text, StorageNode.Genuine, StorageNode.FileOf;
    var before := |sender.wire|;
    Between(sender);
    BusyIffNotInit(sender);
    taken := Taken(New, Closed, 0, "", 0);
    sent, text := false, "";
    var left, code := rounds, 1;
    while left > 0 && code == 1
      invariant sender.Valid() && !sender.status.HANDLE_COMPLETE?
      invariant sender.sendBuff.data == old(sender.sendBuff.data) || fresh(sender.sendBuff.data)
      invariant sender.status.HANDLE_INIT? <==> !sender.current.Busy?
      invariant if code == 0 then
                  && sender.status.HANDLE_INIT? && sender.done == old(sender.done) + [taken]
                  && taken.task == old(sender.taskQue[0]) && sender.Genuine(taken)
                  && taken.file == sender.FileOf(taken.task, files)
                else
                  && sender.done == old(sender.done)
                  && if sender.current.Busy? then
                       && sender.current.taken.task == old(sender.taskQue[0]) && sender.Genuine(sender.current.taken)
                       && sender.current.taken.file == sender.FileOf(sender.current.taken.task, files)
                     else sender.taskQue == old(sender.taskQue)
      decreases left
    {
      left := left - 1;
      var io;
      code, io := sender.WriteProcess(files);
      if code == 0 {
        taken := sender.done[|sender.done| - 1];
        assert sender.done == sender.done[..|sender.done| - 1] + [taken];
      }
      BusyIffNotInit(sender);
    }
    sent := code == 0;
    if sent {
      Between(sender);
      TextsSnoc(old(sender.done), taken);
      text := sender.wire[before..];
    }
  }

  lemma BusyIffNotInit(sender: StorageNode)
    requires sender.Valid()
    ensures sender.status.HANDLE_INIT? <==> !sender.current.Busy?
  {
  }

  /** Runs readable events of a receiver until everything queued has been read. */
  method ReadAll(receiver: TaskNode, queued: string) returns (rest: string, ghost chunks: seq<string>)
    requires receiver.Valid() && (receiver.task.status.HANDLE_INIT? || receiver.task.status.HANDLE_BODY?)
    modifies receiver, receiver.recvBuff, receiver.recvBuff.data
    ensures receiver.Valid() && queued == Flatten(chunks) + rest
    ensures receiver.State() == SR.ReceiveAll(old(receiver.State()), chunks)
    ensures rest == "" || receiver.task.status.FAULT?
    ensures chunks != [] ==> chunks[|chunks| - 1] != ""
  {
    hide SR.Receive, SR.ReceiveAll, Flatten, TaskNode.Valid;
    rest, chunks := queued, [];
    EmptyRun(receiver.State());
    NothingBefore(queued);
    while rest != "" && !receiver.task.status.FAULT?
      invariant receiver.Valid() && !receiver.task.status.HANDLE_COMPLETE?
      invariant receiver.recvBuff.data == old(receiver.recvBuff.data) || fresh(receiver.recvBuff.data)
      invariant queued == Flatten(chunks) + rest && receiver.State() == SR.ReceiveAll(old(receiver.State()), chunks)
      invariant chunks != [] ==> chunks[|chunks| - 1] != ""
      decreases |rest|
    {
      var completed, len := receiver.OnRead(rest, false);
      FlattenSnoc(chunks, rest[..len]);
      SR.ReceiveAllSnoc(old(receiver.State()), chunks, rest[..len]);
      chunks := chunks + [rest[..len]];
      MovedOn(queued, Flatten(chunks[..|chunks| - 1]), rest, len);
      assert chunks[..|chunks| - 1] + [rest[..len]] == chunks;
      rest := rest[len..];
    }
  }

  /** Replication end to end: a queued upload is printed under partial writes, read back in pieces of any size, and
      the receiver ends with the same area, names and bytes if and only if it reads the whole message, the trailer at
      its end is safe from the cuts, and none inside the content is. It reads the whole message unless a trailer inside
      the content ends the transfer and the bytes behind that make the receiver fail. If the file is missing when its
      turn comes, the task is done all the same, and the receiver's file is empty. */
  method Replicate(sender: StorageNode, files: map<string, string>, receiver: TaskNode, rounds: nat)
    returns (sent: bool, ghost x: Transfer, ghost chunks: seq<string>, ghost here: string, ghost there: string)
    requires sender.Valid() && sender.status.HANDLE_INIT? && sender.taskQue != []
    requires var task := sender.taskQue[0];
             && task.Syn? && task.pack.isUpload && Printable(task.pack.user, task.pack.name)
             && |sender.FileOf(task, files).Content()| <= LONG_MAX
    requires receiver.Valid() && Idle(receiver.task) && receiver.recvBuff.Pending() == ""
    requires sender.sendBuff != receiver.recvBuff && sender.sendBuff.data != receiver.recvBuff.data
    modifies sender, sender.sendBuff, sender.sendBuff.data, receiver, receiver.recvBuff, receiver.recvBuff.data
    ensures sender.Valid() && receiver.Valid()
    ensures var pack := old(sender.taskQue[0]).pack;
            && here == (if pack.user == "" then sender.root + "/public/" + pack.name
                        else sender.root + "/private/" + pack.user + "/" + pack.name)
            && there == (if pack.user == "" then old(receiver.task).root + "/public/" + pack.name
                         else old(receiver.task).root + "/private/" + pack.user + "/" + pack.name)
    ensures sent ==>
              var pack := old(sender.taskQue[0]).pack;
              && x.user == pack.user && x.name == pack.name
              && if here in files then x.content == files[here]
                 else receiver.State() == InBody(x, old(receiver.task), old(receiver.disk), "", "")
                      && receiver.disk == old(receiver.disk)[there := ""]
    ensures sent && here in files ==>
              (Delivers(x, chunks, "") && TrailerFirst(x, chunks, "") <==>
               receiver.State() == SR.Receiver(x.Finished(old(receiver.task)), old(receiver.disk)[there := files[here]], ""))
    ensures sent && here in files ==>
              Delivers(x, chunks, "") || (receiver.task.status.FAULT? && EndsEarly(x, chunks, ""))
  {
    hide StorageNode.Valid, TaskNode.Valid, SR.ReceiveAll, Flatten, TrailerFirst, EndsEarly, Delivers, IsWord,
      Transfer.Finished, Transfer.Path, Transfer.Text, Transfer.Front, Transfer.Trail, Idle, InBody, Taken.Text,
      IsBoundary, StorageNode.FileOf;
    ghost var pack := sender.taskQue[0].pack;
    here := if pack.user == "" then sender.root + "/public/" + pack.name
            else sender.root + "/private/" + pack.user + "/" + pack.name;
    there := if pack.user == "" then receiver.task.root + "/public/" + pack.name
             else receiver.task.root + "/private/" + pack.user + "/" + pack.name;
    sender.FileIs(sender.taskQue[0], files);
    var text;
    ghost var taken;
    sent, text, taken := SendNext(sender, files, rounds);
    x := Transfer("", "", "", "");
    chunks := [];
    if sent {
      x := AsTransfer(taken);
      TakenText(taken);
      BoundaryIsWord(taken.boundary);
      var rest;
      IdleRuns(receiver.task);
      rest, chunks := ReadAll(receiver, text);
      PathIs(x, old(receiver.task), old(receiver.disk));
      if taken.file.Open? {
        Arrived(x, old(receiver.task), old(receiver.disk), chunks, rest);
      } else {
        HeadArrived(x, old(receiver.task), old(receiver.disk), chunks, rest);
      }
    }
  }

  /** Where the receiver puts the file. */
  lemma PathIs(x: Transfer, t: SR.Task, disk: map<string, string>)
    ensures x.Path(t.root) == if x.user == "" then t.root + "/public/" + x.name
                              else t.root + "/private/" + x.user + "/" + x.name
    ensures InBody(x, t, disk, "", "").disk == disk[x.Path(t.root) := ""]
  {
  }

  lemma IdleRuns(t: SR.Task)
    requires Idle(t)
    ensures t.status.HANDLE_INIT?
  {
  }

  lemma Arrived(x: Transfer, t: SR.Task, disk: map<string, string>, chunks: seq<string>, rest: string)
    requires (x.user == "" || IsWord(x.user)) && IsWord(x.name) && IsWord(x.boundary) && |x.content| <= LONG_MAX
    requires Idle(t) && x.Text() == Flatten(chunks) + rest && (chunks != [] ==> chunks[|chunks| - 1] != "")
    requires rest == "" || SR.ReceiveAll(SR.Receiver(t, disk, ""), chunks).task.status.FAULT?
    ensures var q := SR.ReceiveAll(SR.Receiver(t, disk, ""), chunks);
            && (Delivers(x, chunks, "") && TrailerFirst(x, chunks, "") <==>
                q == SR.Receiver(x.Finished(t), disk[x.Path(t.root) := x.content], ""))
            && (Delivers(x, chunks, "") || (q.task.status.FAULT? && EndsEarly(x, chunks, "")))
  {
    hide SR.ReceiveAll, TrailerFirst, EndsEarly, IsWord, Flatten, Transfer.Text, Transfer.Path, End;
    NothingAfter(Flatten(chunks));
    NothingAfter(x.Text());
    if rest != "" {
      FaultIsEarly(x, t, disk, chunks, rest);
      assert !Delivers(x, chunks, "");
    } else {
      SomeText(x, chunks);
      LastIsNew(chunks);
      TransferIff(x, t, disk, chunks, "");
    }
  }

  lemma SomeText(x: Transfer, chunks: seq<string>)
    requires x.Text() == Flatten(chunks)
    ensures chunks != []
  {
  }

  lemma HeadArrived(x: Transfer, t: SR.Task, disk: map<string, string>, chunks: seq<string>, rest: string)
    requires (x.user == "" || IsWord(x.user)) && IsWord(x.name) && IsWord(x.boundary) && |x.content| <= LONG_MAX
    requires Idle(t) && x.Front() == Flatten(chunks) + rest
    requires rest == "" || SR.ReceiveAll(SR.Receiver(t, disk, ""), chunks).task.status.FAULT?
    ensures SR.ReceiveAll(SR.Receiver(t, disk, ""), chunks) == InBody(x, t, disk, "", "")
  {
    hide SR.ReceiveAll, Flatten, Cuts, Safe, OccursAt, IsWord, InBody, Idle, Transfer.Front;
    NothingAfter(Flatten(chunks));
    NothingAfter(x.Front());
    if rest != "" {
      NeverFaults(x, t, disk, chunks, rest, "", 0);
    }
    SomeRead(x, chunks);
    NeverCompletes(x, t, disk, chunks, "");
  }

  lemma SomeRead(x: Transfer, chunks: seq<string>)
    requires x.Front() == Flatten(chunks)
    ensures chunks != []
  {
  }

  lemma LastIsNew(chunks: seq<string>)
    requires chunks != [] && chunks[|chunks| - 1] != ""
    ensures End(chunks, |chunks| - 1) < |Flatten(chunks)|
  {
    var k := |chunks| - 1;
    FlattenSnoc(chunks[..k], chunks[k]);
    assert chunks == chunks[..k] + [chunks[k]];
  }
}
