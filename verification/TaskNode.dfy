/** The receiving end of a replication connection: a read loop that drives a parser over the receive buffer. */
module TaskNodes {
  import opened ByteSearch
  import opened FileScan
  import opened SyncWire
  import opened SyncReceiver
  import opened Buffers

  class TaskNode {
    const recvBuff: Buffer
    var task: Task
    var disk: map<string, string>

    ghost predicate Valid()
      reads this, recvBuff, recvBuff.data
    {
      recvBuff.Valid()
    }

    ghost function State(): Receiver
      reads this, recvBuff, recvBuff.data
      requires Valid()
    {
      Receiver(task, disk, recvBuff.Pending())
    }

    constructor (root: string, disk: map<string, string>, answers: seq<bool>)
      ensures Valid() && fresh(recvBuff) && fresh(recvBuff.data)
      ensures task.status.HANDLE_INIT? && task.fileStatus.FILE_BEGIN? && task.root == root && this.disk == disk
      ensures recvBuff.Pending() == ""
    {
      recvBuff := new Buffer(1024);
      task := Task(root, HANDLE_INIT, FILE_BEGIN, "", "", "", 0, [], [], answers);
      this.disk := disk;
    }

    method ParseHead()
      requires Valid()
      modifies this, recvBuff`lPos, recvBuff`consumed
      ensures Valid() && State() == SyncReceiver.ParseHead(old(State()))
    {
      hide Buffer.Valid, Buffer.Pending, SyncReceiver.DealNew, DealDel, DealUpl, Find, Word;
      var p := recvBuff.Peek();
      var i := Find(p, CRLF, 0);
      if i == |p| {
        return;
      }
      if |p| < 4 {
        task := task.(status := FAULT);
        return;
      }
      var str := p[..3];
      if str != "NEW" && str != "DEL" && str != "UPL" {
        recvBuff.AddHandled(4);
        return;
      }
      if i < 4 {
        task := task.(status := FAULT);
        return;
      }
      recvBuff.AddHandled(4);
      var args := p[4..i];
      recvBuff.AddHandled(i - 4 + 2);
      assert p[4..][i - 2..] == p[i + 2..];
      if str == "NEW" {
        DealNEW(args);
      } else if str == "DEL" {
        DealDEL(args);
        WithRest(Receiver(task, disk, ""), old(task), old(disk), args, p[i + 2..]);
      } else {
        DealUPL(args);
        WithRest(Receiver(task, disk, ""), old(task), old(disk), args, p[i + 2..]);
      }
    }

    /** Connects to a new node. The node is a peer afterwards if that succeeds, and nothing happens if not. */
    method DealNEW(args: string)
      modifies this`task
      ensures task == SyncReceiver.DealNew(old(task), Word(args).word)
      ensures task.status.HANDLE_COMPLETE? && !old(task.status).HANDLE_COMPLETE? ==>
                task.peers == old(task.peers) + [Word(args).word]
      ensures !task.status.HANDLE_COMPLETE? ==> task.(answers := []) == old(task).(answers := [])
    {
      var port := Word(args).word;
      var connected := task.answers != [] && task.answers[0];
      task := task.(answers := if task.answers == [] then [] else task.answers[1..]);
      if connected {
        task := task.(status := HANDLE_COMPLETE, peers := task.peers + [port]);
      }
    }

    /** Removes one file: the one that the arguments name. For printed arguments that is the file of the sender. */
    method DealDEL(args: string)
      modifies this
      ensures Receiver(task, disk, "") == DealDel(old(task), old(disk), args, "")
      ensures exists path :: disk.Keys == old(disk.Keys) - {path} && forall p <- disk :: disk[p] == old(disk)[p]
      ensures forall user, name :: Printable(user, name) && args == AreaFields(user) + name ==>
                && AreaPath(old(task.root), AreaWord(user), UserWord(user), name) !in disk
                && disk == old(disk) - {AreaPath(old(task.root), AreaWord(user), UserWord(user), name)}
                && task.synced == old(task.synced) + [UserWord(user)]
    {
      hide Word, AreaFields, IsWord, AreaPath, AreaWord, UserWord;
      var area := Word(args);
      var user := Word(area.rest);
      var name := Word(user.rest);
      ghost var path := AreaPath(task.root, area.word, user.word, name.word);
      disk := disk - {AreaPath(task.root, area.word, user.word, name.word)};
      assert disk.Keys == old(disk.Keys) - {path};
      task := task.(status := HANDLE_COMPLETE, synced := task.synced + [user.word]);
      forall u, n | Printable(u, n) && args == AreaFields(u) + n
        ensures area.word == AreaWord(u) && user.word == UserWord(u) && name.word == n
      {
        DeleteArgs(u, n);
      }
    }

    /** Opens the file that the arguments name, emptied. For printed arguments that is the file of the sender, and the
        boundary is the one that the sender drew. */
    method DealUPL(args: string)
      modifies this
      ensures Receiver(task, disk, "") == DealUpl(old(task), old(disk), args, "")
      ensures disk == if task.path == "" then old(disk) else old(disk)[task.path := ""]
      ensures forall user, name, size: nat, boundary | Sendable(user, name, size, boundary) &&
                args == UploadFields(user, name, size, boundary) ::
                && task.path == AreaPath(old(task.root), AreaWord(user), UserWord(user), name)
                && task.user == UserWord(user) && task.size == size && task.boundary == boundary
    {
      hide ReadUpload, UploadFields, IsWord, AreaPath, AreaWord, UserWord;
      var u := ReadUpload(args, task.boundary);
      var path := AreaPath(task.root, u.area, u.user, u.name);
      forall user, name, size: nat, boundary | Sendable(user, name, size, boundary) &&
          args == UploadFields(user, name, size, boundary)
        ensures u == UploadArgs(AreaWord(user), UserWord(user), name, size, boundary)
      {
        UploadFieldsRoundTrip(user, name, size, boundary, task.boundary);
      }
      if path != "" {
        disk := disk[path := ""];
      }
      task := task.(status := HANDLE_BODY, path := path, user := u.user, size := u.size, boundary := u.boundary);
    }

    method ParseBegin()
      requires Valid()
      modifies this, recvBuff`lPos, recvBuff`rPos, recvBuff`consumed, recvBuff.data
      ensures Valid() && State() == SyncReceiver.ParseBegin(old(State()))
    {
      var p := recvBuff.Peek();
      var i := Find(p, CRLF, 0);
      if i == |p| {
        return;
      }
      if p[..i] == task.boundary + "--" {
        recvBuff.AddHandled(i + 2);
        task := task.(fileStatus := FILE_HEAD);
      } else {
        recvBuff.AddHandledAll();
        task := Init(task);
      }
    }

    /** Writes to the open file until the trailer or a possible beginning of it is next, or nothing is left. */
    method FlushLoop(trailer: string) returns (done: bool, ghost e: nat)
      requires recvBuff.Valid() && Compatible(CRLF, trailer) && task.path != ""
      modifies this`disk, recvBuff`lPos, recvBuff`consumed
      ensures recvBuff.Valid() && var p := old(recvBuff.Pending());
              && e == Stop(p, CRLF, trailer, 0) && done == OccursAt(p, trailer, e)
              && disk == old(disk)[task.path := (if task.path in old(disk) then old(disk)[task.path] else "") + p[..e]]
              && recvBuff.Pending() == p[e..]
    {
      hide *;
      var file := if task.path in disk then disk[task.path] else "";
      ghost var p0, was := recvBuff.Pending(), file;
      NothingWritten(p0, CRLF, trailer);
      NothingMore(file);
      assert p0[..0] == "" && p0[0..] == p0;
      done, e := false, 0;
      while true
        invariant recvBuff.Valid() && e <= |p0| && recvBuff.Pending() == p0[e..] && !done
        invariant file == was + p0[..e]
        invariant NoStopBefore(p0, CRLF, trailer, e)
        invariant disk == old(disk)
        decreases |p0| - e
      {
        var p := recvBuff.Peek();
        FlushStep(p0, CRLF, trailer, e);
        match Decide(p, CRLF, trailer)
        case Found =>
          done := true;
          break;
        case Wait =>
          break;
        case Write(len) =>
          Associative(was, p0[..e], p[..len]);
          file := file + p[..len];
          recvBuff.AddHandled(len);
          e := e + len;
      }
      disk := disk[task.path := file];
    }

    method ParseBody()
      requires Valid() && task.status.HANDLE_BODY?
      modifies this, recvBuff`lPos, recvBuff`rPos, recvBuff`consumed, recvBuff.data
      ensures Valid()
      ensures var r1 := if old(task.fileStatus).FILE_BEGIN? then SyncReceiver.ParseBegin(old(State())) else old(State());
              State() == if r1.task.status.HANDLE_BODY? && r1.task.fileStatus.FILE_HEAD? then ParseFlush(r1) else r1
    {
      if task.fileStatus.FILE_BEGIN? {
        ParseBegin();
      }
      if task.status.HANDLE_BODY? && task.fileStatus.FILE_HEAD? {
        ParseFile();
      }
    }

    method ParseFile()
      requires Valid()
      modifies this, recvBuff`lPos, recvBuff`consumed
      ensures Valid() && State() == ParseFlush(old(State()))
    {
      hide Stop, Find, Decide, Buffer.Valid, Buffer.Pending;
      var trailer := Trailer(task.boundary);
      var done;
      if task.path != "" {
        ghost var e;
        done, e := FlushLoop(trailer);
      } else {
        var p := recvBuff.Peek();
        assert p[0..] == p;
        DecideSound(p, CRLF, trailer);
        match Decide(p, CRLF, trailer)
        case Found =>
          done := true;
        case Wait =>
          done := false;
        case Write(_) =>
          task := task.(status := FAULT);
          return;
      }
      if done {
        recvBuff.AddHandled(|trailer|);
        task := task.(fileStatus := FILE_COMPLETE, status := HANDLE_COMPLETE, path := "",
                      synced := task.synced + [task.user]);
      }
    }

    /** One turn of the read loop, on a connection with the bytes `queued`. With nothing queued, or if the read fails, it
        changes nothing. */
    method OnRead(queued: string, fails: bool) returns (completed: bool, len: int)
      requires Valid() && (task.status.HANDLE_INIT? || task.status.HANDLE_BODY?)
      modifies this, recvBuff, recvBuff.data
      ensures Valid() && (recvBuff.data == old(recvBuff.data) || fresh(recvBuff.data))
      ensures if fails || queued == "" then
                -1 <= len <= 0 && (fails ==> len == -1) && !completed && State() == old(State())
              else 0 < len <= |queued| && State() == Receive(old(State()), queued[..len])
      ensures completed ==> task.status.HANDLE_INIT?
      ensures !task.status.HANDLE_COMPLETE?
    {
      hide Buffer.Valid, Buffer.Pending, SyncReceiver.ParseHead, SyncReceiver.ParseBegin, ParseFlush;
      len := recvBuff.ReadFd(queued, fails);
      completed := false;
      if len <= 0 {
        NothingMore(old(recvBuff.Pending()));
        return;
      }
      if task.status.HANDLE_INIT? {
        ParseHead();
      }
      if task.status.HANDLE_BODY? {
        ParseBody();
      }
      completed := task.status.HANDLE_COMPLETE?;
      if completed {
        task := Init(task);
      }
    }

    /** The read loop: until a message is completed, or nothing is queued, when the result is 1 to be called again or 2
        to close the connection. `chunks` are the reads it made; `io` is how the last call of `readv` ended. */
    method ReadProcess(queued: string) returns (code: int, rest: string, io: Io, ghost chunks: seq<string>)
      requires Valid() && (task.status.HANDLE_INIT? || task.status.HANDLE_BODY?)
      modifies this, recvBuff, recvBuff.data
      ensures Valid() && queued == Flatten(chunks) + rest && State() == ReceiveAll(old(State()), chunks)
      ensures !task.status.HANDLE_COMPLETE? && code == if task.status.FAULT? || io.Broken? then 2 else 1
      ensures rest != "" && io.Moved? ==> task.status.FAULT? || task.status.HANDLE_INIT?
    {
      hide Buffer.Valid, Buffer.Pending, Receive, ReceiveAll, Flatten;
      code, rest, io, chunks := 2, queued, Moved, [];
      EmptyRun(State());
      NothingLeft(queued);
      while !task.status.FAULT?
        invariant Valid() && !task.status.HANDLE_COMPLETE? && code == 2 && io == Moved
        invariant recvBuff.data == old(recvBuff.data) || fresh(recvBuff.data)
        invariant queued == Flatten(chunks) + rest && State() == ReceiveAll(old(State()), chunks)
        decreases |rest|
      {
        var fails: bool := *;
        var completed, len := OnRead(rest, fails);
        if len <= 0 {
          var again: bool := *;
          io := if len < 0 && again then WouldBlock else Broken;
          code := if len < 0 && again then 1 else 2;
          return;
        }
        ghost var before := chunks;
        FlattenSnoc(before, rest[..len]);
        ReceiveAllSnoc(old(State()), before, rest[..len]);
        MovedOn(queued, Flatten(before), rest, len);
        chunks := chunks + [rest[..len]];
        rest := rest[len..];
        if completed {
          code := 1;
          return;
        }
      }
    }
  }

  ghost predicate Sendable(user: string, name: string, size: nat, boundary: string) {
    Printable(user, name) && IsWord(boundary) && size <= LONG_MAX
  }

  /** What follows a message plays no part in it. */
  lemma WithRest(r: Receiver, t: Task, disk: map<string, string>, args: string, rest: string)
    ensures r == DealDel(t, disk, args, "") ==> Receiver(r.task, r.disk, rest) == DealDel(t, disk, args, rest)
    ensures r == DealUpl(t, disk, args, "") ==> Receiver(r.task, r.disk, rest) == DealUpl(t, disk, args, rest)
  {
  }

  lemma NothingMore(s: string)
    ensures s + "" == s
  {
  }

  lemma NothingLeft(s: string)
    ensures "" + s == s
  {
  }

  lemma MovedOn(queued: string, got: string, rest: string, len: nat)
    requires len <= |rest| && queued == got + rest
    ensures queued == got + rest[..len] + rest[len..]
  {
    assert rest[..len] + rest[len..] == rest;
    Associative(got, rest[..len], rest[len..]);
  }

  lemma EmptyRun(r: Receiver)
    ensures ReceiveAll(r, []) == r && Flatten([]) == ""
  {
  }

  lemma FlattenSnoc(chunks: seq<string>, chunk: string)
    ensures Flatten(chunks + [chunk]) == Flatten(chunks) + chunk
  {
    FlattenSplit(chunks, [chunk]);
    assert Flatten([chunk]) == chunk + Flatten([]);
  }
}
