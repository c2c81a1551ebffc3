/** The sending end of a replication connection: one queued task at a time, printed under partial writes. */
module StorageNodes {
  import opened ByteSearch
  import opened SyncWire
  import opened Buffers

  datatype Status = HANDLE_INIT | HANDLE_HEAD | HANDLE_BODY | HANDLE_COMPLETE
  datatype FileStatus = FILE_BEGIN | FILE_HEAD | FILE_CONTENT | FILE_COMPLETE

  datatype SynPack = SynPack(ringLogId: nat, synLogId: nat, user: string, name: string, isUpload: bool)

  /** A task carries the tag that decides how it is sent: the announcement of a new node, or a change. */
  datatype Task = New | Syn(pack: SynPack)

  /** A file that is open for sending, or none. */
  datatype File = Closed | Open(content: string)
  {
    function Content(): string { if Open? then content else "" }
  }

  /** Sixteen digest bytes in hexadecimal. */
  predicate IsBoundary(b: string) {
    |b| == 32 && forall i :: 0 <= i < |b| ==> b[i] in "0123456789abcdef"
  }

  function LocalPath(root: string, user: string, name: string): string {
    if user == "" then root + "/public/" + name else root + "/private/" + user + "/" + name
  }

  function ToSync(pack: SynPack, content: string): Sync {
    if pack.isUpload then Upload(pack.user, pack.name, content) else Delete(pack.user, pack.name)
  }

  /** A task that has been taken from the queue, its file, the size printed for the file, and the boundary drawn. The
      size is that of the file; for one that cannot be opened it is whatever number stands in the unset record. */
  datatype Taken = Taken(task: Task, file: File, size: nat, boundary: string, port: nat)
  {
    predicate Measured() {
      && (if file.Open? then size == |file.content| else size <= LONG_MAX)
      && (file.Open? ==> task.Syn? && task.pack.isUpload)
    }

    /** The part of the text that is printed into the send buffer first. */
    function Header(): string {
      match task
      case New => "NEW " + Decimal(port) + CRLF
      case Syn(pack) =>
        if pack.isUpload then UploadHead(pack.user, pack.name, size, boundary)
        else Head(Delete(pack.user, pack.name), boundary)
    }

    /** The whole text the task is sent as. */
    function Text(): string {
      if file.Open? then Header() + file.content + Trailer(boundary) else Header()
    }
  }

  /** A change is sent as its message, unless it is the upload of a file that cannot be opened. */
  lemma SentAsMessage(t: Taken)
    requires t.task.Syn? && t.Measured() && (t.task.pack.isUpload ==> t.file.Open?)
    ensures t.Text() == Message(ToSync(t.task.pack, t.file.Content()), t.boundary)
  {
  }

  /** The task in progress, if any. */
  datatype Progress = Nothing | Busy(taken: Taken)
  {
    function Text(): string { if Nothing? then "" else taken.Text() }

    function Tasks(): seq<Task> { if Nothing? then [] else [taken.task] }
  }

  function Texts(done: seq<Taken>): string {
    if done == [] then "" else Texts(done[..|done| - 1]) + done[|done| - 1].Text()
  }

  function Tasks(taken: seq<Taken>): seq<Task> {
    seq(|taken|, i requires 0 <= i < |taken| => taken[i].task)
  }

  /** What is bound as the finish action of a task: nothing, or FinshSyn_ with the places of its two log records. */
  datatype Action = NoAction | FinshSyn(ringLogId: nat, synLogId: nat)

  function ActionOf(task: Task): Action {
    if task.Syn? then FinshSyn(task.pack.ringLogId, task.pack.synLogId) else NoAction
  }

  /** The entries of the sync log that the finished changes were recorded under, and their pages of the ring log. */
  function SynIds(done: seq<Taken>): seq<nat> {
    if done == [] then []
    else
      var task := done[|done| - 1].task;
      SynIds(done[..|done| - 1]) + if task.Syn? then [task.pack.synLogId] else []
  }

  function RingIds(done: seq<Taken>): seq<nat> {
    if done == [] then []
    else
      var task := done[|done| - 1].task;
      RingIds(done[..|done| - 1]) + if task.Syn? then [task.pack.ringLogId] else []
  }

  lemma TextsSnoc(done: seq<Taken>, last: Taken)
    ensures Texts(done + [last]) == Texts(done) + last.Text()
    ensures Tasks(done + [last]) == Tasks(done) + [last.task]
    ensures SynIds(done + [last]) == SynIds(done) + if last.task.Syn? then [last.task.pack.synLogId] else []
    ensures RingIds(done + [last]) == RingIds(done) + if last.task.Syn? then [last.task.pack.ringLogId] else []
  {
    assert (done + [last])[..|done|] == done;
  }

  class StorageNode {
    const root: string
    const taskPort: nat
    const sendBuff: Buffer
    var status: Status
    var fileStatus: FileStatus
    var hasSentLen: nat
    var bodyLen: nat
    var file: File
    var boundary: string
    var taskQue: seq<Task>
    var finshTask: Action
    var wire: string              // every byte the connection has accepted
    var finished: seq<nat>        // entries of the sync log that finish actions have finished
    var freed: seq<nat>           // pages of the ring log that they have freed
    ghost var added: seq<Task>    // every task ever queued
    ghost var done: seq<Taken>    // the tasks finished
    ghost var current: Progress

    /** The file that a task opens, among the files as they are at that time. */
    function FileOf(task: Task, disk: map<string, string>): File {
      if task.Syn? && task.pack.isUpload && LocalPath(root, task.pack.user, task.pack.name) in disk
      then Open(disk[LocalPath(root, task.pack.user, task.pack.name)]) else Closed
    }

    /** What is still to be accepted of the message in progress. */
    ghost function Remaining(): string
      reads this, sendBuff, sendBuff.data
      requires sendBuff.Valid()
    {
      match status
      case HANDLE_HEAD => sendBuff.Pending() + if file.Open? then file.content + Trailer(boundary) else ""
      case HANDLE_BODY =>
        if fileStatus.FILE_HEAD? && file.Open? && hasSentLen <= |file.content|
        then file.content[hasSentLen..] + Trailer(boundary) else sendBuff.Pending()
      case _ => ""
    }

    /** The connection has accepted the messages of the finished tasks, in order, and a prefix of the one in
        progress; finish actions have run for exactly the finished tasks; no task is lost or reordered. */
    ghost predicate Valid()
      reads this, sendBuff, sendBuff.data
    {
      sendBuff.Valid() && Shape() && Books() && wire + Remaining() == Texts(done) + current.Text()
    }

    ghost predicate Books()
      reads this`taskQue, this`current, this`done, this`added, this`finished, this`freed, this`finshTask
    {
      && (current.Busy? ==> Genuine(current.taken) && finshTask == ActionOf(current.taken.task))
      && added == Tasks(done) + (current.Tasks() + taskQue)
      && finished == SynIds(done) && freed == RingIds(done)
    }

    ghost predicate Genuine(taken: Taken) {
      taken.Measured() && taken.port == taskPort && IsBoundary(taken.boundary)
    }

    ghost predicate Shape()
      reads this, sendBuff, sendBuff.data
      requires sendBuff.Valid()
    {
      match status
      case HANDLE_INIT => current.Nothing? && sendBuff.Pending() == "" && file.Closed? && hasSentLen == 0
      case HANDLE_HEAD =>
        && current.Busy? && sendBuff.Pending() != "" && hasSentLen == 0
        && (file.Open? ==> bodyLen == |file.content| && fileStatus.FILE_HEAD?)
      case HANDLE_BODY =>
        && current.Busy? && file.Open? && bodyLen == |file.content|
        && (if fileStatus.FILE_HEAD? then hasSentLen <= bodyLen && sendBuff.Pending() == ""
            else fileStatus.FILE_CONTENT? && sendBuff.Pending() != "")
      case HANDLE_COMPLETE => current.Busy? && sendBuff.Pending() == ""
    }

    constructor (root: string, taskPort: nat)
      ensures Valid() && fresh(sendBuff) && fresh(sendBuff.data)
      ensures this.root == root && this.taskPort == taskPort
      ensures status.HANDLE_INIT? && added == [] && done == [] && wire == "" && taskQue == []
      ensures finished == [] && freed == []
    {
      this.root, this.taskPort := root, taskPort;
      sendBuff := new Buffer(1024);
      status, fileStatus, hasSentLen, bodyLen := HANDLE_INIT, FILE_BEGIN, 0, 0;
      file, boundary, taskQue, finshTask, wire, finished, freed := Closed, "", [], NoAction, "", [], [];
      added, done, current := [], [], Nothing;
    }

    method AddTask(task: Task)
      requires Valid()
      modifies this`taskQue, this`added
      ensures Valid() && taskQue == old(taskQue) + [task] && added == old(added) + [task]
    {
      hide Buffer.Valid, Buffer.Pending, Texts, SynIds, RingIds, Taken.Text;
      taskQue := taskQue + [task];
      added := added + [task];
    }

    /** Queueing a change, as written: it is tagged as the announcement of a new node, so the change is lost. */
    method AddSynPack(pack: SynPack)
      requires Valid()
      modifies this`taskQue, this`added
      ensures Valid() && taskQue == old(taskQue) + [New] && added == old(added) + [New]
    {
      AddTask(New);
    }

    /** What every step of sending keeps: only bytes are added to the connection. */
    twostate predicate Advances()
      reads this, sendBuff, sendBuff.data
    {
      && Valid() && added == old(added) && old(wire) <= wire
      && (sendBuff.data == old(sendBuff.data) || fresh(sendBuff.data))
    }

    method ReadyArea(user: string)
      requires sendBuff.Valid()
      modifies sendBuff, sendBuff.data
      ensures sendBuff.Valid() && (sendBuff.data == old(sendBuff.data) || fresh(sendBuff.data))
      ensures sendBuff.Pending() == old(sendBuff.Pending()) + AreaFields(user)
    {
      hide Buffer.Valid, Buffer.Pending;
      ghost var p := sendBuff.Pending();
      if user == "" {
        sendBuff.Append("pub username ");
      } else {
        sendBuff.Append("pri ");
        sendBuff.Append(user);
        sendBuff.Append(" ");
        assert p + "pri " + user + " " == p + ("pri " + user + " ");
      }
    }

    /** Prints the header of a change. */
    method ReadySyn(pack: SynPack, size: nat, boundary: string)
      requires sendBuff.Valid()
      modifies sendBuff, sendBuff.data
      ensures sendBuff.Valid() && (sendBuff.data == old(sendBuff.data) || fresh(sendBuff.data))
      ensures sendBuff.Pending() == old(sendBuff.Pending()) +
                if pack.isUpload then UploadHead(pack.user, pack.name, size, boundary)
                else Head(Delete(pack.user, pack.name), boundary)
    {
      hide *;
      HeadPieces(sendBuff.Pending(), pack, size, boundary);
      if !pack.isUpload {
        sendBuff.Append("DEL ");
        ReadyArea(pack.user);
        sendBuff.Append(pack.name);
        sendBuff.Append(CRLF);
      } else {
        sendBuff.Append("UPL ");
        ReadyArea(pack.user);
        ReadyFile(pack.name, size, boundary);
      }
    }

    method ReadyFile(name: string, size: nat, boundary: string)
      requires sendBuff.Valid()
      modifies sendBuff, sendBuff.data
      ensures sendBuff.Valid() && (sendBuff.data == old(sendBuff.data) || fresh(sendBuff.data))
      ensures sendBuff.Pending() == old(sendBuff.Pending()) + name + " " + Decimal(size) + " " + boundary + CRLF
                                    + (boundary + "--" + CRLF)
    {
      hide *;
      sendBuff.Append(name);
      sendBuff.Append(" ");
      sendBuff.Append(Decimal(size));
      sendBuff.Append(" ");
      sendBuff.Append(boundary);
      sendBuff.Append(CRLF);
      sendBuff.Append(boundary + "--" + CRLF);
    }

    /** Prints what the buffer sends of a task; the bytes of a file follow from the file itself. */
    method Ready(taken: Taken)
      requires sendBuff.Valid() && sendBuff.Pending() == ""
      modifies sendBuff, sendBuff.data
      ensures sendBuff.Valid() && (sendBuff.data == old(sendBuff.data) || fresh(sendBuff.data))
      ensures sendBuff.Pending() == taken.Header() != ""
    {
      hide Buffer.Valid, Buffer.Pending, Decimal, Head, UploadHead;
      match taken.task {
        case New =>
          sendBuff.Append("NEW " + Decimal(taken.port) + CRLF);
        case Syn(pack) =>
          ReadySyn(pack, taken.size, taken.boundary);
          HeadNotEmpty(pack, taken.size, taken.boundary);
      }
      NothingBefore(taken.Header());
    }

    /** Takes the next task from the queue and prints its header. The file of an upload stays open for sending; if
        it cannot be opened, the header goes out alone. */
    method TakeTask(disk: map<string, string>)
      requires Valid() && status.HANDLE_INIT? && taskQue != []
      modifies this, sendBuff, sendBuff.data
      ensures Advances() && status.HANDLE_HEAD?
      ensures current.Busy? && current.taken.task == old(taskQue)[0] && taskQue == old(taskQue)[1..]
      ensures current.taken.file == FileOf(current.taken.task, disk)
      ensures var task := old(taskQue)[0];
              && (task.Syn? && task.pack.isUpload ==>
                    var p := if task.pack.user == "" then root + "/public/" + task.pack.name
                             else root + "/private/" + task.pack.user + "/" + task.pack.name;
                    current.taken.file == if p in disk then Open(disk[p]) else Closed)
              && (!(task.Syn? && task.pack.isUpload) ==> current.taken.file == Closed)
      ensures done == old(done) && wire == old(wire) && finished == old(finished) && freed == old(freed)
    {
      hide *;
      ghost var task := taskQue[0];
      NextTask(disk);
      FileIs(task, disk);
    }

    method NextTask(disk: map<string, string>)
      requires Valid() && status.HANDLE_INIT? && taskQue != []
      modifies this, sendBuff, sendBuff.data
      ensures Advances() && status.HANDLE_HEAD?
      ensures current.Busy? && current.taken.task == old(taskQue)[0] && taskQue == old(taskQue)[1..]
      ensures current.taken.file == FileOf(current.taken.task, disk)
      ensures done == old(done) && wire == old(wire) && finished == old(finished) && freed == old(freed)
    {
      hide Buffer.Valid, Buffer.Pending, Texts, Trailer, Taken.Text, Taken.Header, StorageNode.Books,
        StorageNode.FileOf;
      assert wire == Texts(done) by { NothingAfter(wire); NothingAfter(Texts(done)); }
      var taken := Dequeue(disk);
      Begin(taken);
    }

    /** The file of a public upload has its name below the public directory, that of a private one below the directory of
        its user. */
    lemma FileIs(task: Task, disk: map<string, string>)
      ensures task.Syn? && task.pack.isUpload ==>
                var p := if task.pack.user == "" then root + "/public/" + task.pack.name
                         else root + "/private/" + task.pack.user + "/" + task.pack.name;
                FileOf(task, disk) == if p in disk then Open(disk[p]) else Closed
      ensures !(task.Syn? && task.pack.isUpload) ==> FileOf(task, disk) == Closed
    {
    }

    method Begin(taken: Taken)
      requires sendBuff.Valid() && sendBuff.Pending() == "" && current == Busy(taken) && taken.Measured()
      requires hasSentLen == 0
      modifies this`boundary, this`file, this`bodyLen, this`status, this`fileStatus, sendBuff, sendBuff.data
      ensures sendBuff.Valid() && (sendBuff.data == old(sendBuff.data) || fresh(sendBuff.data))
      ensures Shape() && status.HANDLE_HEAD? && Remaining() == taken.Text()
    {
      hide Buffer.Valid, Buffer.Pending, Trailer, Taken.Text, Taken.Header;
      Ready(taken);
      boundary, file := taken.boundary, taken.file;
      if taken.task.Syn? && taken.task.pack.isUpload {
        bodyLen := taken.size;
      }
      status, fileStatus := HANDLE_HEAD, FILE_HEAD;
      TextOf(taken);
    }

    method Dequeue(disk: map<string, string>) returns (taken: Taken)
      requires Books() && current.Nothing? && taskQue != []
      modifies this`taskQue, this`current, this`finshTask
      ensures Books() && current == Busy(taken)
      ensures taken.task == old(taskQue)[0] && taskQue == old(taskQue)[1..]
      ensures taken.file == FileOf(taken.task, disk) && taken.Measured()
    {
      hide Tasks, SynIds, RingIds;
      var task := taskQue[0];
      taskQue := taskQue[1..];
      assert [task] + taskQue == [] + old(taskQue);
      var drawn := DrawBoundary();
      var file := FileOf(task, disk);
      var size: nat :| 0 <= size <= LONG_MAX;
      taken := Taken(task, file, if file.Open? then |file.content| else size, drawn, taskPort);
      current := Busy(taken);
      finshTask := ActionOf(task);
    }

    /** One `write` of the send buffer: result 0 when it is empty afterwards, 1 to be called again, 2 to give up. */
    method Send() returns (code: int, io: Io)
      requires Valid() && (status.HANDLE_HEAD? || (status.HANDLE_BODY? && fileStatus.FILE_CONTENT?))
      modifies this`wire, sendBuff`lPos, sendBuff`consumed
      ensures sendBuff.Valid() && old(wire) <= wire && wire + Remaining() == old(wire + Remaining())
      ensures code == if io.Broken? then 2 else if sendBuff.Pending() != "" then 1 else 0
      ensures if io.Moved? then |old(wire)| < |wire| else wire == old(wire) && sendBuff.Pending() != ""
    {
      hide Buffer.Valid, Buffer.Pending, StorageNode.Books, Texts, Trailer, Progress.Text;
      ghost var pending := sendBuff.Pending();
      ghost var tail := if status.HANDLE_HEAD? && file.Open? then file.content + Trailer(boundary) else "";
      var len, accepted := sendBuff.WriteFd();
      PartlySent(wire, pending, |accepted|, tail);
      wire := wire + accepted;
      var left := sendBuff.UnHandleBytes();
      var again: bool := *;
      io := if len > 0 then Moved else if len < 0 && again then WouldBlock else Broken;
      code := if len == 0 || (len < 0 && !again) then 2 else if left > 0 then 1 else 0;
    }

    method SendHead() returns (code: int, io: Io)
      requires Valid() && status.HANDLE_HEAD?
      modifies this, sendBuff`lPos, sendBuff`consumed
      ensures Advances() && done == old(done) && current == old(current) && taskQue == old(taskQue) && 0 <= code <= 2
      ensures finished == old(finished) && freed == old(freed)
      ensures if code == 0 then status.HANDLE_COMPLETE? || (status.HANDLE_BODY? && fileStatus.FILE_HEAD?)
              else status.HANDLE_HEAD?
      ensures code == if io.Broken? then 2 else if status.HANDLE_HEAD? then 1 else 0
    {
      hide Buffer.Valid, Buffer.Pending, StorageNode.Remaining, StorageNode.Books, Texts, Progress.Text;
      code, io := Send();
      if code == 0 {
        HeadSent();
      }
    }

    method HeadSent()
      requires sendBuff.Valid() && sendBuff.Pending() == "" && status.HANDLE_HEAD? && hasSentLen == 0
      requires file.Open? ==> fileStatus.FILE_HEAD?
      modifies this`status
      ensures status == if file.Open? then HANDLE_BODY else HANDLE_COMPLETE
      ensures Remaining() == old(Remaining())
    {
      hide Buffer.Valid, Buffer.Pending, Trailer;
      if file.Open? {
        NothingBefore(file.content + Trailer(boundary));
        status := HANDLE_BODY;
      } else {
        status := HANDLE_COMPLETE;
      }
    }

    /** One `sendfile`. Once the whole file is accepted, the trailer is printed behind it. */
    method SendSome() returns (code: int, io: Io)
      requires Valid() && status.HANDLE_BODY? && fileStatus.FILE_HEAD?
      modifies this`wire, this`hasSentLen, this`fileStatus, sendBuff, sendBuff.data
      ensures Advances() && 0 <= code <= 2 && (fileStatus.FILE_HEAD? || (code == 0 && fileStatus.FILE_CONTENT?))
      ensures code == 0 && fileStatus.FILE_HEAD? ==> old(hasSentLen) < hasSentLen
      ensures code == match io case Moved => 0 case WouldBlock => 1 case Broken => 2
    {
      hide Buffer.Valid, Buffer.Pending, StorageNode.Remaining, StorageNode.Books, Texts, Trailer, Progress.Text;
      var sent: int :| -1 <= sent <= bodyLen - hasSentLen && (sent == 0 ==> hasSentLen == bodyLen);
      if sent == -1 {
        var again: bool := *;
        if again {
          return 1, WouldBlock;
        }
        return 2, Broken;
      }
      FileAccepted(sent);
      code, io := 0, Moved;
      if hasSentLen >= bodyLen {
        PrintTrailer();
      }
    }

    method FileAccepted(sent: nat)
      requires sendBuff.Valid() && sendBuff.Pending() == "" && status.HANDLE_BODY? && fileStatus.FILE_HEAD?
      requires file.Open? && hasSentLen + sent <= |file.content|
      modifies this`wire, this`hasSentLen
      ensures hasSentLen == old(hasSentLen) + sent && old(wire) <= wire
      ensures wire + Remaining() == old(wire + Remaining())
    {
      hide Buffer.Valid, Buffer.Pending, Trailer;
      FileSent(wire, file.content, hasSentLen, sent, Trailer(boundary));
      wire := wire + file.content[hasSentLen..hasSentLen + sent];
      hasSentLen := hasSentLen + sent;
    }

    method PrintTrailer()
      requires sendBuff.Valid() && sendBuff.Pending() == "" && status.HANDLE_BODY? && fileStatus.FILE_HEAD?
      requires file.Open? && hasSentLen == |file.content|
      modifies this`fileStatus, sendBuff, sendBuff.data
      ensures sendBuff.Valid() && (sendBuff.data == old(sendBuff.data) || fresh(sendBuff.data))
      ensures sendBuff.Pending() == Trailer(boundary) != "" && fileStatus.FILE_CONTENT?
      ensures Remaining() == old(Remaining())
    {
      hide Buffer.Valid, Buffer.Pending;
      sendBuff.Append(CRLF + "--" + boundary + CRLF);
      fileStatus := FILE_CONTENT;
    }

    /** `sendfile` until the whole file is accepted or the connection takes no more. The file does not shrink. */
    method SendFile() returns (code: int, io: Io)
      requires Valid() && status.HANDLE_BODY? && fileStatus.FILE_HEAD?
      modifies this`wire, this`hasSentLen, this`fileStatus, sendBuff, sendBuff.data
      ensures Advances() && 0 <= code <= 2 && (code == 0 ==> fileStatus.FILE_CONTENT?)
      ensures code == match io case Moved => 0 case WouldBlock => 1 case Broken => 2
    {
      hide Buffer.Valid, Buffer.Pending, StorageNode.Remaining, StorageNode.Books, Texts, Trailer, Progress.Text;
      code, io := 0, Moved;
      while code == 0 && fileStatus.FILE_HEAD?
        invariant Valid() && (fileStatus.FILE_HEAD? || fileStatus.FILE_CONTENT?)
        invariant 0 <= code <= 2 && old(wire) <= wire
        invariant code == match io case Moved => 0 case WouldBlock => 1 case Broken => 2
        invariant sendBuff.data == old(sendBuff.data) || fresh(sendBuff.data)
        decreases fileStatus.FILE_HEAD?, code == 0, bodyLen - hasSentLen
      {
        code, io := SendSome();
      }
    }

    method SendTrailer() returns (code: int, io: Io)
      requires Valid() && status.HANDLE_BODY? && fileStatus.FILE_CONTENT?
      modifies this, sendBuff`lPos, sendBuff`consumed
      ensures Advances() && done == old(done) && current == old(current) && taskQue == old(taskQue) && 0 <= code <= 2
      ensures finished == old(finished) && freed == old(freed)
      ensures if code == 0 then status.HANDLE_COMPLETE? else status.HANDLE_BODY? && fileStatus.FILE_CONTENT?
      ensures code == if io.Broken? then 2 else if status.HANDLE_BODY? then 1 else 0
    {
      hide Buffer.Valid, Buffer.Pending, StorageNode.Books, Texts, Trailer, Progress.Text;
      code, io := Send();
      if code == 0 {
        status, fileStatus := HANDLE_COMPLETE, FILE_COMPLETE;
      }
    }

    /** The finish action of the task and the reset for the next one. */
    method Finish()
      requires Valid() && status.HANDLE_COMPLETE?
      modifies this
      ensures Advances() && status.HANDLE_INIT?
      ensures done == old(done) + [old(current).taken] && taskQue == old(taskQue) && wire == old(wire)
      ensures finished == old(finished) + match old(current).taken.task case New => [] case Syn(pack) => [pack.synLogId]
      ensures freed == old(freed) + match old(current).taken.task case New => [] case Syn(pack) => [pack.ringLogId]
    {
      hide Buffer.Valid, Buffer.Pending, Texts, Trailer, Progress.Text, StorageNode.Books;
      NothingAfter(wire);
      GiveBack();
      NothingAfter(Texts(done));
      status, fileStatus, hasSentLen, bodyLen, file, boundary := HANDLE_INIT, FILE_BEGIN, 0, 0, Closed, "";
    }

    /** The finish action: for a change, its entry of the sync log is finished and its page of the ring log freed, once;
        for an announcement nothing. */
    method GiveBack()
      requires Books() && current.Busy?
      modifies this`finished, this`freed, this`done, this`current
      ensures Books() && current.Nothing? && done == old(done) + [old(current).taken]
      ensures finished == old(finished) + match old(current).taken.task case New => [] case Syn(pack) => [pack.synLogId]
      ensures freed == old(freed) + match old(current).taken.task case New => [] case Syn(pack) => [pack.ringLogId]
      ensures Texts(done) == old(Texts(done) + current.Text()) && current.Text() == ""
    {
      hide Texts, SynIds, RingIds, Tasks, IsBoundary, Taken.Text, Taken.Measured;
      ghost var task := current.taken.task;
      TextsSnoc(done, current.taken);
      assert Tasks(done) + ([task] + taskQue) == Tasks(done) + [task] + ([] + taskQue);
      if finshTask.FinshSyn? {
        finished := finished + [finshTask.synLogId];
        freed := freed + [finshTask.ringLogId];
      }
      done := done + [current.taken];
      current := Nothing;
    }

    /** One writable event, with the files as they are then: result 0 when a task has been finished, 1 to be called
        again, 2 to close the connection. */
    method WriteProcess(disk: map<string, string>) returns (code: int, io: Io)
      requires Valid() && !status.HANDLE_COMPLETE?
      requires status.HANDLE_INIT? ==> taskQue != []
      modifies this, sendBuff, sendBuff.data
      ensures Advances() && 0 <= code <= 2
      ensures if code == 0 then status.HANDLE_INIT? && |done| == |old(done)| + 1 && done[..|old(done)|] == old(done)
              else done == old(done) && current.Busy?
      ensures var taken := if code == 0 then done[|done| - 1] else current.taken;
              && Genuine(taken)
              && if old(current).Busy? then taken == old(current).taken && taskQue == old(taskQue)
                 else taken.task == old(taskQue)[0] && taskQue == old(taskQue)[1..]
                      && taken.file == FileOf(taken.task, disk)
      ensures !status.HANDLE_COMPLETE? && code == if io.Broken? then 2 else if status.HANDLE_INIT? then 0 else 1
      ensures finished == old(finished) +
                if code != 0 then [] else match done[|done| - 1].task case New => [] case Syn(pack) => [pack.synLogId]
      ensures freed == old(freed) +
                if code != 0 then [] else match done[|done| - 1].task case New => [] case Syn(pack) => [pack.ringLogId]
    {
      hide Buffer.Valid, Buffer.Pending, StorageNode.Remaining, Texts, SynIds, RingIds, Tasks, Trailer, Progress.Text,
        StorageNode.Genuine, StorageNode.FileOf;
      code, io := 0, Moved;
      if status.HANDLE_INIT? {
        TakeTask(disk);
      }
      if status.HANDLE_HEAD? {
        code, io := SendHead();
        if code != 0 {
          return;
        }
      }
      if status.HANDLE_BODY? {
        code, io := SendBody();
        if code != 0 {
          return;
        }
      }
      Finish();
    }

    /** The file, if it is not through yet, and the trailer. */
    method SendBody() returns (code: int, io: Io)
      requires Valid() && status.HANDLE_BODY?
      modifies this, sendBuff, sendBuff.data
      ensures Advances() && done == old(done) && current == old(current) && taskQue == old(taskQue)
      ensures finished == old(finished) && freed == old(freed)
      ensures if code == 0 then status.HANDLE_COMPLETE? else status.HANDLE_BODY?
      ensures code == if io.Broken? then 2 else if status.HANDLE_BODY? then 1 else 0
    {
      hide Buffer.Valid, Buffer.Pending, StorageNode.Remaining, StorageNode.Books, Texts, Trailer, Progress.Text;
      if fileStatus.FILE_HEAD? {
        code, io := SendFile();
        if code != 0 {
          return;
        }
      }
      code, io := SendTrailer();
    }

    method DrawBoundary() returns (b: string)
      ensures IsBoundary(b)
    {
      assert IsBoundary("0123456789abcdef0123456789abcdef");
      b :| IsBoundary(b);
    }
  }

  /** A change queued by `AddSynPack` is never sent: its task prints as the announcement of a node, which is no
      message of any change. */
  lemma MistaggedIsLost(taken: Taken, s: Sync, boundary: string)
    requires taken.task == New && taken.Measured()
    ensures taken.Text() != Message(s, boundary)
  {
    hide Decimal, UploadFields, AreaFields, Trailer;
    assert taken.Text()[0] == 'N';
    assert Message(s, boundary)[0] == if s.Upload? then 'U' else 'D';
  }

  lemma HeadPieces(p: string, pack: SynPack, size: nat, boundary: string)
    ensures p + UploadHead(pack.user, pack.name, size, boundary)
         == p + "UPL " + AreaFields(pack.user) + pack.name + " " + Decimal(size) + " " + boundary + CRLF
            + (boundary + "--" + CRLF)
    ensures p + Head(Delete(pack.user, pack.name), boundary) == p + "DEL " + AreaFields(pack.user) + pack.name + CRLF
  {
    hide AreaFields, Decimal, UploadFields;
    var fields := UploadFields(pack.user, pack.name, size, boundary);
    FieldsPieces(p + "UPL ", pack.user, pack.name, size, boundary);
    LastPieces("UPL " + fields + CRLF, boundary);
    Regroup(p, "UPL ", fields, CRLF, boundary + "--" + CRLF);
    Regroup(p, "DEL ", AreaFields(pack.user), pack.name, CRLF);
  }

  lemma LastPieces(start: string, boundary: string)
    ensures start + boundary + "--" + CRLF == start + (boundary + "--" + CRLF)
  {
    Associative(start, boundary + "--", CRLF);
    Associative(start, boundary, "--");
  }

  lemma FieldsPieces(start: string, user: string, name: string, size: nat, boundary: string)
    ensures start + AreaFields(user) + name + " " + Decimal(size) + " " + boundary
         == start + UploadFields(user, name, size, boundary)
  {
    hide AreaFields, Decimal;
    var area, d := AreaFields(user), Decimal(size);
    Associative(start, area + name + " " + d + " ", boundary);
    Associative(start, area + name + " " + d, " ");
    Associative(start, area + name + " ", d);
    Associative(start, area + name, " ");
    Associative(start, area, name);
  }

  lemma Regroup(p: string, a: string, b: string, c: string, d: string)
    ensures p + a + b + c + d == p + (a + b + c + d)
  {
    Associative(p, a + b + c, d);
    Associative(p, a + b, c);
    Associative(p, a, b);
  }

  /** Bytes move from the send buffer to the connection, and the message stays the same. */
  lemma PartlySent(wire: string, pending: string, n: int, tail: string)
    requires 0 <= n <= |pending|
    ensures wire + pending[..n] + (pending[n..] + tail) == wire + (pending + tail)
    ensures wire + pending[..n] + pending[n..] == wire + pending
  {
    assert pending[..n] + pending[n..] == pending;
    Associative(wire, pending[..n], pending[n..] + tail);
    Associative(pending[..n], pending[n..], tail);
    Associative(wire, pending[..n], pending[n..]);
  }

  lemma FileSent(wire: string, content: string, sent: nat, n: nat, trailer: string)
    requires sent + n <= |content|
    ensures wire + content[sent..sent + n] + (content[sent + n..] + trailer) == wire + (content[sent..] + trailer)
    ensures sent + n == |content| ==> wire + content[sent..sent + n] + trailer == wire + (content[sent..] + trailer)
  {
    assert content[sent..][..n] == content[sent..sent + n] && content[sent..][n..] == content[sent + n..];
    PartlySent(wire, content[sent..], n, trailer);
    NothingBefore(trailer);
  }

  lemma NothingAfter(s: string)
    ensures s + "" == s
  {
  }

  lemma NothingBefore(s: string)
    ensures "" + s == s
  {
  }

  lemma HeadNotEmpty(pack: SynPack, size: nat, boundary: string)
    ensures UploadHead(pack.user, pack.name, size, boundary) != "" && Head(Delete(pack.user, pack.name), boundary) != ""
  {
  }

  lemma TextOf(t: Taken)
    ensures t.Text() == t.Header() + if t.file.Open? then t.file.content + Trailer(t.boundary) else ""
  {
    hide Taken.Header, Trailer;
    NothingAfter(t.Header());
    if t.file.Open? {
      Associative(t.Header(), t.file.content, Trailer(t.boundary));
    }
  }
}
