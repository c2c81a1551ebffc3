/** What a storage node makes of the bytes a peer sends it, read by read, and when a transfer arrives whole. */
module SyncReceiver {
  import opened ByteSearch
  import opened FileScan
  import opened SyncWire
  import opened CutSafety

  /** `FAULT` is where the program fails an assertion, throws, or writes to a file it could not open. */
  datatype Status = HANDLE_INIT | HANDLE_BODY | HANDLE_COMPLETE | FAULT
  datatype FileStatus = FILE_BEGIN | FILE_HEAD | FILE_COMPLETE

  /** `path` is the open file, empty if there is none; `synced` and `peers` list the messages carried out. `answers` is
      what the calls of `connect` to come return, true for success; behind its end they fail. */
  datatype Task = Task(root: string, status: Status, fileStatus: FileStatus, path: string, boundary: string,
                       user: string, size: int, synced: seq<string>, peers: seq<string>, answers: seq<bool>)

  datatype Receiver = Receiver(task: Task, disk: map<string, string>, pending: string)

  function Init(t: Task): Task {
    t.(status := HANDLE_INIT, fileStatus := FILE_BEGIN, size := 0, user := "")
  }

  function AreaPath(root: string, area: string, user: string, name: string): string {
    match area
    case "pub" => root + "/public/" + name
    case "pri" => root + "/private/" + user + "/" + name
    case _ => ""
  }

  /** A new node is connected to. If that fails, the message is dropped, but it does not count as carried out. */
  function DealNew(t: Task, port: string): Task {
    var next := t.(answers := if t.answers == [] then [] else t.answers[1..]);
    if t.answers != [] && t.answers[0] then next.(status := HANDLE_COMPLETE, peers := t.peers + [port]) else next
  }

  function DealDel(t: Task, disk: map<string, string>, args: string, rest: string): Receiver {
    var area := Word(args);
    var user := Word(area.rest);
    var path := AreaPath(t.root, area.word, user.word, Word(user.rest).word);
    Receiver(t.(status := HANDLE_COMPLETE, synced := t.synced + [user.word]), disk - {path}, rest)
  }

  /** The file is created empty, or emptied. */
  function DealUpl(t: Task, disk: map<string, string>, args: string, rest: string): Receiver {
    var u := ReadUpload(args, t.boundary);
    var path := AreaPath(t.root, u.area, u.user, u.name);
    Receiver(t.(status := HANDLE_BODY, path := path, user := u.user, size := u.size, boundary := u.boundary),
             if path == "" then disk else disk[path := ""], rest)
  }

  /** A message starts with three letters and a blank. Of one with an unknown name only these four bytes are dropped. */
  function ParseHead(r: Receiver): Receiver {
    var p := r.pending;
    var i := Find(p, CRLF, 0);
    if i == |p| then r
    else if |p| < 4 then Receiver(r.task.(status := FAULT), r.disk, p)
    else if p[..3] != "NEW" && p[..3] != "DEL" && p[..3] != "UPL" then Receiver(r.task, r.disk, p[4..])
    else if i < 4 then Receiver(r.task.(status := FAULT), r.disk, p)
    else if p[..3] == "NEW" then Receiver(DealNew(r.task, Word(p[4..i]).word), r.disk, p[i + 2..])
    else if p[..3] == "DEL" then DealDel(r.task, r.disk, p[4..i], p[i + 2..])
    else DealUpl(r.task, r.disk, p[4..i], p[i + 2..])
  }

  /** The line that repeats the boundary. A wrong one drops the message and all that was received with it. */
  function ParseBegin(r: Receiver): Receiver {
    var i := Find(r.pending, CRLF, 0);
    if i == |r.pending| then r
    else if r.pending[..i] == r.task.boundary + "--" then
      Receiver(r.task.(fileStatus := FILE_HEAD), r.disk, r.pending[i + 2..])
    else Receiver(Init(r.task), r.disk, "")
  }

  /** One run of the flush loop. */
  function ParseFlush(r: Receiver): Receiver {
    var t, p, trailer := r.task, r.pending, Trailer(r.task.boundary);
    var e := Stop(p, CRLF, trailer, 0);
    if t.path == "" && 0 < e then Receiver(t.(status := FAULT), r.disk, p) else
    var disk := if t.path == "" then r.disk
                else r.disk[t.path := (if t.path in r.disk then r.disk[t.path] else "") + p[..e]];
    if OccursAt(p, trailer, e) then
      Receiver(t.(fileStatus := FILE_COMPLETE, status := HANDLE_COMPLETE, path := "", synced := t.synced + [t.user]),
               disk, p[e + |trailer|..])
    else Receiver(t, disk, p[e..])
  }

  /** The two line stages. */
  function Settle(r: Receiver): Receiver {
    var r1 := if r.task.status.HANDLE_INIT? then ParseHead(r) else r;
    if r1.task.status.HANDLE_BODY? && r1.task.fileStatus.FILE_BEGIN? then ParseBegin(r1) else r1
  }

  function Pass(r: Receiver): Receiver {
    var r1 := Settle(r);
    var r2 := if r1.task.status.HANDLE_BODY? && r1.task.fileStatus.FILE_HEAD? then ParseFlush(r1) else r1;
    if r2.task.status.HANDLE_COMPLETE? then Receiver(Init(r2.task), r2.disk, r2.pending) else r2
  }

  /** One read: at most one message is completed, and then the read loop returns. */
  function Receive(r: Receiver, chunk: string): Receiver {
    if r.task.status.FAULT? then r else Pass(Receiver(r.task, r.disk, r.pending + chunk))
  }

  function ReceiveAll(r: Receiver, chunks: seq<string>): Receiver
    decreases |chunks|
  {
    if chunks == [] then r else ReceiveAll(Receive(r, chunks[0]), chunks[1..])
  }

  lemma {:induction false} ReceiveAllSnoc(r: Receiver, chunks: seq<string>, chunk: string)
    ensures ReceiveAll(r, chunks + [chunk]) == Receive(ReceiveAll(r, chunks), chunk)
    decreases |chunks|
  {
    if chunks == [] {
      assert chunks + [chunk] == [chunk] && [chunk][1..] == [];
    } else {
      ReceiveAllSnoc(Receive(r, chunks[0]), chunks[1..], chunk);
      assert (chunks + [chunk])[1..] == chunks[1..] + [chunk];
    }
  }
}
