/** The upload parser itself: a request object fed by the receive loop of a connection. */
module UploadRequest {
  import opened ByteSearch
  import opened FileScan
  import opened StreamParser
  import opened UploadSpec
  import opened UploadTurns
  import opened Buffers

  /** What one `recv` call returns. */
  datatype Recv = Data(bytes: string) | WouldBlock | Closed | Failed

  class HttpRequest {
    const recvMsg: Buffer
    var info: Info
    var disk: map<string, string>
    var orders: seq<Order>            // the rollback records written

    ghost predicate Valid()
      reads this, recvMsg, recvMsg.data
    {
      recvMsg.Valid()
    }

    ghost function State(): Request<Info>
      reads this, recvMsg, recvMsg.data
      requires Valid()
    {
      Keep(UPLOAD_PROTOCOL, info, disk, recvMsg.Pending())
    }

    constructor (root: string, accounts: map<(string, string), string>, disk: map<string, string>)
      ensures Valid() && fresh(recvMsg) && fresh(recvMsg.data)
      ensures State() == Request(Fresh(root, accounts), disk, "") && orders == []
    {
      recvMsg := new Buffer(1024);
      info := Fresh(root, accounts);
      this.disk, orders := disk, [];
    }

    /** Takes one whole line off the buffer and handles it, if there is one. */
    method NextLine() returns (found: bool)
      requires Valid() && ModeOf(info).ReadLine?
      modifies this`info, recvMsg`lPos, recvMsg`consumed
      ensures Valid() && found == HasLine(old(State()).pending)
      ensures State() == if found then AfterLine(UPLOAD_PROTOCOL, old(State())) else old(State())
      ensures found ==> |recvMsg.Pending()| < old(|recvMsg.Pending()|)
      ensures !found ==> info == old(info)
      ensures old(info.head.HANDLE_BODY?) ==> info.head.HANDLE_BODY?
      ensures found ==> !info.head.HANDLE_INIT?
    {
      hide TakeLine, Buffer.Valid, Buffer.Pending, Find;
      var p := recvMsg.Peek();
      var i := Find(p, CRLF, 0);
      found := i < |p|;
      if found {
        recvMsg.AddHandled(i + 2);
        StageMoves(info, p[..i]);
        info := TakeLine(info, p[..i]);
      }
    }

    /** The request line. */
    method ParseQuestLine()
      requires Valid() && info.head.HANDLE_INIT? && info.outcome.More?
      modifies this`info, recvMsg`lPos, recvMsg`consumed
      ensures Valid() && Run(HEAD_PROTOCOL, State()) == old(Run(HEAD_PROTOCOL, State()))
      ensures info.head.HANDLE_INIT? ==> info.outcome.More? && !HasLine(State().pending)
    {
      hide Run, HasLine, AfterLine, Buffer.Valid, Buffer.Pending;
      ghost var q := State();
      var found := NextLine();
      OneRun(HEAD_PROTOCOL, q);
      if found { SameAfter(q); }
    }

    /** Reads header lines until the empty one, an error, or the end of the pending bytes. */
    method ParseHeadLine()
      requires Valid() && !info.head.HANDLE_INIT?
      modifies this`info, recvMsg`lPos, recvMsg`consumed
      ensures Valid() && Run(HEAD_PROTOCOL, State()) == old(Run(HEAD_PROTOCOL, State()))
      ensures info.outcome.More? && info.head.HANDLE_HEAD? ==> !HasLine(State().pending)
      ensures !info.head.HANDLE_INIT?
    {
      hide Run, HasLine, AfterLine, Buffer.Valid, Buffer.Pending;
      while info.outcome.More? && info.head.HANDLE_HEAD?
        invariant Valid() && Run(HEAD_PROTOCOL, State()) == old(Run(HEAD_PROTOCOL, State()))
        invariant !info.head.HANDLE_INIT?
        decreases |recvMsg.Pending()|
      {
        ghost var q := State();
        var found := NextLine();
        OneRun(HEAD_PROTOCOL, q);
        if !found {
          break;
        }
        SameAfter(q);
      }
    }

    /** Looks up the cookie, and writes the rollback record of this turn. */
    method VerifyAndLog()
      requires Valid()
      modifies this`info, this`orders
      ensures Valid() && State() == Checked(old(State())) && info == Verify(old(info))
      ensures orders == old(orders) + Orders(info)
      ensures info.outcome.Fault? || !(info.behavior.UPLOAD? || info.behavior.DELETE?) ==> orders == old(orders)
      ensures !info.outcome.Fault? && (info.behavior.UPLOAD? || info.behavior.DELETE?) ==>
                |orders| == |old(orders)| + 1
                && var o := orders[|orders| - 1];
                   && (o.isUpload <==> info.behavior.UPLOAD?) && o.file == info.fileName
                   && (info.area.PUBLIC? ==> o.user == "") && (info.area.PRIVATE? ==> o.user == info.userName)
    {
      hide Buffer.Valid, Buffer.Pending;
      VerifyKeeps(info);
      if !info.verified && info.userName != "" && info.passWord != "" {
        if (info.userName, info.passWord) in info.accounts {
          info := info.(userName := info.accounts[(info.userName, info.passWord)], verified := true);
        } else {
          info := info.(userName := "", passWord := "");
        }
      }
      if !info.outcome.Fault? && (info.behavior.UPLOAD? || info.behavior.DELETE?) {
        orders := orders + [Order(info.behavior.UPLOAD?, if info.area.PUBLIC? then "" else info.userName, info.fileName)];
      }
    }

    /** The file part. Its line stages fall through into the flush loop, as far as the pending bytes carry them. */
    method ParseFile()
      requires Valid() && info.head.HANDLE_BODY?
      modifies this`info, this`disk, recvMsg`lPos, recvMsg`consumed
      ensures Valid() && State() == Run(UPLOAD_PROTOCOL, old(State()))
    {
      hide Run, HasLine, AfterLine, Buffer.Valid, Buffer.Pending;
      while ModeOf(info).ReadLine?
        invariant Valid() && info.head.HANDLE_BODY?
        invariant Run(UPLOAD_PROTOCOL, State()) == Run(UPLOAD_PROTOCOL, old(State()))
        decreases |recvMsg.Pending()|
      {
        ghost var q := State();
        var found := NextLine();
        OneRun(UPLOAD_PROTOCOL, q);
        if !found {
          return;
        }
      }
      if ModeOf(info).Flush? {
        ParseContent();
      } else {
        Rests(State());
      }
    }

    /** File content: the flush loop, and the end of the request when it has found the closing delimiter. */
    method ParseContent()
      requires Valid() && ModeOf(info).Flush?
      modifies this`info, this`disk, recvMsg`lPos, recvMsg`consumed
      ensures Valid() && State() == Run(UPLOAD_PROTOCOL, old(State()))
    {
      var done := FlushLoop(FilePath(info), ClosingDelimiter(Get(info.headers, BOUNDARY)));
      if done {
        info := Finish(info);
      }
    }

    /** Every pass through the flush loop but the last writes out at least one byte. */
    method FlushLoop(path: string, delim: string) returns (done: bool)
      requires recvMsg.Valid() && Compatible(CR, delim)
      modifies this`disk, recvMsg`lPos, recvMsg`consumed
      ensures recvMsg.Valid()
      ensures FlushTo(old(disk), path, delim, old(recvMsg.Pending())) == Flushed(disk, recvMsg.Pending(), done)
    {
      hide *;
      var ofs := Get(disk, path);
      ghost var p0, o := recvMsg.Pending(), 0;
      NothingWritten(p0, CR, delim);
      done := false;
      while true
        invariant recvMsg.Valid() && 0 <= o <= |p0| && recvMsg.Pending() == p0[o..]
        invariant disk == old(disk) && ofs == Get(disk, path) + p0[..o]
        invariant NoStopBefore(p0, CR, delim, o)
        decreases |p0| - o
      {
        var p := recvMsg.Peek();
        FlushStep(p0, CR, delim, o);
        match Decide(p, CR, delim)
        case Found =>
          FlushedAt(disk, path, delim, p0, o);
          done := true;
          break;
        case Wait =>
          FlushedAt(disk, path, delim, p0, o);
          break;
        case Write(len) =>
          ofs := ofs + p[..len];
          recvMsg.AddHandled(len);
          o := o + len;
      }
      disk := disk[path := ofs];
    }

    /** The header lines that are there, and the check of the user. */
    method ReadHead()
      requires Valid() && info.outcome.More?
      modifies this`info, this`orders, recvMsg`lPos, recvMsg`consumed
      ensures Valid() && State() == Checked(old(Run(HEAD_PROTOCOL, State()))) && orders == old(orders) + Orders(info)
      ensures HeadMode(info).ReadLine? ==> !HasLine(State().pending)
    {
      hide Run, Plus, HasLine, Verify, Orders, Buffer.Valid, Buffer.Pending;
      if info.head.HANDLE_INIT? {
        ParseQuestLine();
      }
      if info.head.HANDLE_HEAD? {
        ParseHeadLine();
      }
      HeadDone(State());
      VerifyKeeps(info);
      VerifyAndLog();
    }

    /** One turn of the receive loop: a chunk has arrived. */
    method OnData(chunk: string)
      requires Valid() && info.outcome.More?
      modifies this, recvMsg, recvMsg.data
      ensures Valid() && (recvMsg.data == old(recvMsg.data) || fresh(recvMsg.data))
      ensures State() == Turn(old(State()), chunk)
      ensures orders == old(orders) + TurnOrders(old(State()), chunk)
    {
      hide Run, Plus, HasLine, Checked, Orders, Buffer.Valid, Buffer.Pending, FilePath;
      ghost var q := State();
      recvMsg.Append(chunk);
      Appended(q, chunk, info, disk, old(recvMsg.Pending()));
      ReadHead();
      if info.outcome.More? && info.head.HANDLE_BODY? {
        ParseFile();
      } else {
        NoBody(State());
      }
    }

    /** The receive loop. `used` counts the `recv` results taken, `fed` are the chunks among them;
        result 1 asks to be called again. */
    method Process(recvs: seq<Recv>) returns (code: int, used: nat, ghost fed: seq<string>)
      requires Valid() && info.outcome.More?
      requires exists k :: 0 <= k < |recvs| && !recvs[k].Data?
      modifies this, recvMsg, recvMsg.data
      ensures Valid() && 0 < used <= |recvs|
      ensures |fed| == if recvs[used - 1].Data? then used else used - 1
      ensures forall k :: 0 <= k < |fed| ==> recvs[k] == Data(fed[k])
      ensures State() == Turns(old(State()), fed) && orders == old(orders) + AllOrders(old(State()), fed)
      ensures !recvs[used - 1].Data? ==> info.outcome.More? && code == if recvs[used - 1].WouldBlock? then 1 else 2
      ensures recvs[used - 1].Data? ==> !info.outcome.More? && code == if info.outcome.Done? then 0 else 2
    {
      hide Turn, TurnOrders, State;
      used, fed := 0, [];
      while true
        invariant Valid() && info.outcome.More? && used <= |recvs| && |fed| == used
        invariant fresh(recvMsg.data) || recvMsg.data == old(recvMsg.data)
        invariant State() == Turns(old(State()), fed) && orders == old(orders) + AllOrders(old(State()), fed)
        invariant forall k :: 0 <= k < used ==> recvs[k] == Data(fed[k])
        decreases |recvs| - used
      {
        var read := recvs[used];
        used := used + 1;
        match read
        case Closed | Failed =>
          return 2, used, fed;
        case WouldBlock =>
          return 1, used, fed;
        case Data(bytes) =>
          TurnsSnoc(old(State()), fed, bytes);
          AllOrdersSnoc(old(State()), fed, bytes);
          OnData(bytes);
          fed := fed + [bytes];
          if !info.outcome.More? {
            return if info.outcome.Done? then 0 else 2, used, fed;
          }
      }
    }
  }

  lemma FlushedAt(disk: map<string, string>, path: string, delim: string, p: string, e: nat)
    requires e <= |p| && e == Stop(p, CR, delim, 0)
    ensures FlushTo(disk, path, delim, p)
         == Flushed(disk[path := Get(disk, path) + p[..e]], p[e..], OccursAt(p, delim, e))
  {
  }

  /** There is nothing to do for a request that is over or has a body of another type. */
  lemma Rests(q: Request<Info>)
    requires ModeOf(q.info).Pile? || (ModeOf(q.info).Ended? && q.pending == "")
    ensures Run(UPLOAD_PROTOCOL, q) == q
  {
  }

  lemma OneRun<I>(pr: Protocol<I>, q: Request<I>)
    requires pr.mode(q.info).ReadLine?
    ensures Run(pr, q) == if HasLine(q.pending) then Run(pr, AfterLine(pr, q)) else q
  {
  }

  /** Both protocols take lines alike. */
  lemma SameAfter(q: Upload)
    requires HasLine(q.pending)
    ensures AfterLine(UPLOAD_PROTOCOL, q) == AfterLine(HEAD_PROTOCOL, q)
  {
    hide TakeLine, Find;
  }

  lemma Appended(q: Upload, chunk: string, info: Info, disk: map<string, string>, pending: string)
    requires info.outcome.More? && q == Keep(UPLOAD_PROTOCOL, info, disk, pending)
    ensures Keep(UPLOAD_PROTOCOL, info, disk, pending + chunk) == Plus(HEAD_PROTOCOL, q, chunk)
  {
  }

  /** Where the header lines stop. */
  lemma HeadDone(q: Upload)
    requires HeadMode(q.info).ReadLine? ==> !HasLine(q.pending)
    requires HeadMode(q.info).Ended? ==> q.pending == ""
    ensures Run(HEAD_PROTOCOL, q) == q
  {
  }

  /** A turn without a body to read is over. */
  lemma NoBody(q: Upload)
    requires !(q.info.outcome.More? && q.info.head.HANDLE_BODY?)
    requires HeadMode(q.info).ReadLine? ==> !HasLine(q.pending)
    requires HeadMode(q.info).Ended? ==> q.pending == ""
    ensures Run(UPLOAD_PROTOCOL, q) == q
  {
  }

  /** A line never leads back to an earlier stage. */
  lemma StageMoves(q: Info, line: string)
    ensures q.head.HANDLE_BODY? ==> TakeLine(q, line).head.HANDLE_BODY?
    ensures !TakeLine(q, line).head.HANDLE_INIT?
  {
    hide QuestLine, HeadLine, HeadEnd, PartHeadLine, PartHeadEnd, PartLine;
    match q.head
    case HANDLE_INIT => QuestMoves(q, line);
    case HANDLE_HEAD => HeadMoves(q, line);
    case _ => PartStays(q, line);
  }

  lemma QuestMoves(q: Info, line: string)
    ensures !QuestLine(q, line).head.HANDLE_INIT?
  {
    hide Find, SplitFields;
  }

  lemma HeadMoves(q: Info, line: string)
    requires !q.head.HANDLE_INIT?
    ensures !HeadLine(q, line).head.HANDLE_INIT? && !HeadEnd(q).head.HANDLE_INIT?
  {
    hide Find, Stoi;
  }

  lemma PartStays(q: Info, line: string)
    ensures PartLine(q, line).head == PartHeadLine(q, line).head == PartHeadEnd(q).head == q.head
  {
    hide Find;
  }
}
