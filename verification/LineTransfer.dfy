/** Messages of one line, read in any pieces: the deletion of a file, and the announcement of a node. */
module LineTransfer {
  import opened ByteSearch
  import opened FileScan
  import opened SyncWire
  import opened SyncReceiver
  import T = SyncTransfer

  /** A read that does not complete the line changes nothing but the pending bytes. */
  lemma Waits(t: Task, disk: map<string, string>, line: string, k: nat)
    requires '\r' !in line && T.Idle(t) && k < |line| + 2
    ensures var r := Receiver(t, disk, (line + CRLF)[..k]); Pass(r) == r
  {
    hide Find;
    T.NoLineYet(line, k);
  }

  lemma {:induction false} ReceivePrefix(t: Task, disk: map<string, string>, line: string, chunks: seq<string>,
                                         rest: string, k: nat)
    requires '\r' !in line && T.Idle(t) && k < |chunks|
    requires Flatten(chunks) == line + CRLF + rest && End(chunks, |chunks| - 1) < |line| + 2
    ensures End(chunks, k) <= |Flatten(chunks)|
    ensures ReceiveAll(Receiver(t, disk, ""), chunks[..k]) == Receiver(t, disk, Flatten(chunks)[..End(chunks, k)])
    decreases k
  {
    hide Pass, Flatten, End;
    EndMonotone(chunks, k, |chunks| - 1);
    if k == 0 {
      NothingYet(chunks);
    } else {
      ReceivePrefix(t, disk, line, chunks, rest, k - 1);
      T.TakeSnoc(chunks, k);
      ReceiveAllSnoc(Receiver(t, disk, ""), chunks[..k - 1], chunks[k - 1]);
      ChunkIsSlice(chunks, k - 1);
      T.SliceJoin(Flatten(chunks), 0, End(chunks, k - 1), End(chunks, k));
      Waits(t, disk, line, End(chunks, k));
      assert Flatten(chunks)[..End(chunks, k)] == (line + CRLF)[..End(chunks, k)];
    }
  }

  lemma NothingYet(chunks: seq<string>)
    ensures End(chunks, 0) == 0 && chunks[..0] == []
  {
    assert chunks[..0] == [];
  }

  /** However the line is cut, the receiver does with the read that completes it what it does with the whole line. */
  lemma LineArrives(t: Task, disk: map<string, string>, line: string, chunks: seq<string>, rest: string)
    requires '\r' !in line && T.Idle(t) && chunks != []
    requires Flatten(chunks) == line + CRLF + rest && End(chunks, |chunks| - 1) < |line| + 2
    ensures ReceiveAll(Receiver(t, disk, ""), chunks) == Pass(Receiver(t, disk, line + CRLF + rest))
  {
    hide Pass, Flatten, End;
    var k := |chunks| - 1;
    ReceivePrefix(t, disk, line, chunks, rest, k);
    T.TakeSnoc(chunks, k + 1);
    assert chunks[..k + 1] == chunks;
    ReceiveAllSnoc(Receiver(t, disk, ""), chunks[..k], chunks[k]);
    ChunkIsSlice(chunks, k);
    T.AllRead(chunks);
    T.SliceJoin(Flatten(chunks), 0, End(chunks, k), End(chunks, k + 1));
    assert Flatten(chunks)[..|Flatten(chunks)|] == Flatten(chunks);
  }

  // ---------------------------------------------------------------- the deletion of a file

  lemma DeleteIsLine(user: string, name: string, boundary: string)
    requires Printable(user, name)
    ensures '\r' !in "DEL " + AreaFields(user) + name
    ensures Message(Delete(user, name), boundary) == "DEL " + AreaFields(user) + name + CRLF
  {
    assert IsSpace('\r');
  }

  lemma Removes(t: Task, disk: map<string, string>, user: string, name: string, rest: string)
    requires Printable(user, name) && T.Idle(t)
    ensures Pass(Receiver(t, disk, "DEL " + AreaFields(user) + name + CRLF + rest))
         == Receiver(Init(t).(synced := t.synced + [UserWord(user)]),
                     disk - {AreaPath(t.root, AreaWord(user), UserWord(user), name)}, rest)
  {
    hide Word, IsWord, AreaPath, Find, AreaFields, AreaWord, UserWord;
    var line := "DEL " + AreaFields(user) + name;
    var p := line + CRLF + rest;
    DeleteIsLine(user, name, "");
    FindLineEnd(line, rest);
    assert p[..3] == "DEL" && p[4..|line|] == AreaFields(user) + name && p[|line| + 2..] == rest;
    DeleteArgs(user, name);
  }

  /** However the message is cut, the receiver removes exactly the file named, with the read that brings the last
      byte, and leaves what follows for the next message. */
  lemma DeleteArrives(t: Task, disk: map<string, string>, user: string, name: string, boundary: string,
                      chunks: seq<string>, rest: string)
    requires Printable(user, name) && T.Idle(t) && chunks != []
    requires Flatten(chunks) == Message(Delete(user, name), boundary) + rest
    requires End(chunks, |chunks| - 1) < |Message(Delete(user, name), boundary)|
    ensures ReceiveAll(Receiver(t, disk, ""), chunks)
         == Receiver(Init(t).(synced := t.synced + [UserWord(user)]),
                     disk - {AreaPath(t.root, AreaWord(user), UserWord(user), name)}, rest)
  {
    hide Pass, ReceiveAll, Flatten, End, Printable, Message, AreaFields, AreaPath, AreaWord, UserWord;
    DeleteIsLine(user, name, boundary);
    LineArrives(t, disk, "DEL " + AreaFields(user) + name, chunks, rest);
    Removes(t, disk, user, name, rest);
  }

  // ---------------------------------------------------------------- the announcement of a node

  lemma AnnouncementIsLine(port: nat)
    ensures '\r' !in "NEW " + Decimal(port) && IsWord(Decimal(port))
  {
    assert forall i :: 0 <= i < |Decimal(port)| ==> Decimal(port)[i] in DIGITS;
    assert '\r' !in DIGITS && forall c <- DIGITS :: !IsSpace(c);
  }

  lemma Announces(t: Task, disk: map<string, string>, port: nat, rest: string)
    requires T.Idle(t)
    ensures Pass(Receiver(t, disk, "NEW " + Decimal(port) + CRLF + rest))
         == Receiver(Announced(t, port), disk, rest)
  {
    hide Word, IsWord, Find, Decimal;
    var line := "NEW " + Decimal(port);
    var p := line + CRLF + rest;
    AnnouncementIsLine(port);
    FindLineEnd(line, rest);
    assert p[..3] == "NEW" && p[4..|line|] == Decimal(port) && p[|line| + 2..] == rest;
    WordIs(Decimal(port), "");
    assert Decimal(port) + "" == Decimal(port);
  }

  /** A peer more, if it can be connected to; if not, the receiver stays as idle as it was. */
  function Announced(t: Task, port: nat): Task {
    var next := t.(answers := if t.answers == [] then [] else t.answers[1..]);
    if t.answers != [] && t.answers[0] then Init(next).(peers := t.peers + [Decimal(port)]) else next
  }

  /** The announcement of a node changes no file: it adds a peer if that can be connected to, whatever change it was
      queued for. */
  lemma AnnouncementArrives(t: Task, disk: map<string, string>, port: nat, chunks: seq<string>, rest: string)
    requires T.Idle(t) && chunks != []
    requires Flatten(chunks) == "NEW " + Decimal(port) + CRLF + rest
    requires End(chunks, |chunks| - 1) < |"NEW " + Decimal(port)| + 2
    ensures ReceiveAll(Receiver(t, disk, ""), chunks)
         == Receiver(Announced(t, port), disk, rest)
  {
    hide Announced, Pass, ReceiveAll, Flatten, End, Decimal;
    AnnouncementIsLine(port);
    LineArrives(t, disk, "NEW " + Decimal(port), chunks, rest);
    Announces(t, disk, port, rest);
  }

  // ---------------------------------------------------------------- what is no message

  /** Of a line with an unknown name four bytes are dropped, and the rest is taken for a message. */
  lemma UnknownName(t: Task, disk: map<string, string>, line: string, rest: string)
    requires '\r' !in line && T.Idle(t) && |line| >= 3 && line[..3] !in ["NEW", "DEL", "UPL"]
    ensures Pass(Receiver(t, disk, line + CRLF + rest)) == Receiver(t, disk, (line + CRLF + rest)[4..])
  {
    hide Find;
    FindLineEnd(line, rest);
    assert (line + CRLF + rest)[..3] == line[..3];
  }

  /** A known name with nothing behind it fails, and so does a line that is shorter than a name when nothing follows. */
  lemma NothingBehindName(t: Task, disk: map<string, string>, line: string, rest: string)
    requires T.Idle(t) && (line in ["NEW", "DEL", "UPL"] || ('\r' !in line && |line| < 2 && rest == ""))
    ensures Pass(Receiver(t, disk, line + CRLF + rest)) == Receiver(t.(status := FAULT), disk, line + CRLF + rest)
  {
    hide Find;
    FindLineEnd(line, rest);
    if line in ["NEW", "DEL", "UPL"] { assert (line + CRLF + rest)[..3] == line; }
  }

  /** A line that does not repeat the boundary ends the upload, and drops whatever has been received with it. */
  lemma WrongBoundary(t: Task, disk: map<string, string>, line: string, rest: string)
    requires t.status.HANDLE_BODY? && t.fileStatus.FILE_BEGIN? && '\r' !in line && line != t.boundary + "--"
    ensures Pass(Receiver(t, disk, line + CRLF + rest)) == Receiver(Init(t), disk, "")
  {
    hide Find;
    FindLineEnd(line, rest);
    assert (line + CRLF + rest)[..|line|] == line;
  }

  /** An upload to neither area opens no file, and fails when its first bytes are to be written. */
  lemma NoArea(t: Task, disk: map<string, string>, args: string, rest: string)
    requires Word(args).word !in ["pub", "pri"]
    ensures var r := DealUpl(t, disk, args, rest); r.disk == disk && r.task.path == "" && r.task.status.HANDLE_BODY?
    ensures DealDel(t, disk, args, rest).disk == disk - {""}
  {
    hide Word;
  }

  lemma NoFile(t: Task, disk: map<string, string>, pending: string)
    requires t.status.HANDLE_BODY? && t.fileStatus.FILE_HEAD? && t.path == ""
    requires pending != "" && CRLF[0] !in pending
    ensures Pass(Receiver(t, disk, pending)) == Receiver(t.(status := FAULT), disk, pending)
  {
    forall i | 0 <= i < |pending| ensures !OccursAt(pending, CRLF, i) {
      OccursCRLF(pending, i);
    }
    assert forall i :: 0 <= i < |pending| ==> !IsStop(pending, CRLF, Trailer(t.boundary), i);
    StopIs(pending, CRLF, Trailer(t.boundary), 0, |pending|);
  }
}
