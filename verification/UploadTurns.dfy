/** The turns of the receive loop of an upload request: header lines, the check of the user, and the body. The check
    depends on how much of the header has arrived, so cutting the stream is harmless only if it leaves the cookies
    together. */
module UploadTurns {
  import opened ByteSearch
  import opened FileScan
  import opened StreamParser
  import opened UploadSpec

  type Upload = Request<Info>

  function Checked(q: Upload): Upload { q.(info := Verify(q.info)) }

  /** A chunk has been appended, and the header lines have been read. */
  function Headed(q: Upload, chunk: string): Upload {
    Run(HEAD_PROTOCOL, Plus(HEAD_PROTOCOL, q, chunk))
  }

  function Turn(q: Upload, chunk: string): Upload {
    Run(UPLOAD_PROTOCOL, Checked(Headed(q, chunk)))
  }

  function Turns(q: Upload, chunks: seq<string>): Upload
    decreases |chunks|
  {
    if chunks == [] then q else Turns(Turn(q, chunks[0]), chunks[1..])
  }

  /** The check has been made and has nothing more to do. */
  predicate Stable(q: Upload) { Verify(q.info) == q.info }

  // ---------------------------------------------------------------- cookies

  predicate IsCookie(line: string) {
    var full := line + CRLF;
    var colon := Find(full, ":", 0);
    colon < |full| && full[..colon] == "Cookie"
  }

  /** How many of the header lines that are pending are cookies. */
  function Cookies(q: Upload): nat
    decreases |q.pending|
  {
    if HeadMode(q.info).ReadLine? && HasLine(q.pending) then
      (if q.info.head.HANDLE_HEAD? && IsCookie(q.pending[..Find(q.pending, CRLF, 0)]) then 1 else 0)
      + Cookies(AfterLine(HEAD_PROTOCOL, q))
    else 0
  }

  function CookiesIn(q: Upload, bytes: string): nat { Cookies(Plus(HEAD_PROTOCOL, q, bytes)) }

  /** At most one of the reads brings cookies. */
  ghost predicate CookiesTogether(q: Upload, chunks: seq<string>) {
    forall k :: 0 < k < |chunks| ==>
      || CookiesIn(q, Flatten(chunks[..k])) == 0
      || CookiesIn(q, Flatten(chunks[..k + 1])) == CookiesIn(q, Flatten(chunks[..k]))
  }

  // ---------------------------------------------------------------- the check commutes with other lines

  lemma VerifyTwice(q: Info)
    ensures Verify(Verify(q)) == Verify(q)
  {
  }

  lemma VerifyKeeps(q: Info)
    ensures Verify(q) == q.(userName := Verify(q).userName, passWord := Verify(q).passWord, verified := Verify(q).verified)
    ensures ModeOf(q).Ended? <==> ModeOf(Verify(q)).Ended?
    ensures HeadMode(Verify(q)) == HeadMode(q)
  {
  }

  function Named(q: Info, user: string, pass: string, verified: bool): Info {
    q.(userName := user, passWord := pass, verified := verified)
  }

  predicate SameNames(q: Info, q': Info) {
    q'.userName == q.userName && q'.passWord == q.passWord && q'.verified == q.verified && q'.accounts == q.accounts
  }

  lemma VerifyNames(q: Info, q': Info)
    requires SameNames(q, q')
    ensures var v := Verify(q); Verify(q') == Named(q', v.userName, v.passWord, v.verified)
  {
  }

  /** A line other than a cookie neither reads nor changes what the check is about. */
  lemma LineCommutes(q: Info, line: string)
    requires HeadMode(q).ReadLine? && !(q.head.HANDLE_HEAD? && IsCookie(line))
    ensures TakeLine(Verify(q), line) == Verify(TakeLine(q, line))
  {
    hide QuestLine, HeadEnd, HeadLine, Verify, IsCookie, SameNames;
    var v := Verify(q);
    VerifyKeeps(q);
    assert v == Named(q, v.userName, v.passWord, v.verified);
    if q.head.HANDLE_INIT? {
      QuestFrame(q, line, v.userName, v.passWord, v.verified);
    } else if line == "" {
      EndFrame(q, v.userName, v.passWord, v.verified);
    } else {
      HeadLineFrame(q, line, v.userName, v.passWord, v.verified);
    }
    VerifyNames(q, TakeLine(q, line));
  }

  lemma QuestFrame(q: Info, line: string, user: string, pass: string, verified: bool)
    ensures QuestLine(Named(q, user, pass, verified), line) == Named(QuestLine(q, line), user, pass, verified)
    ensures SameNames(q, QuestLine(q, line))
  {
    hide SplitFields, ParseResource;
    match SplitFields(line)
    case NoMatch =>
    case Fields(m, resource, _) =>
      var meth := if m == "GET" then GET else if m == "POST" then POST else METHOD_OTHER;
      ResourceFrame(q.(head := HANDLE_HEAD, meth := meth), resource, user, pass, verified);
  }

  lemma ResourceFrame(q: Info, r: string, user: string, pass: string, verified: bool)
    ensures ParseResource(Named(q, user, pass, verified), r) == Named(ParseResource(q, r), user, pass, verified)
    ensures SameNames(q, ParseResource(q, r))
  {
    hide Find;
  }

  lemma EndFrame(q: Info, user: string, pass: string, verified: bool)
    ensures HeadEnd(Named(q, user, pass, verified)) == Named(HeadEnd(q), user, pass, verified)
    ensures SameNames(q, HeadEnd(q))
  {
    hide Touch, Get;
  }

  lemma HeadLineFrame(q: Info, line: string, user: string, pass: string, verified: bool)
    requires !IsCookie(line)
    ensures HeadLine(Named(q, user, pass, verified), line) == Named(HeadLine(q, line), user, pass, verified)
    ensures SameNames(q, HeadLine(q, line))
  {
    hide Stoi, Find, ParseCookie, ContentType;
    var full := line + CRLF;
    var colon := Find(full, ":", 0);
    if colon < |full| && full[..colon] == "Content-Type" {
      TypeFrame(q, if colon + 2 <= |line| then line[colon + 2..] else "\n", user, pass, verified);
    }
  }

  lemma TypeFrame(q: Info, value: string, user: string, pass: string, verified: bool)
    ensures ContentType(Named(q, user, pass, verified), value) == Named(ContentType(q, value), user, pass, verified)
    ensures SameNames(q, ContentType(q, value))
  {
    hide Find;
  }

  lemma PlusChecked(q: Upload, b: string)
    ensures Plus(HEAD_PROTOCOL, Checked(q), b) == Checked(Plus(HEAD_PROTOCOL, q, b))
    ensures Plus(HEAD_PROTOCOL, q, b) == Plus(UPLOAD_PROTOCOL, q, b)
  {
    hide Verify;
    VerifyKeeps(q.info);
  }

  lemma AfterChecked(q: Upload)
    requires HeadMode(q.info).ReadLine? && HasLine(q.pending)
    requires !(q.info.head.HANDLE_HEAD? && IsCookie(q.pending[..Find(q.pending, CRLF, 0)]))
    ensures AfterLine(HEAD_PROTOCOL, Checked(q)) == Checked(AfterLine(HEAD_PROTOCOL, q))
  {
    hide Verify, TakeLine, IsCookie, Find;
    var line := q.pending[..Find(q.pending, CRLF, 0)];
    LineCommutes(q.info, line);
    VerifyKeeps(q.info);
    VerifyKeeps(TakeLine(q.info, line));
  }

  /** Without a cookie, checking before the header lines does what checking behind them does. */
  lemma {:induction false} HeadCommutes(q: Upload)
    requires Cookies(q) == 0
    ensures Run(HEAD_PROTOCOL, Checked(q)) == Checked(Run(HEAD_PROTOCOL, q))
    decreases |q.pending|
  {
    hide Verify, TakeLine, IsCookie, HasLine, AfterLine;
    VerifyKeeps(q.info);
    if HeadMode(q.info).ReadLine? && HasLine(q.pending) {
      AfterChecked(q);
      HeadCommutes(AfterLine(HEAD_PROTOCOL, q));
    }
  }

  /** The cookies of two chunks add up. */
  lemma {:induction false} CookiesAdd(q: Upload, b: string)
    ensures Cookies(Plus(HEAD_PROTOCOL, q, b)) == Cookies(q) + Cookies(Plus(HEAD_PROTOCOL, Run(HEAD_PROTOCOL, q), b))
    decreases |q.pending|
  {
    hide TakeLine, IsCookie, HasLine, AfterLine, Find;
    PlusKeeps(HEAD_PROTOCOL, q, b);
    if HeadMode(q.info).ReadLine? && HasLine(q.pending) {
      LineAbsorbs(HEAD_PROTOCOL, q, b);
      SameLine(q, b);
      CookiesAdd(AfterLine(HEAD_PROTOCOL, q), b);
    } else {
      KeptTwice(q, b);
    }
  }

  lemma KeptTwice(q: Upload, b: string)
    requires !(HeadMode(q.info).ReadLine? && HasLine(q.pending))
    ensures Cookies(q) == 0 && Plus(HEAD_PROTOCOL, Run(HEAD_PROTOCOL, q), b) == Plus(HEAD_PROTOCOL, q, b)
  {
  }

  lemma SameLine(q: Upload, b: string)
    requires HeadMode(q.info).ReadLine? && HasLine(q.pending)
    ensures var p := Plus(HEAD_PROTOCOL, q, b).pending; p[..Find(p, CRLF, 0)] == q.pending[..Find(q.pending, CRLF, 0)]
  {
    FindStable(q.pending, b, CRLF, 0);
    assert (q.pending + b)[..Find(q.pending, CRLF, 0)] == q.pending[..Find(q.pending, CRLF, 0)];
  }

  // ---------------------------------------------------------------- two turns

  /** Reading header lines stops at an incomplete line, at the body, or at the end. */
  lemma {:induction false} HeadRests(q: Upload)
    ensures var r := Run(HEAD_PROTOCOL, q);
            && (HeadMode(r.info).ReadLine? ==> !HasLine(r.pending))
            && (HeadMode(r.info).Ended? ==> r.pending == "")
    decreases |q.pending|
  {
    hide TakeLine, HasLine, AfterLine;
    if HeadMode(q.info).ReadLine? && HasLine(q.pending) {
      HeadRests(AfterLine(HEAD_PROTOCOL, q));
    }
  }

  /** Behind the header nothing touches what the check is about. */
  lemma {:induction false} BodyKeeps(q: Upload)
    requires !HeadMode(q.info).ReadLine?
    ensures var r := Run(UPLOAD_PROTOCOL, q);
            && SameNames(q.info, r.info) && !HeadMode(r.info).ReadLine?
            && (HeadMode(r.info).Ended? ==> r.pending == "")
    decreases |q.pending|
  {
    hide HasLine, AfterLine, FlushTo, TakeLine;
    if ModeOf(q.info).ReadLine? && HasLine(q.pending) {
      PartKeeps(q);
      BodyKeeps(AfterLine(UPLOAD_PROTOCOL, q));
    }
  }

  lemma PartKeeps(q: Upload)
    requires !HeadMode(q.info).ReadLine? && ModeOf(q.info).ReadLine? && HasLine(q.pending)
    ensures var i := AfterLine(UPLOAD_PROTOCOL, q).info; SameNames(q.info, i) && !HeadMode(i).ReadLine?
  {
    hide Find, PartLine, PartHeadLine, PartHeadEnd;
    PartFrame(q.info, q.pending[..Find(q.pending, CRLF, 0)]);
  }

  lemma PartFrame(q: Info, line: string)
    ensures SameNames(q, PartLine(q, line)) && PartLine(q, line).head == q.head
    ensures SameNames(q, PartHeadLine(q, line)) && PartHeadLine(q, line).head == q.head
    ensures SameNames(q, PartHeadEnd(q)) && PartHeadEnd(q).head == q.head
  {
    hide Find;
  }

  lemma TurnIsStable(q: Upload, chunk: string)
    ensures Stable(Turn(q, chunk))
  {
    hide Headed, Run, HasLine;
    var v := Checked(Headed(q, chunk));
    VerifyTwice(Headed(q, chunk).info);
    if HeadMode(v.info).ReadLine? {
      HeadOnly(q, chunk);
    } else {
      BodyKeeps(v);
    }
  }

  /** As long as the header is not complete, a turn is over with the check. */
  lemma HeadOnly(q: Upload, chunk: string)
    requires HeadMode(Headed(q, chunk).info).ReadLine?
    ensures Turn(q, chunk) == Checked(Headed(q, chunk))
  {
    hide Verify, HasLine;
    HeadRests(Plus(HEAD_PROTOCOL, q, chunk));
    VerifyKeeps(Headed(q, chunk).info);
  }

  lemma HeadOver(q: Upload, b: string)
    requires !HeadMode(q.info).ReadLine?
    ensures Headed(q, b) == Plus(HEAD_PROTOCOL, q, b) == Plus(UPLOAD_PROTOCOL, q, b)
  {
  }

  lemma HeadedOn(q: Upload, a: string, b: string)
    ensures Headed(q, a + b) == Run(HEAD_PROTOCOL, Plus(HEAD_PROTOCOL, Headed(q, a), b))
    ensures CookiesIn(q, a + b) == CookiesIn(q, a) + Cookies(Plus(HEAD_PROTOCOL, Headed(q, a), b))
  {
    hide Run, Plus;
    UploadTerminates();
    PlusPlus(HEAD_PROTOCOL, q, a, b);
    RunAbsorbs(HEAD_PROTOCOL, Plus(HEAD_PROTOCOL, q, a), b);
    CookiesAdd(Plus(HEAD_PROTOCOL, q, a), b);
  }

  /** Two turns do what one does with the bytes of both, unless both bring cookies. */
  lemma TwoTurns(q: Upload, a: string, b: string)
    requires Stable(q) && (CookiesIn(q, a) == 0 || CookiesIn(q, a + b) == CookiesIn(q, a))
    ensures Turn(Turn(q, a), b) == Turn(q, a + b)
  {
    hide Headed, Turn, HeadMode;
    HeadedOn(q, a, b);
    if HeadMode(Headed(q, a).info).ReadLine? {
      TurnsInHead(q, a, b);
    } else {
      TurnsInBody(q, a, b);
    }
  }

  lemma TurnsInHead(q: Upload, a: string, b: string)
    requires HeadMode(Headed(q, a).info).ReadLine? && Stable(q)
    requires CookiesIn(q, a) == 0 || CookiesIn(q, a + b) == CookiesIn(q, a)
    ensures Turn(Turn(q, a), b) == Turn(q, a + b)
  {
    hide Run, Verify, Cookies, Plus, HeadMode;
    var h := Headed(q, a);
    HeadOnly(q, a);
    HeadedOn(q, a, b);
    PlusChecked(h, b);
    if CookiesIn(q, a) == 0 {
      PlusChecked(q, a);
      assert Checked(q) == q;
      HeadCommutes(Plus(HEAD_PROTOCOL, q, a));
      assert Checked(h) == h;
    } else {
      HeadCommutes(Plus(HEAD_PROTOCOL, h, b));
      VerifyTwice(Run(HEAD_PROTOCOL, Plus(HEAD_PROTOCOL, h, b)).info);
    }
  }

  lemma TurnsInBody(q: Upload, a: string, b: string)
    requires !HeadMode(Headed(q, a).info).ReadLine?
    ensures Turn(Turn(q, a), b) == Turn(q, a + b)
  {
    hide Run, Verify, Cookies, Plus, HeadMode;
    var h := Headed(q, a);
    var v, w := Checked(h), Turn(q, a);
    VerifyKeeps(h.info);
    BodyKeeps(v);
    TurnIsStable(q, a);
    HeadOver(w, b);
    PlusKeeps(UPLOAD_PROTOCOL, w, b);
    UploadTerminates();
    RunAbsorbs(UPLOAD_PROTOCOL, v, b);
    HeadedOn(q, a, b);
    HeadOver(h, b);
    PlusChecked(h, b);
    PlusChecked(v, b);
    RunHeadOver(h, b);
  }

  lemma RunHeadOver(h: Upload, b: string)
    requires !HeadMode(h.info).ReadLine?
    ensures Run(HEAD_PROTOCOL, Plus(HEAD_PROTOCOL, h, b)) == Plus(HEAD_PROTOCOL, h, b)
  {
  }

  // ---------------------------------------------------------------- any number of turns

  lemma {:induction false} TurnsSnoc(q: Upload, chunks: seq<string>, chunk: string)
    ensures Turns(q, chunks + [chunk]) == Turn(Turns(q, chunks), chunk)
    decreases |chunks|
  {
    hide Turn;
    if chunks == [] {
      assert chunks + [chunk] == [chunk] && [chunk][1..] == [];
    } else {
      TurnsSnoc(Turn(q, chunks[0]), chunks[1..], chunk);
      assert (chunks + [chunk])[1..] == chunks[1..] + [chunk];
    }
  }

  lemma {:induction false} TurnsTo(q: Upload, chunks: seq<string>, k: nat)
    requires Stable(q) && CookiesTogether(q, chunks) && 0 < k <= |chunks|
    ensures Turns(q, chunks[..k]) == Turn(q, Flatten(chunks[..k]))
    decreases k
  {
    hide Turn, CookiesIn, Stable, Flatten;
    assert chunks[..k] == chunks[..k - 1] + [chunks[k - 1]];
    TurnsSnoc(q, chunks[..k - 1], chunks[k - 1]);
    FlattenLast(chunks[..k - 1], chunks[k - 1]);
    if k == 1 {
      assert chunks[..0] == [];
      FlattenNone();
      assert "" + chunks[0] == chunks[0];
    } else {
      TurnsTo(q, chunks, k - 1);
      TwoTurns(q, Flatten(chunks[..k - 1]), chunks[k - 1]);
    }
  }

  lemma FlattenNone()
    ensures Flatten([]) == ""
  {
  }

  lemma FlattenLast(chunks: seq<string>, chunk: string)
    ensures Flatten(chunks + [chunk]) == Flatten(chunks) + chunk
  {
    FlattenSplit(chunks, [chunk]);
    assert Flatten([chunk]) == chunk + Flatten([]);
  }

  /** If at most one read brings cookies, the turns do what one turn does with all the bytes. */
  lemma TurnsAreOne(q: Upload, chunks: seq<string>)
    requires Stable(q) && CookiesTogether(q, chunks) && chunks != []
    ensures Turns(q, chunks) == Turn(q, Flatten(chunks))
  {
    hide Turn, CookiesTogether, Stable;
    TurnsTo(q, chunks, |chunks|);
    assert chunks[..|chunks|] == chunks;
  }

  /** Split independence of an upload: any two ways of cutting it that leave its cookies in one read end in the same
      result, headers, names and files. */
  lemma SplitIndependence(q: Upload, chunks: seq<string>, chunks': seq<string>)
    requires Stable(q) && chunks != [] && chunks' != [] && Flatten(chunks) == Flatten(chunks')
    requires CookiesTogether(q, chunks) && CookiesTogether(q, chunks')
    ensures Turns(q, chunks) == Turns(q, chunks')
  {
    hide *;
    TurnsAreOne(q, chunks);
    TurnsAreOne(q, chunks');
  }

  /** With one cookie at most, every way of cutting does. */
  lemma OneCookieIsTogether(q: Upload, chunks: seq<string>)
    requires CookiesIn(q, Flatten(chunks)) <= 1
    ensures CookiesTogether(q, chunks)
  {
    hide Flatten, CookiesIn;
    forall k | 0 < k < |chunks|
      ensures CookiesIn(q, Flatten(chunks[..k])) == 0
           || CookiesIn(q, Flatten(chunks[..k + 1])) == CookiesIn(q, Flatten(chunks[..k]))
    {
      MoreCookies(q, chunks[..k], chunks[k..k + 1]);
      assert chunks[..k] + chunks[k..k + 1] == chunks[..k + 1];
      MoreCookies(q, chunks[..k + 1], chunks[k + 1..]);
      assert chunks[..k + 1] + chunks[k + 1..] == chunks;
    }
  }

  lemma MoreCookies(q: Upload, a: seq<string>, b: seq<string>)
    ensures CookiesIn(q, Flatten(a)) <= CookiesIn(q, Flatten(a + b))
  {
    hide Flatten, CookiesIn, Headed;
    FlattenSplit(a, b);
    HeadedOn(q, Flatten(a), Flatten(b));
  }

  // ---------------------------------------------------------------- the body

  lemma BodyTurn(q: Upload, chunk: string)
    requires Stable(q) && !HeadMode(q.info).ReadLine?
    ensures Turn(q, chunk) == Feed(UPLOAD_PROTOCOL, q, chunk)
    ensures Stable(Turn(q, chunk)) && !HeadMode(Turn(q, chunk).info).ReadLine?
  {
    hide Verify, Run;
    HeadOver(q, chunk);
    PlusKeeps(UPLOAD_PROTOCOL, q, chunk);
    TurnIsStable(q, chunk);
    BodyKeeps(Plus(UPLOAD_PROTOCOL, q, chunk));
  }

  /** In the body, turns are the parser of the stream and nothing else. */
  lemma {:induction false} BodyTurns(q: Upload, chunks: seq<string>)
    requires Stable(q) && !HeadMode(q.info).ReadLine?
    ensures Turns(q, chunks) == FeedAll(UPLOAD_PROTOCOL, q, chunks)
    decreases |chunks|
  {
    hide Turn, Feed, Stable, HeadMode;
    if chunks != [] {
      BodyTurn(q, chunks[0]);
      BodyTurns(Turn(q, chunks[0]), chunks[1..]);
    }
  }

  /** The body of an upload is split at the first occurrence of its closing delimiter, however it is cut. */
  lemma UploadSplit(q: Upload, chunks: seq<string>)
    requires chunks != [] && q.pending == "" && ModeOf(q.info).Flush? && Stable(q)
    ensures var Flush(path, boundary) := ModeOf(q.info);
            var body, delim := Flatten(chunks), ClosingDelimiter(boundary);
            var at, was := Find(body, delim, 0), Get(q.disk, path);
            Turns(q, chunks) ==
            if at < |body| then Request(Finish(q.info), q.disk[path := was + body[..at]], "")
            else Request(q.info, q.disk[path := was + body[..HoldFrom(body, delim)]], body[HoldFrom(body, delim)..])
  {
    hide Turns, FeedAll, Find, HoldFrom, Stable, Flatten, Finish, ClosingDelimiter, FilePath;
    assert !HeadMode(q.info).ReadLine?;
    BodyTurns(q, chunks);
    UploadTerminates();
    BodySplit(UPLOAD_PROTOCOL, q, chunks);
  }

  // ---------------------------------------------------------------- rollback records

  /** What a rollback record says: the change, the user, none for the public area, and the file. */
  datatype Order = Order(isUpload: bool, user: string, file: string)

  /** Every turn writes one for an upload or a deletion, behind the check, unless a line has thrown. */
  function Orders(q: Info): seq<Order> {
    if q.outcome.Fault? || !(q.behavior.UPLOAD? || q.behavior.DELETE?) then []
    else [Order(q.behavior.UPLOAD?, if q.area.PUBLIC? then "" else q.userName, q.fileName)]
  }

  function TurnOrders(q: Upload, chunk: string): seq<Order> { Orders(Checked(Headed(q, chunk)).info) }

  function AllOrders(q: Upload, chunks: seq<string>): seq<Order>
    decreases |chunks|
  {
    if chunks == [] then [] else TurnOrders(q, chunks[0]) + AllOrders(Turn(q, chunks[0]), chunks[1..])
  }

  lemma {:induction false} AllOrdersSnoc(q: Upload, chunks: seq<string>, chunk: string)
    ensures AllOrders(q, chunks + [chunk]) == AllOrders(q, chunks) + TurnOrders(Turns(q, chunks), chunk)
    decreases |chunks|
  {
    hide Turn, TurnOrders;
    if chunks == [] {
      assert chunks + [chunk] == [chunk] && [chunk][1..] == [];
      assert AllOrders(Turn(q, chunk), []) == [];
    } else {
      AllOrdersSnoc(Turn(q, chunks[0]), chunks[1..], chunk);
      assert (chunks + [chunk])[1..] == chunks[1..] + [chunk];
    }
  }

  /** The request line is known, and asks for a change. */
  predicate Changing(q: Info) { !q.head.HANDLE_INIT? && (q.behavior.UPLOAD? || q.behavior.DELETE?) }

  lemma LineKeepsChanging(q: Info, line: string)
    requires Changing(q)
    ensures Changing(TakeLine(q, line))
  {
    hide HeadLine, HeadEnd, QuestLine, PartLine, PartHeadLine, PartHeadEnd;
    HeadKeepsBehavior(q, line);
    PartKeepsBehavior(q, line);
  }

  lemma HeadKeepsBehavior(q: Info, line: string)
    ensures HeadLine(q, line).behavior == HeadEnd(q).behavior == q.behavior
    ensures !q.head.HANDLE_INIT? ==> !HeadLine(q, line).head.HANDLE_INIT? && !HeadEnd(q).head.HANDLE_INIT?
  {
    hide Find, Stoi, ParseCookie, ContentType, Touch, Get;
    TypeKeepsBehavior(q, if Find(line + CRLF, ":", 0) + 2 <= |line| then line[Find(line + CRLF, ":", 0) + 2..] else "\n");
  }

  lemma TypeKeepsBehavior(q: Info, value: string)
    ensures ContentType(q, value).behavior == q.behavior && ContentType(q, value).head == q.head
  {
    hide Find;
  }

  lemma PartKeepsBehavior(q: Info, line: string)
    ensures PartLine(q, line).behavior == PartHeadLine(q, line).behavior == PartHeadEnd(q).behavior == q.behavior
    ensures PartLine(q, line).head == PartHeadLine(q, line).head == PartHeadEnd(q).head == q.head
  {
    hide Find, Touch, Get;
  }

  lemma {:induction false} RunKeepsChanging(pr: Protocol<Info>, q: Upload)
    requires (pr == HEAD_PROTOCOL || pr == UPLOAD_PROTOCOL) && Changing(q.info)
    ensures Changing(Run(pr, q).info)
    decreases |q.pending|
  {
    hide HasLine, FlushTo, TakeLine;
    if pr.mode(q.info).ReadLine? && HasLine(q.pending) {
      LineKeepsChanging(q.info, q.pending[..Find(q.pending, CRLF, 0)]);
      RunKeepsChanging(pr, AfterLine(pr, q));
    }
  }

  lemma TurnKeepsChanging(q: Upload, chunk: string)
    requires Changing(q.info)
    ensures Changing(Headed(q, chunk).info) && Changing(Checked(Headed(q, chunk)).info) && Changing(Turn(q, chunk).info)
  {
    hide Run;
    PlusKeeps(HEAD_PROTOCOL, q, chunk);
    RunKeepsChanging(HEAD_PROTOCOL, Plus(HEAD_PROTOCOL, q, chunk));
    VerifyKeeps(Headed(q, chunk).info);
    RunKeepsChanging(UPLOAD_PROTOCOL, Checked(Headed(q, chunk)));
  }

  /** Once the request line of an upload or a deletion has come, every chunk writes a rollback record. */
  lemma {:induction false} OneOrderPerChunk(q: Upload, chunks: seq<string>)
    requires Changing(q.info)
    requires forall k :: 0 <= k < |chunks| ==> !Headed(Turns(q, chunks[..k]), chunks[k]).info.outcome.Fault?
    ensures |AllOrders(q, chunks)| == |chunks|
    decreases |chunks|
  {
    hide Headed, Turn;
    if chunks != [] {
      TurnKeepsChanging(q, chunks[0]);
      FirstOrder(q, chunks);
      forall k | 0 <= k < |chunks[1..]|
        ensures !Headed(Turns(Turn(q, chunks[0]), chunks[1..][..k]), chunks[1..][k]).info.outcome.Fault?
      {
        assert chunks[..k + 1][1..] == chunks[1..][..k] && chunks[..k + 1][0] == chunks[0];
        assert Turns(q, chunks[..k + 1]) == Turns(Turn(q, chunks[0]), chunks[1..][..k]);
        assert chunks[k + 1] == chunks[1..][k];
      }
      OneOrderPerChunk(Turn(q, chunks[0]), chunks[1..]);
    }
  }

  lemma FirstOrder(q: Upload, chunks: seq<string>)
    requires chunks != [] && Changing(Headed(q, chunks[0]).info)
    requires !Headed(Turns(q, chunks[..0]), chunks[0]).info.outcome.Fault?
    ensures |TurnOrders(q, chunks[0])| == 1
  {
    hide Headed;
    assert chunks[..0] == [];
    VerifyKeeps(Headed(q, chunks[0]).info);
  }
}
