/** Printing a one-part upload form and what the parser makes of it, however it is cut. */
module UploadForm {
  import opened ByteSearch
  import opened FileScan
  import opened StreamParser
  import opened UploadSpec
  import opened UploadTurns
  import opened RequestLines
  import W = SyncWire

  function Join(lines: seq<string>): string {
    if lines == [] then "" else lines[0] + CRLF + Join(lines[1..])
  }

  function TakeAll<I>(pr: Protocol<I>, info: I, lines: seq<string>): I
    decreases |lines|
  {
    if lines == [] then info else TakeAll(pr, pr.take(info, lines[0]), lines[1..])
  }

  /** Each of the lines is asked for, and none contains a CR. */
  ghost predicate Readable<I>(pr: Protocol<I>, info: I, lines: seq<string>)
    decreases |lines|
  {
    lines == [] || (pr.mode(info).ReadLine? && '\r' !in lines[0] && Readable(pr, pr.take(info, lines[0]), lines[1..]))
  }

  lemma {:induction false} RunLines<I>(pr: Protocol<I>, info: I, disk: map<string, string>, lines: seq<string>,
                                       rest: string)
    requires Readable(pr, info, lines) && !pr.mode(TakeAll(pr, info, lines)).Ended?
    ensures Run(pr, Request(info, disk, Join(lines) + rest)) == Run(pr, Request(TakeAll(pr, info, lines), disk, rest))
    decreases |lines|
  {
    if lines == [] {
      assert "" + rest == rest;
    } else {
      var line, more := lines[0], Join(lines[1..]) + rest;
      var q := Request(info, disk, line + CRLF + more);
      assert Join(lines) + rest == line + CRLF + more;
      FindLineEnd(line, more);
      assert q.pending[..|line|] == line && q.pending[|line| + 2..] == more;
      assert lines[1..] == [] || !pr.mode(pr.take(info, line)).Ended?;
      RunLines(pr, pr.take(info, line), disk, lines[1..], rest);
    }
  }

  /** What a body keeps of the content printed into it: all of it, unless the closing delimiter occurs earlier. */
  function Kept(content: string, boundary: string): (kept: string)
    ensures kept <= content
    ensures kept == content <==> Find(content + ClosingDelimiter(boundary), ClosingDelimiter(boundary), 0) == |content|
  {
    var delim := ClosingDelimiter(boundary);
    Take(content, delim);
    content[..Find(content + delim, delim, 0)]
  }

  /** How many of the lines are taken for cookies. */
  function CookieLines(q: Info, lines: seq<string>): nat
    decreases |lines|
  {
    if lines == [] then 0
    else (if q.head.HANDLE_HEAD? && IsCookie(lines[0]) then 1 else 0) + CookieLines(TakeLine(q, lines[0]), lines[1..])
  }

  lemma {:induction false} CookiesOfLines(q: Info, disk: map<string, string>, lines: seq<string>, rest: string)
    requires Readable(HEAD_PROTOCOL, q, lines) && HeadMode(TakeAll(HEAD_PROTOCOL, q, lines)).Pile?
    ensures Cookies(Request(q, disk, Join(lines) + rest)) == CookieLines(q, lines)
    decreases |lines|
  {
    hide TakeLine, IsCookie, Find;
    if lines != [] {
      var line, more := lines[0], Join(lines[1..]) + rest;
      var r := Request(q, disk, line + CRLF + more);
      assert Join(lines) + rest == line + CRLF + more;
      FindLineEnd(line, more);
      assert r.pending[..|line|] == line && r.pending[|line| + 2..] == more;
      StillRunning(TakeLine(q, line), lines[1..]);
      CookiesOfLines(TakeLine(q, line), disk, lines[1..], rest);
    }
  }

  lemma StillRunning(q: Info, lines: seq<string>)
    requires Readable(HEAD_PROTOCOL, q, lines) && HeadMode(TakeAll(HEAD_PROTOCOL, q, lines)).Pile?
    ensures !HeadMode(q).Ended?
  {
  }

  /** Any header that leads to a body, the lines of a part, the body, and its closing delimiter: cut in any way that leaves
      the cookies together, they append to the file that the header names, for the user that its cookies stand for,
      exactly what comes before the first occurrence of the delimiter. */
  lemma Delivered(q: Info, disk: map<string, string>, head: seq<string>, part: seq<string>, content: string,
                  chunks: seq<string>)
    requires Verify(q) == q && HeadMode(q).ReadLine? && Readable(HEAD_PROTOCOL, q, head)
    requires HeadMode(TakeAll(HEAD_PROTOCOL, q, head)).Pile?
    requires var known := Verify(TakeAll(HEAD_PROTOCOL, q, head));
             Readable(UPLOAD_PROTOCOL, known, part) && ModeOf(TakeAll(UPLOAD_PROTOCOL, known, part)).Flush?
    requires var last := TakeAll(UPLOAD_PROTOCOL, Verify(TakeAll(HEAD_PROTOCOL, q, head)), part);
             chunks != []
             && Flatten(chunks) == Join(head) + (Join(part) + (content + ClosingDelimiter(ModeOf(last).boundary)))
    requires CookiesTogether(Request(q, disk, ""), chunks)
    ensures var last := TakeAll(UPLOAD_PROTOCOL, Verify(TakeAll(HEAD_PROTOCOL, q, head)), part);
            var Flush(path, boundary) := ModeOf(last);
            Turns(Request(q, disk, ""), chunks)
            == Request(Finish(last), disk[path := Get(disk, path) + Kept(content, boundary)], "")
  {
    hide *;
    var h := TakeAll(HEAD_PROTOCOL, q, head);
    var last := TakeAll(UPLOAD_PROTOCOL, Verify(h), part);
    var body := content + ClosingDelimiter(ModeOf(last).boundary);
    IsStable(q, disk);
    TurnsAreOne(Request(q, disk, ""), chunks);
    FirstTurn(q, disk, Flatten(chunks));
    ProtocolsAre();
    RunLines(HEAD_PROTOCOL, q, disk, head, Join(part) + body);
    HeadStops(h, disk, Join(part) + body);
    RunLines(UPLOAD_PROTOCOL, Verify(h), disk, part, body);
    WholeBody(UPLOAD_PROTOCOL, last, disk, content);
  }

  lemma IsStable(q: Info, disk: map<string, string>)
    requires Verify(q) == q
    ensures Stable(Request(q, disk, ""))
  {
  }

  lemma ProtocolsAre()
    ensures forall q {:trigger ModeOf(q)} :: UPLOAD_PROTOCOL.mode(q) == ModeOf(q)
    ensures forall q {:trigger HeadMode(q)} :: HEAD_PROTOCOL.mode(q) == HeadMode(q)
    ensures forall q {:trigger Finish(q)} :: UPLOAD_PROTOCOL.finish(q) == Finish(q)
    ensures forall q {:trigger HeadMode(q)} :: HeadMode(q).Pile? ==> !HeadMode(q).Ended?
    ensures forall q {:trigger ModeOf(q)} :: ModeOf(q).Flush? ==> !ModeOf(q).Ended?
  {
  }

  lemma FirstTurn(q: Info, disk: map<string, string>, chunk: string)
    requires HeadMode(q).ReadLine?
    ensures Turn(Request(q, disk, ""), chunk)
         == Run(UPLOAD_PROTOCOL, Checked(Run(HEAD_PROTOCOL, Request(q, disk, chunk))))
  {
    hide Run;
    assert "" + chunk == chunk;
  }

  lemma HeadStops(h: Info, disk: map<string, string>, rest: string)
    requires HeadMode(h).Pile?
    ensures Checked(Run(HEAD_PROTOCOL, Request(h, disk, rest))) == Request(Verify(h), disk, rest)
  {
    hide Verify;
  }

  lemma WholeBody<I(!new)>(pr: Protocol<I>, info: I, disk: map<string, string>, content: string)
    requires pr.mode(info).Flush?
    ensures var Flush(path, boundary) := pr.mode(info);
            Run(pr, Request(info, disk, content + ClosingDelimiter(boundary)))
            == Request(pr.finish(info), disk[path := Get(disk, path) + Kept(content, boundary)], "")
  {
    var delim := ClosingDelimiter(pr.mode(info).boundary);
    StopClosedForm(content + delim, delim);
    Take(content, delim);
  }

  lemma Take(content: string, delim: string)
    requires 0 < |delim|
    ensures var at := Find(content + delim, delim, 0);
            at <= |content| < |content + delim| && (content + delim)[..at] == content[..at]
  {
    assert (content + delim)[|content|..|content| + |delim|] == delim;
    assert OccursAt(content + delim, delim, |content|);
  }

  // ---------------------------------------------------------------- a one-part upload form

  /** A header line of an upload besides its request line. The cookie stands for a user; a length and any other header
      mean nothing to an upload. */
  datatype Header = Type | Cookie | Length(n: nat) | Other(key: string, value: string)

  /** An upload request as a browser sends it: the name in the URL, header lines in any order, one file part, and lines
      of that part around the one that names the file. */
  datatype Form = Form(area: Area, url: string, user: string, pass: string, boundary: string, headers: seq<Header>,
                       before: seq<string>, disposition: string, name: string, trailer: string, after: seq<string>)
  {
    function AreaName(): string { if area.PUBLIC? then "public" else "private" }

    function Quest(): string { "POST" + " " + ("/" + AreaName() + "/" + "upload" + "/" + url) + " " + "HTTP/1.1" }

    function Line(h: Header): string {
      match h
      case Type => "Content-Type: multipart/form-data; boundary=" + boundary
      case Cookie => "Cookie: " + user + "=" + pass
      case Length(n) => "Content-Length: " + W.Decimal(n)
      case Other(key, value) => key + ": " + value
    }

    function Lines(hs: seq<Header>): seq<string> {
      if hs == [] then [] else [Line(hs[0])] + Lines(hs[1..])
    }

    function Part(): string { disposition + "filename=\"" + name + "\"" + trailer }

    function Head(): seq<string> { [Quest()] + (Lines(headers) + [""]) }

    function PartHead(): seq<string> { ["--" + boundary] + (before + ([Part()] + (after + [""]))) }

    /** What the text of each field must not contain for the lines to be told apart, and that a content type and one
        cookie are there. */
    ghost predicate Clean() {
      && !area.PATH_OTHER?
      && ' ' !in url && '=' !in user + pass && '\0' !in user + pass && '\"' !in name
      && Find(disposition + "filename", "filename", 0) == |disposition|
      && '\r' !in url + user + pass + boundary + disposition + name + trailer
      && Type in headers && Times(headers, Cookie) == 1 && (forall h <- headers :: CleanHeader(h))
      && (forall line <- before + after :: CleanLine(line))
    }

    function Owner(accounts: map<(string, string), string>): string { OwnerOf(accounts, user, pass) }

    function Path(root: string, accounts: map<(string, string), string>): string {
      root + (if area.PUBLIC? then "/public/" else "/private/" + Owner(accounts) + "/") + name
    }

    /** The boundary that the header lines leave: a later header of that very name replaces that of the content type. */
    function LastBoundary(hs: seq<Header>): string {
      if hs == [] then ""
      else match hs[|hs| - 1]
        case Type => boundary
        case Other(key, value) => if key == "boundary" then value else LastBoundary(hs[..|hs| - 1])
        case _ => LastBoundary(hs[..|hs| - 1])
    }
  }

  /** The name that a cookie stands for: the user's own if the database knows the cookie, and none otherwise. A cookie
      without a name or a token is not looked up. */
  function OwnerOf(accounts: map<(string, string), string>, user: string, pass: string): string {
    if user == "" || pass == "" then user
    else if (user, pass) in accounts then accounts[(user, pass)]
    else ""
  }

  function Times(hs: seq<Header>, h: Header): nat {
    if hs == [] then 0 else (if hs[0] == h then 1 else 0) + Times(hs[1..], h)
  }

  /** A number that fits an int, or any text under a key that means nothing to the program. */
  predicate CleanHeader(h: Header) {
    match h
    case Length(n) => n < 0x8000_0000
    case Other(key, value) =>
      '\r' !in key + value && ':' !in key && key != "Content-Type" && key != "Cookie" && key != "Content-Length"
    case _ => true
  }

  /** A line of the part that does not name a file. */
  predicate CleanLine(line: string) {
    line != "" && '\r' !in line && Find(line, "filename", 0) == |line|
  }

  // ---------------------------------------------------------------- its header lines

  /** What one header line changes. */
  function Step(f: Form, q: Info, h: Header): Info {
    match h
    case Type => q.(headers := q.headers["Content-Type" := "multipart/form-data"]["boundary" := f.boundary])
    case Cookie => q.(userName := q.userName + f.user, passWord := q.passWord + f.pass)
    case Length(n) => q.(bodyLen := n)
    case Other(key, value) => q.(headers := q.headers[key := value])
  }

  function Steps(f: Form, q: Info, hs: seq<Header>): Info
    decreases |hs|
  {
    if hs == [] then q else Steps(f, Step(f, q, hs[0]), hs[1..])
  }

  lemma OneLine(q: Info, line: string, lines: seq<string>)
    requires HeadMode(q).ReadLine? && '\r' !in line
    ensures TakeAll(HEAD_PROTOCOL, q, [line] + lines) == TakeAll(HEAD_PROTOCOL, TakeLine(q, line), lines)
    ensures Readable(HEAD_PROTOCOL, q, [line] + lines) <==> Readable(HEAD_PROTOCOL, TakeLine(q, line), lines)
    ensures CookieLines(q, [line] + lines)
         == (if q.head.HANDLE_HEAD? && IsCookie(line) then 1 else 0) + CookieLines(TakeLine(q, line), lines)
  {
    hide TakeLine, IsCookie;
    assert ([line] + lines)[1..] == lines;
  }

  lemma KeyIs(key: string, value: string)
    requires ':' !in key
    ensures IsCookie(key + ": " + value) <==> key == "Cookie"
  {
    hide Find;
    HeaderSplits(key, value);
  }

  /** What the parser makes of one printed header line. */
  lemma HeaderTaken(f: Form, q: Info, h: Header)
    requires f.Clean() && CleanHeader(h) && q.head.HANDLE_HEAD? && q.outcome.More?
    ensures TakeLine(q, f.Line(h)) == Step(f, q, h) && '\r' !in f.Line(h)
    ensures IsCookie(f.Line(h)) <==> h == Cookie
  {
    hide HeadLine, IsCookie, Find, W.Decimal, Form.Line;
    match h
    case Type => TypeTaken(f, q);
    case Cookie => CookieLineTaken(f, q);
    case Length(n) => LengthTaken(f, q, n);
    case Other(key, value) => OtherTaken(f, q, key, value);
  }

  lemma TypeTaken(f: Form, q: Info)
    requires f.Clean()
    ensures var line := f.Line(Type);
            HeadLine(q, line) == Step(f, q, Type) && '\r' !in line && !IsCookie(line) && line != ""
  {
    hide HeadLine, IsCookie, Find;
    TypeParses(q, f.boundary);
    TypeText(f.boundary);
    KeyIs("Content-Type", "multipart/form-data" + "; " + "boundary" + "=" + f.boundary);
    assert '\r' !in f.boundary;
  }

  lemma CookieLineTaken(f: Form, q: Info)
    requires f.Clean()
    ensures var line := f.Line(Cookie);
            HeadLine(q, line) == Step(f, q, Cookie) && '\r' !in line && IsCookie(line) && line != ""
  {
    hide HeadLine, IsCookie, Find;
    CookieParses(q, f.user, f.pass);
    CookieText(f.user, f.pass);
    KeyIs("Cookie", f.user + "=" + f.pass);
    assert '\r' !in f.user && '\r' !in f.pass;
  }

  lemma LengthTaken(f: Form, q: Info, n: nat)
    requires n < 0x8000_0000
    ensures var line := f.Line(Length(n));
            HeadLine(q, line) == Step(f, q, Length(n)) && '\r' !in line && !IsCookie(line) && line != ""
  {
    hide HeadLine, IsCookie, Find, W.Decimal;
    LengthParses(q, n);
    LengthText(n);
    KeyIs("Content-Length", W.Decimal(n));
  }

  lemma OtherTaken(f: Form, q: Info, key: string, value: string)
    requires CleanHeader(Other(key, value))
    ensures var line := f.Line(Other(key, value));
            HeadLine(q, line) == Step(f, q, Other(key, value)) && '\r' !in line && !IsCookie(line) && line != ""
  {
    hide HeadLine, IsCookie, Find;
    OtherParses(q, key, value);
    KeyIs(key, value);
  }

  lemma CookieText(user: string, pass: string)
    ensures "Cookie: " + user + "=" + pass == "Cookie" + ": " + (user + "=" + pass)
    ensures '\r' !in user + pass ==> '\r' !in "Cookie: " + user + "=" + pass
  {
  }

  lemma LengthText(n: nat)
    ensures "Content-Length: " + W.Decimal(n) == "Content-Length" + ": " + W.Decimal(n)
    ensures '\r' !in "Content-Length: " + W.Decimal(n)
  {
    assert "Content-Length" + ": " == "Content-Length: ";
    var d := W.Decimal(n);
    assert forall i :: 0 <= i < |d| ==> d[i] in W.DIGITS;
    assert '\r' !in W.DIGITS;
  }

  lemma StepStays(f: Form, q: Info, h: Header)
    requires q.head.HANDLE_HEAD? && q.outcome.More?
    ensures Step(f, q, h).head.HANDLE_HEAD? && Step(f, q, h).outcome.More?
  {
  }

  /** Header lines in any number and order. */
  lemma {:induction false} HeadersTaken(f: Form, q: Info, hs: seq<Header>, lines: seq<string>)
    requires f.Clean() && (forall h <- hs :: CleanHeader(h)) && q.head.HANDLE_HEAD? && q.outcome.More?
    ensures var r := Steps(f, q, hs);
            && r.head.HANDLE_HEAD? && r.outcome.More?
            && TakeAll(HEAD_PROTOCOL, q, f.Lines(hs) + lines) == TakeAll(HEAD_PROTOCOL, r, lines)
            && (Readable(HEAD_PROTOCOL, q, f.Lines(hs) + lines) <==> Readable(HEAD_PROTOCOL, r, lines))
            && CookieLines(q, f.Lines(hs) + lines) == Times(hs, Cookie) + CookieLines(r, lines)
    decreases |hs|
  {
    hide TakeAll, Readable, CookieLines, TakeLine, Step, Form.Line, CleanHeader, IsCookie, Form.Clean;
    if hs == [] {
      assert f.Lines(hs) + lines == lines;
    } else {
      var h := hs[0];
      assert h in hs;
      HeaderTaken(f, q, h);
      StepStays(f, q, h);
      assert f.Lines(hs) + lines == [f.Line(h)] + (f.Lines(hs[1..]) + lines);
      OneLine(q, f.Line(h), f.Lines(hs[1..]) + lines);
      HeadersTaken(f, Step(f, q, h), hs[1..], lines);
    }
  }

  /** The last header under a key. */
  predicate LastOf(hs: seq<Header>, i: nat)
    requires i < |hs|
  {
    match hs[i]
    case Other(key, _) => forall j :: i < j < |hs| && hs[j].Other? ==> hs[j].key != key
    case _ => forall j :: i < j < |hs| ==> !hs[j].Length?
  }

  lemma {:induction false} StepsSnoc(f: Form, q: Info, hs: seq<Header>, h: Header)
    ensures Steps(f, q, hs + [h]) == Step(f, Steps(f, q, hs), h)
    decreases |hs|
  {
    hide Step;
    if hs == [] {
      assert hs + [h] == [h] && [h][1..] == [];
    } else {
      assert (hs + [h])[1..] == hs[1..] + [h];
      StepsSnoc(f, Step(f, q, hs[0]), hs[1..], h);
    }
  }

  /** What all of them leave: the content type, the last boundary, and under every other key the last value. */
  lemma {:induction false} StepsLeave(f: Form, q: Info, hs: seq<Header>)
    requires forall h <- hs :: CleanHeader(h)
    ensures var r := Steps(f, q, hs);
            && r == q.(headers := r.headers, bodyLen := r.bodyLen, userName := r.userName, passWord := r.passWord)
            && (Type in hs ==> "Content-Type" in r.headers && r.headers["Content-Type"] == "multipart/form-data")
            && (Type in hs ==> "boundary" in r.headers && r.headers["boundary"] == f.LastBoundary(hs))
            && (forall i :: 0 <= i < |hs| && hs[i].Other? && hs[i].key != "boundary" && LastOf(hs, i) ==>
                  hs[i].key in r.headers && r.headers[hs[i].key] == hs[i].value)
            && (forall i :: 0 <= i < |hs| && hs[i].Length? && LastOf(hs, i) ==> r.bodyLen == hs[i].n)
    decreases |hs|
  {
    if hs != [] {
      var n := |hs| - 1;
      var init, h := hs[..n], hs[n];
      assert hs == init + [h] && h in hs;
      StepsSnoc(f, q, init, h);
      forall g | g in init ensures g in hs {}
      StepsLeave(f, q, init);
      LeaveMore(f, Steps(f, q, init), init, h);
      assert Type in hs <==> Type in init || h == Type;
      assert hs[..|hs| - 1] == init;
    }
  }

  lemma LeaveMore(f: Form, r: Info, init: seq<Header>, h: Header)
    requires CleanHeader(h)
    requires forall i :: 0 <= i < |init| && init[i].Other? && init[i].key != "boundary" && LastOf(init, i) ==>
               init[i].key in r.headers && r.headers[init[i].key] == init[i].value
    requires forall i :: 0 <= i < |init| && init[i].Length? && LastOf(init, i) ==> r.bodyLen == init[i].n
    requires forall g <- init :: CleanHeader(g)
    ensures var hs, r' := init + [h], Step(f, r, h);
            && (forall i :: 0 <= i < |hs| && hs[i].Other? && hs[i].key != "boundary" && LastOf(hs, i) ==>
                  hs[i].key in r'.headers && r'.headers[hs[i].key] == hs[i].value)
            && (forall i :: 0 <= i < |hs| && hs[i].Length? && LastOf(hs, i) ==> r'.bodyLen == hs[i].n)
  {
    var hs, n := init + [h], |init|;
    forall i | 0 <= i < |hs| && LastOf(hs, i)
      ensures i < n ==> LastOf(init, i)
      ensures i < n && hs[i].Other? ==> !(h.Other? && h.key == hs[i].key)
      ensures i < n && hs[i].Length? ==> !h.Length?
    {
      assert hs[n] == h;
      assert forall j :: 0 <= j < n ==> hs[j] == init[j];
    }
    forall i | 0 <= i < n ensures CleanHeader(hs[i]) { assert hs[i] == init[i] && init[i] in init; }
  }

  /** The names that one cookie leaves. */
  lemma {:induction false} CookieLeaves(f: Form, q: Info, hs: seq<Header>)
    ensures Times(hs, Cookie) == 0 ==> Steps(f, q, hs).userName == q.userName && Steps(f, q, hs).passWord == q.passWord
    ensures Times(hs, Cookie) == 1 ==>
              Steps(f, q, hs).userName == q.userName + f.user && Steps(f, q, hs).passWord == q.passWord + f.pass
    decreases |hs|
  {
    if hs != [] {
      CookieLeaves(f, Step(f, q, hs[0]), hs[1..]);
    }
  }

  // ---------------------------------------------------------------- the whole header

  /** What the request line says. */
  function Asked(f: Form, root: string, accounts: map<(string, string), string>): Info {
    Fresh(root, accounts).(head := HANDLE_HEAD, meth := POST, area := f.area, behavior := UPLOAD, fileName := f.url)
  }

  /** What the header says. */
  function Told(f: Form, root: string, accounts: map<(string, string), string>): Info {
    Steps(f, Asked(f, root, accounts), f.headers).(head := HANDLE_BODY)
  }

  lemma QuestParses(f: Form, root: string, accounts: map<(string, string), string>)
    requires f.Clean()
    ensures QuestLine(Fresh(root, accounts), f.Quest()) == Asked(f, root, accounts) && '\r' !in f.Quest()
  {
    hide QuestLine, Find;
    var a := f.AreaName();
    assert a == "public" || a == "private";
    assert ' ' !in "POST" + a + "upload" + f.url + "HTTP/1.1" && '/' !in a && '/' !in "upload" && '\r' !in a;
    RequestLine(Fresh(root, accounts), "POST", a, "upload", f.url, "HTTP/1.1");
    QuestIsClean(f);
  }

  lemma QuestIsClean(f: Form)
    requires '\r' !in f.url + f.user + f.pass + f.boundary + f.disposition + f.name + f.trailer
    ensures '\r' !in f.Quest()
  {
    assert '\r' !in f.url && '\r' !in f.AreaName();
  }

  lemma NoCookie()
    ensures !IsCookie("")
  {
    hide Find;
    FindNone("" + CRLF, ':');
  }

  lemma NoLines(q: Info)
    ensures TakeAll(HEAD_PROTOCOL, q, []) == TakeAll(UPLOAD_PROTOCOL, q, []) == q && CookieLines(q, []) == 0
    ensures Readable(HEAD_PROTOCOL, q, []) && Readable(UPLOAD_PROTOCOL, q, [])
  {
  }

  lemma CleanParts(f: Form)
    requires f.Clean()
    ensures (forall h <- f.headers :: CleanHeader(h)) && Type in f.headers && Times(f.headers, Cookie) == 1
    ensures !f.area.PATH_OTHER?
  {
  }

  /** The header of a printed form: its lines are read one by one, and one of them is a cookie. */
  lemma HeadParses(f: Form, root: string, accounts: map<(string, string), string>)
    requires f.Clean()
    ensures TakeAll(HEAD_PROTOCOL, Fresh(root, accounts), f.Head()) == Told(f, root, accounts)
    ensures Readable(HEAD_PROTOCOL, Fresh(root, accounts), f.Head())
    ensures CookieLines(Fresh(root, accounts), f.Head()) == 1
  {
    hide TakeAll, Readable, CookieLines, QuestLine, IsCookie, Form.Quest, Form.Lines, Form.Clean, Steps, Times;
    var q, a := Fresh(root, accounts), Asked(f, root, accounts);
    QuestParses(f, root, accounts);
    CleanParts(f);
    OneLine(q, f.Quest(), f.Lines(f.headers) + [""]);
    HeadersTaken(f, a, f.headers, [""]);
    var r := Steps(f, a, f.headers);
    StepsLeave(f, a, f.headers);
    NoCookie();
    assert [""] == [""] + [];
    OneLine(r, "", []);
    EmptyLine(r);
    NoLines(HeadEnd(r));
  }

  /** The empty line ends the header of an upload. */
  lemma EmptyLine(r: Info)
    requires r.head.HANDLE_HEAD? && r.outcome.More? && r.meth.POST? && r.file.FILE_BEGIN?
    requires "Content-Type" in r.headers && r.headers["Content-Type"] == "multipart/form-data"
    ensures TakeLine(r, "") == HeadEnd(r) == r.(head := HANDLE_BODY)
  {
  }

  // ---------------------------------------------------------------- the lines of the part

  lemma OnePart(q: Info, line: string, lines: seq<string>)
    requires ModeOf(q).ReadLine? && '\r' !in line
    ensures TakeAll(UPLOAD_PROTOCOL, q, [line] + lines) == TakeAll(UPLOAD_PROTOCOL, TakeLine(q, line), lines)
    ensures Readable(UPLOAD_PROTOCOL, q, [line] + lines) <==> Readable(UPLOAD_PROTOCOL, TakeLine(q, line), lines)
  {
    assert ([line] + lines)[1..] == lines;
  }

  predicate InPart(q: Info) {
    && q.head.HANDLE_BODY? && q.file.FILE_HEAD? && q.outcome.More? && q.meth.POST?
    && "Content-Type" in q.headers && q.headers["Content-Type"] == "multipart/form-data"
  }

  lemma PartIsRead(q: Info)
    requires InPart(q)
    ensures ModeOf(q).ReadLine?
  {
  }

  /** Lines of the part that do not name a file change nothing. */
  lemma {:induction false} SkipLines(q: Info, skipped: seq<string>, lines: seq<string>)
    requires InPart(q) && forall line <- skipped :: CleanLine(line)
    ensures TakeAll(UPLOAD_PROTOCOL, q, skipped + lines) == TakeAll(UPLOAD_PROTOCOL, q, lines)
    ensures Readable(UPLOAD_PROTOCOL, q, skipped + lines) <==> Readable(UPLOAD_PROTOCOL, q, lines)
    decreases |skipped|
  {
    hide TakeAll, Readable, PartHeadLine, Find;
    if skipped == [] {
      assert skipped + lines == lines;
    } else {
      assert skipped[0] in skipped && skipped + lines == [skipped[0]] + (skipped[1..] + lines);
      PartIsRead(q);
      SkippedParses(q, skipped[0]);
      OnePart(q, skipped[0], skipped[1..] + lines);
      SkipLines(q, skipped[1..], lines);
    }
  }

  /** The lines of the part, for a header with any names. */
  lemma PartsParse(f: Form, q: Info)
    requires f.Clean() && InPart(q.(file := FILE_HEAD)) && q.file.FILE_BEGIN? && q.recvFileName == ""
    requires "boundary" in q.headers && q.headers["boundary"] == f.boundary && !q.area.PATH_OTHER?
    ensures TakeAll(UPLOAD_PROTOCOL, q, f.PartHead()) == q.(file := FILE_CONTENT, recvFileName := f.name)
    ensures Readable(UPLOAD_PROTOCOL, q, f.PartHead())
  {
    hide TakeAll, Readable, QuestLine, HeadLine, PartHeadLine, Form.Clean, Form.Part, PartLine;
    PartIsClean(f);
    var p := q.(file := FILE_HEAD);
    var tail := [f.Part()] + (f.after + [""]);
    OnePart(q, "--" + f.boundary, f.before + tail);
    OpeningIff(q, "--" + f.boundary);
    SkipLines(p, f.before, tail);
    PartIsRead(p);
    NameTaken(f, p);
    OnePart(p, f.Part(), f.after + [""]);
    var n := p.(recvFileName := f.name);
    SkipLines(n, f.after, [""]);
    assert [""] == [""] + [];
    PartIsRead(n);
    OnePart(n, "", []);
    NoLines(n.(file := FILE_CONTENT));
  }

  lemma NameTaken(f: Form, q: Info)
    requires f.Clean() && q.recvFileName == ""
    ensures PartHeadLine(q, f.Part()) == q.(recvFileName := f.name)
  {
    hide PartHeadLine, Find;
    NameParses(q, f.disposition, f.name, f.trailer);
    assert "" + f.name == f.name;
  }

  lemma PartIsClean(f: Form)
    requires f.Clean()
    ensures '\r' !in "--" + f.boundary && '\r' !in f.Part() && f.Part() != ""
    ensures (forall line <- f.before :: CleanLine(line)) && (forall line <- f.after :: CleanLine(line))
  {
    hide Find;
    assert '\r' !in f.disposition && '\r' !in f.name && '\r' !in f.trailer && '\r' !in f.boundary;
    assert '\r' !in "filename=\"" && '\r' !in "\"";
    forall line | line in f.before || line in f.after ensures CleanLine(line) { assert line in f.before + f.after; }
  }

  // ---------------------------------------------------------------- the whole form

  /** What is known at the end. */
  function Known(f: Form, root: string, accounts: map<(string, string), string>): Info {
    Verify(Told(f, root, accounts)).(file := FILE_CONTENT, recvFileName := f.name)
  }

  /** The header as it stands behind the check of the user. */
  lemma ToldIs(f: Form, root: string, accounts: map<(string, string), string>)
    requires f.Clean()
    ensures var t := Told(f, root, accounts);
            && t == Asked(f, root, accounts).(head := HANDLE_BODY, headers := t.headers, bodyLen := t.bodyLen,
                                              userName := f.user, passWord := f.pass)
            && "Content-Type" in t.headers && t.headers["Content-Type"] == "multipart/form-data"
            && "boundary" in t.headers && t.headers["boundary"] == f.LastBoundary(f.headers)
  {
    hide Steps, Form.Clean, LastOf;
    CleanParts(f);
    StepsLeave(f, Asked(f, root, accounts), f.headers);
    CookieLeaves(f, Asked(f, root, accounts), f.headers);
    assert "" + f.user == f.user && "" + f.pass == f.pass;
  }

  /** The check finds the owner. */
  lemma OwnerIs(f: Form, q: Info)
    requires q.userName == f.user && q.passWord == f.pass && !q.verified
    ensures Verify(q).userName == f.Owner(q.accounts)
  {
  }

  /** The lines of a printed form give back its fields. */
  lemma LinesParse(f: Form, root: string, accounts: map<(string, string), string>)
    requires f.Clean() && f.LastBoundary(f.headers) == f.boundary
    ensures var q, t := Fresh(root, accounts), Told(f, root, accounts);
            && Readable(HEAD_PROTOCOL, q, f.Head()) && TakeAll(HEAD_PROTOCOL, q, f.Head()) == t
            && Readable(UPLOAD_PROTOCOL, Verify(t), f.PartHead())
            && TakeAll(UPLOAD_PROTOCOL, Verify(t), f.PartHead()) == Known(f, root, accounts)
  {
    hide TakeAll, Readable, CookieLines, Verify, Find, Told, Form.Head, Form.PartHead, Form.Clean;
    HeadParses(f, root, accounts);
    ToldIs(f, root, accounts);
    VerifyKeeps(Told(f, root, accounts));
    CleanParts(f);
    PartsParse(f, Verify(Told(f, root, accounts)));
  }

  lemma KnownIs(f: Form, root: string, accounts: map<(string, string), string>)
    requires f.Clean()
    ensures HeadMode(Fresh(root, accounts)).ReadLine? && Verify(Fresh(root, accounts)) == Fresh(root, accounts)
    ensures HeadMode(Told(f, root, accounts)).Pile?
    ensures f.LastBoundary(f.headers) == f.boundary ==>
              ModeOf(Known(f, root, accounts)) == Flush(f.Path(root, accounts), f.boundary)
  {
    hide Find, Told, Form.Clean, Verify;
    var t := Told(f, root, accounts);
    ToldIs(f, root, accounts);
    VerifyKeeps(t);
    CleanParts(f);
    OwnerIs(f, t);
    FreshIsStable(root, accounts);
  }

  lemma FreshIsStable(root: string, accounts: map<(string, string), string>)
    ensures Verify(Fresh(root, accounts)) == Fresh(root, accounts)
  {
  }

  /** The bytes of the request. */
  function Printed(f: Form, content: string): string {
    Join(f.Head()) + (Join(f.PartHead()) + (content + ClosingDelimiter(f.boundary)))
  }

  lemma FormTogether(f: Form, root: string, accounts: map<(string, string), string>, disk: map<string, string>,
                     content: string, chunks: seq<string>)
    requires f.Clean() && Flatten(chunks) == Printed(f, content)
    ensures CookiesTogether(Request(Fresh(root, accounts), disk, ""), chunks)
  {
    hide *;
    var q := Fresh(root, accounts);
    HeadParses(f, root, accounts);
    KnownIs(f, root, accounts);
    PrintedIs(f, content);
    CookiesOfLines(q, disk, f.Head(), Join(f.PartHead()) + (content + ClosingDelimiter(f.boundary)));
    Whole(q, disk, Flatten(chunks));
    OneCookieIsTogether(Request(q, disk, ""), chunks);
  }

  lemma PrintedIs(f: Form, content: string)
    ensures Printed(f, content) == Join(f.Head()) + (Join(f.PartHead()) + (content + ClosingDelimiter(f.boundary)))
  {
  }

  lemma Whole(q: Info, disk: map<string, string>, bytes: string)
    requires HeadMode(q).ReadLine?
    ensures CookiesIn(Request(q, disk, ""), bytes) == Cookies(Request(q, disk, bytes))
  {
    hide Cookies;
    assert "" + bytes == bytes;
  }

  lemma UploadDelivers(f: Form, root: string, accounts: map<(string, string), string>, disk: map<string, string>,
                       content: string, chunks: seq<string>)
    requires f.Clean() && chunks != [] && Flatten(chunks) == Printed(f, content)
    requires f.LastBoundary(f.headers) == f.boundary
    ensures Turns(Request(Fresh(root, accounts), disk, ""), chunks)
         == Request(Finish(Known(f, root, accounts)),
                    disk[f.Path(root, accounts) := Get(disk, f.Path(root, accounts)) + Kept(content, f.boundary)], "")
  {
    hide *;
    LinesParse(f, root, accounts);
    KnownIs(f, root, accounts);
    PrintedIs(f, content);
    FormTogether(f, root, accounts, disk, content, chunks);
    Delivered(Fresh(root, accounts), disk, f.Head(), f.PartHead(), content, chunks);
  }

  /** What an upload leaves behind besides its file, written out. */
  ghost predicate Answered(f: Form, accounts: map<(string, string), string>, q: Info) {
    && q.outcome.Done? && q.meth.POST? && q.area == f.area && q.behavior.UPLOAD? && q.code == 200
    && q.fileName == f.url && q.recvFileName == f.name && q.userName == f.Owner(accounts)
    && (forall i :: 0 <= i < |f.headers| && f.headers[i].Other? && f.headers[i].key != "boundary" && LastOf(f.headers, i) ==>
          f.headers[i].key in q.headers && q.headers[f.headers[i].key] == f.headers[i].value)
    && (forall i :: 0 <= i < |f.headers| && f.headers[i].Length? && LastOf(f.headers, i) ==> q.bodyLen == f.headers[i].n)
  }

  lemma KnownAnswers(f: Form, root: string, accounts: map<(string, string), string>)
    requires f.Clean()
    ensures Answered(f, accounts, Finish(Known(f, root, accounts)))
  {
    hide Steps, Form.Clean, LastOf, Verify;
    var t := Told(f, root, accounts);
    ToldIs(f, root, accounts);
    CleanParts(f);
    StepsLeave(f, Asked(f, root, accounts), f.headers);
    VerifyKeeps(t);
    OwnerIs(f, t);
  }

  /** Uploading a file: for every form, with header lines and lines of the part in any number, and for every content, cut
      in any way on the connection, the request is answered with success, every header stands under its key, and the
      content is appended to the file named, exactly if the closing delimiter does not occur before the place it is
      printed at; provided no later header replaces the boundary. */
  lemma UploadRoundTrip(f: Form, root: string, accounts: map<(string, string), string>, disk: map<string, string>,
                        content: string, chunks: seq<string>)
    requires f.Clean() && chunks != [] && Flatten(chunks) == Printed(f, content)
    requires f.LastBoundary(f.headers) == f.boundary
    ensures var delim := ClosingDelimiter(f.boundary);
            var q := Turns(Request(Fresh(root, accounts), disk, ""), chunks);
            && Answered(f, accounts, q.info)
            && (q.disk == disk[f.Path(root, accounts) := Get(disk, f.Path(root, accounts)) + content]
                <==> Find(content + delim, delim, 0) == |content|)
  {
    hide *;
    UploadDelivers(f, root, accounts, disk, content, chunks);
    KnownAnswers(f, root, accounts);
    AppendIff(disk, f.Path(root, accounts), Get(disk, f.Path(root, accounts)), Kept(content, f.boundary), content);
  }

  /** A header line named `boundary` behind the content type does replace it: then the request is given up at the first
      line of the part, and nothing is stored. */
  lemma OtherBoundary(f: Form, root: string, accounts: map<(string, string), string>, disk: map<string, string>,
                      content: string, chunks: seq<string>)
    requires f.Clean() && chunks != [] && Flatten(chunks) == Printed(f, content)
    requires f.LastBoundary(f.headers) != f.boundary
    ensures var q := Turns(Request(Fresh(root, accounts), disk, ""), chunks); q.info.outcome.Close? && q.disk == disk
  {
    hide *;
    var q, t := Fresh(root, accounts), Told(f, root, accounts);
    FormTogether(f, root, accounts, disk, content, chunks);
    KnownIs(f, root, accounts);
    HeadParses(f, root, accounts);
    IsStable(q, disk);
    TurnsAreOne(Request(q, disk, ""), chunks);
    FirstTurn(q, disk, Flatten(chunks));
    ProtocolsAre();
    PrintedIs(f, content);
    var rest := Join(f.PartHead()) + (content + ClosingDelimiter(f.boundary));
    RunLines(HEAD_PROTOCOL, q, disk, f.Head(), rest);
    HeadStops(t, disk, rest);
    WrongOpening(f, root, accounts, disk, content + ClosingDelimiter(f.boundary));
  }

  lemma WrongOpening(f: Form, root: string, accounts: map<(string, string), string>, disk: map<string, string>,
                     body: string)
    requires f.Clean() && f.LastBoundary(f.headers) != f.boundary
    ensures var r := Run(UPLOAD_PROTOCOL, Request(Verify(Told(f, root, accounts)), disk, Join(f.PartHead()) + body));
            r.info.outcome.Close? && r.disk == disk
  {
    hide Told, Find, Form.Clean, Verify, PartLine, Form.LastBoundary;
    var v, line := Verify(Told(f, root, accounts)), "--" + f.boundary;
    ToldIs(f, root, accounts);
    VerifyKeeps(Told(f, root, accounts));
    PartIsClean(f);
    var lines := f.before + ([f.Part()] + (f.after + [""]));
    assert f.PartHead() == [line] + lines && ([line] + lines)[1..] == lines;
    var more := Join(lines) + body;
    assert Join(f.PartHead()) + body == line + CRLF + more;
    FindLineEnd(line, more);
    var q := Request(v, disk, line + CRLF + more);
    assert q.pending[..|line|] == line;
    OpeningIff(v, line);
    assert line != "--" + f.LastBoundary(f.headers) by { assert line[2..] == f.boundary; }
    Gone(q);
  }

  // ---------------------------------------------------------------- other requests, and rollback records

  /** An upload in one read writes one rollback record: for the public area without a user, else with the owner. */
  lemma UploadOrder(f: Form, root: string, accounts: map<(string, string), string>, disk: map<string, string>,
                    content: string)
    requires f.Clean()
    ensures AllOrders(Request(Fresh(root, accounts), disk, ""), [Printed(f, content)])
         == [Order(true, if f.area.PUBLIC? then "" else f.Owner(accounts), f.url)]
  {
    hide Told, Verify, Form.Clean, Find, Run, Join, TakeAll, Readable, CookieLines;
    var q, t := Fresh(root, accounts), Told(f, root, accounts);
    var rest := Join(f.PartHead()) + (content + ClosingDelimiter(f.boundary));
    HeadParses(f, root, accounts);
    ToldIs(f, root, accounts);
    KnownIs(f, root, accounts);
    OwnerIs(f, t);
    VerifyKeeps(t);
    ProtocolsAre();
    RunLines(HEAD_PROTOCOL, q, disk, f.Head(), rest);
    HeadStops(t, disk, rest);
    HeadedIs(q, disk, Printed(f, content));
    OneTurnOrders(Request(q, disk, ""), Printed(f, content));
  }

  lemma HeadedIs(q: Info, disk: map<string, string>, chunk: string)
    requires HeadMode(q).ReadLine?
    ensures Headed(Request(q, disk, ""), chunk) == Run(HEAD_PROTOCOL, Request(q, disk, chunk))
  {
    hide Run;
    assert "" + chunk == chunk;
  }

  lemma OneTurnOrders(q: Upload, chunk: string)
    ensures AllOrders(q, [chunk]) == TurnOrders(q, chunk)
  {
    hide TurnOrders, Turn;
    assert AllOrders(Turn(q, chunk), [chunk][1..]) == [];
  }

  /** The lines of a request without a body. */
  function Plain(f: Form, m: string, b: string): seq<string> {
    [m + " " + ("/" + f.AreaName() + "/" + b + "/" + f.url) + " " + "HTTP/1.1"] + f.Lines(f.headers)
  }

  /** A request of any other method is answered behind its header, whatever it asks for; a deletion writes its rollback
      record, a download none. */
  lemma PlainRequest(f: Form, m: string, b: string, root: string, accounts: map<(string, string), string>,
                     disk: map<string, string>, chunks: seq<string>)
    requires f.Clean() && m != "POST" && ' ' !in m + b && '\r' !in m + b && '/' !in b
    requires chunks != [] && Flatten(chunks) == Join(Plain(f, m, b)) + ("" + CRLF + "")
    requires CookiesTogether(Request(Fresh(root, accounts), disk, ""), chunks)
    ensures var q := Turns(Request(Fresh(root, accounts), disk, ""), chunks);
            && q.info.outcome.Done? && q.disk == disk && q.info.fileName == f.url && q.info.area == f.area
            && q.info.userName == f.Owner(accounts)
            && (q.info.behavior.UPLOAD? <==> b == "upload") && (q.info.behavior.DOWNLOAD? <==> b == "download")
            && (q.info.behavior.DELETE? <==> b == "delete")
    ensures AllOrders(Request(Fresh(root, accounts), disk, ""), [Flatten(chunks)])
         == if b == "upload" || b == "delete" then
              [Order(b == "upload", if f.area.PUBLIC? then "" else f.Owner(accounts), f.url)]
            else []
  {
    hide Verify, Form.Clean, Find, Run, Join, TakeAll, Readable, CookieLines, Plain, QuestLine, Steps;
    var q := Fresh(root, accounts);
    var r := PlainParses(f, m, b, root, accounts);
    ProtocolsAre();
    KnownIs(f, root, accounts);
    RunLines(HEAD_PROTOCOL, q, disk, Plain(f, m, b), "" + CRLF + "");
    PlainEnds(r, disk);
    IsStable(q, disk);
    TurnsAreOne(Request(q, disk, ""), chunks);
    FirstTurn(q, disk, Flatten(chunks));
    var e := r.(head := HANDLE_COMPLETE, outcome := Done);
    OwnerIs(f, e);
    VerifyKeeps(e);
    EndsThere(Verify(e), disk);
    HeadedIs(q, disk, Flatten(chunks));
    OneTurnOrders(Request(q, disk, ""), Flatten(chunks));
  }

  lemma EndsThere(e: Info, disk: map<string, string>)
    requires e.outcome.Done?
    ensures Run(UPLOAD_PROTOCOL, Request(e, disk, "")) == Request(e, disk, "")
  {
  }

  lemma PlainParses(f: Form, m: string, b: string, root: string, accounts: map<(string, string), string>)
    returns (r: Info)
    requires f.Clean() && m != "POST" && ' ' !in m + b && '\r' !in m + b && '/' !in b
    ensures TakeAll(HEAD_PROTOCOL, Fresh(root, accounts), Plain(f, m, b)) == r
    ensures Readable(HEAD_PROTOCOL, Fresh(root, accounts), Plain(f, m, b))
    ensures r.head.HANDLE_HEAD? && r.outcome.More? && !r.meth.POST? && "Content-Type" in r.headers
    ensures r.fileName == f.url && r.area == f.area && r.accounts == accounts && !r.verified
    ensures r.userName == f.user && r.passWord == f.pass
    ensures (r.behavior.UPLOAD? <==> b == "upload") && (r.behavior.DOWNLOAD? <==> b == "download")
         && (r.behavior.DELETE? <==> b == "delete")
  {
    hide TakeAll, Readable, CookieLines, QuestLine, IsCookie, Form.Lines, Form.Clean, Steps, Times, LastOf;
    var q, a := Fresh(root, accounts), f.AreaName();
    var text := m + " " + ("/" + a + "/" + b + "/" + f.url) + " " + "HTTP/1.1";
    PlainText(f, m, b);
    RequestLine(q, m, a, b, f.url, "HTTP/1.1");
    var p := QuestLine(q, text);
    CleanParts(f);
    assert f.Lines(f.headers) + [] == f.Lines(f.headers);
    OneLine(q, text, f.Lines(f.headers));
    HeadersTaken(f, p, f.headers, []);
    r := Steps(f, p, f.headers);
    NoLines(r);
    StepsLeave(f, p, f.headers);
    CookieLeaves(f, p, f.headers);
    assert "" + f.user == f.user && "" + f.pass == f.pass;
  }

  lemma PlainText(f: Form, m: string, b: string)
    requires f.Clean() && ' ' !in m + b && '\r' !in m + b
    ensures var a := f.AreaName();
            && (a == "public" || a == "private") && (a == "public" <==> f.area.PUBLIC?)
            && ' ' !in m + a + b + f.url + "HTTP/1.1" && '/' !in a
            && '\r' !in m + " " + ("/" + a + "/" + b + "/" + f.url) + " " + "HTTP/1.1"
  {
    hide Find;
    assert '\r' !in f.url && '\r' !in m && '\r' !in b && '\r' !in f.AreaName();
    assert f.AreaName() == "public" || f.AreaName() == "private";
  }

  /** The empty line completes it. */
  lemma PlainEnds(r: Info, disk: map<string, string>)
    requires r.head.HANDLE_HEAD? && r.outcome.More? && !r.meth.POST? && "Content-Type" in r.headers
    ensures Run(HEAD_PROTOCOL, Request(r, disk, "" + CRLF + ""))
         == Request(r.(head := HANDLE_COMPLETE, outcome := Done), disk, "")
  {
    hide Find;
    var q := Request(r, disk, "" + CRLF + "");
    FindLineEnd("", "");
    assert q.pending[..0] == "";
    var n := AfterLine(HEAD_PROTOCOL, q);
    assert Run(HEAD_PROTOCOL, n) == n;
  }

  /** A line that ends a request is the last thing it does. */
  lemma Gone(q: Upload)
    requires ModeOf(q.info).ReadLine? && HasLine(q.pending)
    requires var line := q.pending[..Find(q.pending, CRLF, 0)]; !TakeLine(q.info, line).outcome.More?
    ensures var line := q.pending[..Find(q.pending, CRLF, 0)];
            Run(UPLOAD_PROTOCOL, q) == Request(TakeLine(q.info, line), q.disk, "")
  {
    hide TakeLine, Find;
    var r := AfterLine(UPLOAD_PROTOCOL, q);
    assert Run(UPLOAD_PROTOCOL, r) == r;
  }

  lemma AppendIff(disk: map<string, string>, path: string, was: string, kept: string, content: string)
    ensures disk[path := was + kept] == disk[path := was + content] <==> kept == content
  {
    var a, b := disk[path := was + kept], disk[path := was + content];
    if a == b {
      assert a[path] == b[path];
      assert (was + kept)[|was|..] == kept && (was + content)[|was|..] == content;
    }
  }

  // ---------------------------------------------------------------- two cookies

  lemma {:induction false} JoinSplit(a: seq<string>, b: seq<string>)
    ensures Join(a + b) == Join(a) + Join(b)
    decreases |a|
  {
    if a == [] {
      assert a + b == b && "" + Join(b) == Join(b);
    } else {
      assert (a + b)[1..] == a[1..] + b;
      JoinSplit(a[1..], b);
      Associative(a[0] + CRLF, Join(a[1..]), Join(b));
    }
  }

  lemma {:induction false} LinesInTurn(a: seq<string>, b: seq<string>, q: Info)
    ensures TakeAll(HEAD_PROTOCOL, q, a + b) == TakeAll(HEAD_PROTOCOL, TakeAll(HEAD_PROTOCOL, q, a), b)
    ensures Readable(HEAD_PROTOCOL, q, a) && Readable(HEAD_PROTOCOL, TakeAll(HEAD_PROTOCOL, q, a), b) ==>
              Readable(HEAD_PROTOCOL, q, a + b)
    decreases |a|
  {
    hide TakeLine;
    if a == [] {
      assert a + b == b;
    } else {
      assert (a + b)[1..] == a[1..] + b;
      LinesInTurn(a[1..], b, TakeLine(q, a[0]));
    }
  }

  /** A first part of a header with its cookie, in any place. */
  function FirstPart(f: Form): seq<string> { [f.Quest()] + (f.Lines(f.headers) + []) }

  /** The rest of a header with one more cookie. */
  function SecondPart(g: Form): seq<string> { [g.Line(Cookie)] + ([""] + []) }

  function Adding(q: Info, g: Form): Info { q.(userName := q.userName + g.user, passWord := q.passWord + g.pass) }

  lemma FirstParses(f: Form, root: string, accounts: map<(string, string), string>)
    requires f.Clean()
    ensures var q, r := Fresh(root, accounts), Told(f, root, accounts).(head := HANDLE_HEAD);
            && Readable(HEAD_PROTOCOL, q, FirstPart(f)) && TakeAll(HEAD_PROTOCOL, q, FirstPart(f)) == r
  {
    hide TakeAll, Readable, CookieLines, QuestLine, IsCookie, Form.Quest, Form.Lines, Form.Clean, Steps;
    var q, a := Fresh(root, accounts), Asked(f, root, accounts);
    QuestParses(f, root, accounts);
    CleanParts(f);
    OneLine(q, f.Quest(), f.Lines(f.headers) + []);
    HeadersTaken(f, a, f.headers, []);
    NoLines(Steps(f, a, f.headers));
  }

  lemma CookieTaken(g: Form, q: Info, lines: seq<string>)
    requires g.Clean() && q.head.HANDLE_HEAD? && q.outcome.More?
    ensures TakeAll(HEAD_PROTOCOL, q, [g.Line(Cookie)] + lines) == TakeAll(HEAD_PROTOCOL, Adding(q, g), lines)
    ensures Readable(HEAD_PROTOCOL, q, [g.Line(Cookie)] + lines) <==> Readable(HEAD_PROTOCOL, Adding(q, g), lines)
  {
    hide TakeAll, Readable, CookieLines, TakeLine, IsCookie, Form.Line, Form.Clean;
    HeaderTaken(g, q, Cookie);
    OneLine(q, g.Line(Cookie), lines);
  }

  lemma SecondParses(g: Form, q: Info)
    requires g.Clean() && q.head.HANDLE_HEAD? && q.outcome.More?
    ensures Readable(HEAD_PROTOCOL, q, SecondPart(g))
    ensures TakeAll(HEAD_PROTOCOL, q, SecondPart(g)) == HeadEnd(Adding(q, g))
  {
    hide TakeAll, Readable, CookieLines, HeadEnd, Form.Line, Form.Clean;
    CookieTaken(g, q, [""] + []);
    OneLine(Adding(q, g), "", []);
    NoLines(HeadEnd(Adding(q, g)));
  }

  /** One turn that reads whole header lines and nothing else. */
  lemma LinesTurn(q: Info, disk: map<string, string>, lines: seq<string>)
    requires HeadMode(q).ReadLine? && Readable(HEAD_PROTOCOL, q, lines) && Quiet(TakeAll(HEAD_PROTOCOL, q, lines))
    ensures Turn(Request(q, disk, ""), Join(lines)) == Request(Verify(TakeAll(HEAD_PROTOCOL, q, lines)), disk, "")
  {
    hide TakeLine, Verify, Find, Run, TakeAll, Readable, Turn;
    var r := TakeAll(HEAD_PROTOCOL, q, lines);
    FirstTurn(q, disk, Join(lines));
    assert Join(lines) + "" == Join(lines);
    ProtocolsAre();
    RunLines(HEAD_PROTOCOL, q, disk, lines, "");
    QuietRests(r, disk);
  }

  /** Nothing is over, and no body is being flushed. */
  predicate Quiet(q: Info) { HeadMode(q).ReadLine? || (HeadMode(q).Pile? && !ModeOf(q).Flush?) }

  lemma QuietRests(r: Info, disk: map<string, string>)
    requires Quiet(r)
    ensures Run(HEAD_PROTOCOL, Request(r, disk, "")) == Request(r, disk, "")
    ensures Run(UPLOAD_PROTOCOL, Request(Verify(r), disk, "")) == Request(Verify(r), disk, "")
    ensures HeadMode(Verify(r)) == HeadMode(r) && Verify(r).head == r.head && Verify(r).outcome == r.outcome
  {
  }

  /** Two cookies in one read are put together and looked up as one; in two reads the first is looked up alone, and the
      second is put behind what that leaves. */
  lemma TwoCookies(f: Form, g: Form, root: string, accounts: map<(string, string), string>, disk: map<string, string>)
    requires f.Clean() && g.Clean()
    ensures var q, h := Request(Fresh(root, accounts), disk, ""), Told(f, root, accounts);
            var first, second := Join(FirstPart(f)), Join(SecondPart(g));
            && Turns(q, [first + second]) == Request(Verify(Adding(h, g)), disk, "")
            && Turns(q, [first, second]) == Request(Verify(Adding(Verify(h), g)), disk, "")
  {
    hide Verify, TakeAll, Readable, HeadEnd, Form.Clean, FirstPart, SecondPart, Turn, Adding, Join, Told;
    ToldIs(f, root, accounts);
    var q, h := Fresh(root, accounts), Told(f, root, accounts);
    var r := h.(head := HANDLE_HEAD);
    FirstParses(f, root, accounts);
    SecondParses(g, r);
    LinesInTurn(FirstPart(f), SecondPart(g), q);
    Ending(h, g);
    assert Quiet(r);
    LinesTurn(q, disk, FirstPart(f) + SecondPart(g));
    JoinSplit(FirstPart(f), SecondPart(g));
    OneTurn(Request(q, disk, ""), Join(FirstPart(f) + SecondPart(g)));
    LinesTurn(q, disk, FirstPart(f));
    var v := Verify(r);
    VerifyKeeps(r);
    SecondParses(g, v);
    LinesTurn(v, disk, SecondPart(g));
    EachTurn(Request(q, disk, ""), Join(FirstPart(f)), Join(SecondPart(g)));
  }

  lemma OneTurn(q: Upload, a: string)
    ensures Turns(q, [a]) == Turn(q, a)
  {
    hide Turn;
    assert [a][1..] == [];
    assert Turns(Turn(q, a), []) == Turn(q, a);
  }

  lemma EachTurn(q: Upload, a: string, b: string)
    ensures Turns(q, [a, b]) == Turn(Turn(q, a), b)
  {
    hide Turn;
    assert [a, b][1..] == [b];
    OneTurn(Turn(q, a), b);
  }

  /** The end of the header that both ways come to. */
  lemma Ending(h: Info, g: Form)
    requires h.head.HANDLE_BODY? && h.file.FILE_BEGIN? && h.meth.POST? && h.outcome.More?
    requires CONTENT_TYPE in h.headers && h.headers[CONTENT_TYPE] == MULTIPART
    ensures var r := h.(head := HANDLE_HEAD);
            && HeadEnd(Adding(r, g)) == Adding(h, g) && HeadEnd(Adding(Verify(r), g)) == Adding(Verify(h), g)
            && Quiet(Adding(h, g)) && Quiet(Adding(Verify(h), g))
  {
  }

  function TwoForm(user: string, pass: string): Form {
    Form(PRIVATE, "n", user, pass, "x", [Type, Cookie], [], "", "n", "", [])
  }

  const JOE := map[("ac", "bd") := "joe"]

  lemma TwoFormsAreClean()
    ensures TwoForm("a", "b").Clean() && TwoForm("c", "d").Clean()
  {
    FindIs("" + "filename", "filename", 0, 0);
    var hs: seq<Header> := [Type, Cookie];
    assert hs[1..] == [Cookie] && hs[1..][1..] == [] && hs[0] == Type;
    assert Times(hs, Cookie) == Times([Cookie], Cookie) == 1 + Times([], Cookie);
  }

  /** So the place of an upload can depend on the cut: a user who is known by both cookies together, and by neither
      alone, is nobody if a read ends between them. */
  lemma TwoCookiesDiffer(root: string, disk: map<string, string>)
    ensures var f, g := TwoForm("a", "b"), TwoForm("c", "d");
            var q := Request(Fresh(root, JOE), disk, "");
            var first, second := Join(FirstPart(f)), Join(SecondPart(g));
            && Turns(q, [first + second]).info.userName == "joe" && Turns(q, [first, second]).info.userName == ""
            && FilePath(Turns(q, [first + second]).info) != FilePath(Turns(q, [first, second]).info)
  {
    hide Turns, FirstPart, SecondPart, Join, Told;
    var f, g := TwoForm("a", "b"), TwoForm("c", "d");
    TwoFormsAreClean();
    TwoCookies(f, g, root, JOE, disk);
    ToldIs(f, root, JOE);
    assert "a" + "c" == "ac" && "b" + "d" == "bd" && "" + "c" == "c" && "" + "d" == "d";
    assert (root + "/private/" + "joe" + "/" + "")[|root| + 9] == 'j';
  }

  /** The names that both ways leave, written out. */
  lemma TwoCookieNames(f: Form, g: Form, root: string, accounts: map<(string, string), string>, disk: map<string, string>)
    requires f.Clean() && g.Clean()
    ensures var q := Request(Fresh(root, accounts), disk, "");
            var first, second := Join(FirstPart(f)), Join(SecondPart(g));
            var once, twice := Turns(q, [first + second]).info.userName, Turns(q, [first, second]).info.userName;
            && once == OwnerOf(accounts, f.user + g.user, f.pass + g.pass)
            && twice == if f.user == "" || f.pass == "" then once
                        else if (f.user, f.pass) in accounts then accounts[(f.user, f.pass)] + g.user
                        else OwnerOf(accounts, g.user, g.pass)
  {
    hide Turns, FirstPart, SecondPart, Join, Told, Form.Clean;
    TwoCookies(f, g, root, accounts, disk);
    ToldIs(f, root, accounts);
    assert "" + g.user == g.user && "" + g.pass == g.pass;
  }
}
