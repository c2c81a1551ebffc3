/** The line protocol of an upload request to the storage node. */
module UploadSpec {
  import opened ByteSearch
  import opened StreamParser
  import W = SyncWire

  datatype HeadStatus = HANDLE_INIT | HANDLE_HEAD | HANDLE_BODY | HANDLE_COMPLETE | HANDLE_ERROR
  datatype FileStatus = FILE_BEGIN | FILE_HEAD | FILE_CONTENT | FILE_COMPLETE
  datatype Method = GET | POST | METHOD_OTHER
  datatype Area = PUBLIC | PRIVATE | PATH_OTHER
  datatype Behavior = UPLOAD | DOWNLOAD | DELETE | BEHAVIOR_OTHER

  /** `More` while the receive loop goes on, `Done` for result 0, `Close` for result 2.
      `Fault` is where the program throws out of `process` or reads past the end of a string. */
  datatype Outcome = More | Done | Close | Fault

  /** What has been learned from the lines read so far. `accounts` is what the user database knows: the user's name by
      the two halves of his cookie, the digest of the name and the token. `verified` is set once it knew a cookie. */
  datatype Info = Info(
    root: string, accounts: map<(string, string), string>,
    head: HeadStatus, file: FileStatus, outcome: Outcome,
    meth: Method, area: Area, behavior: Behavior, code: int, fileName: string,
    userName: string, passWord: string, verified: bool,
    headers: map<string, string>, bodyLen: nat,
    recvFileName: string)

  const MULTIPART := "multipart/form-data"
  const CONTENT_TYPE := "Content-Type"
  const BOUNDARY := "boundary"

  function Fresh(root: string, accounts: map<(string, string), string>): Info {
    Info(root, accounts, HANDLE_INIT, FILE_BEGIN, More, METHOD_OTHER, PATH_OTHER, BEHAVIOR_OTHER, 200, "", "", "", false,
         map[], 0, "")
  }

  function Error(q: Info): Info {
    q.(head := HANDLE_ERROR, outcome := Close)
  }

  /** `m[key]` on a C++ map: a missing key is inserted with an empty value. */
  function Touch(m: map<string, string>, key: string): map<string, string> {
    if key in m then m else m[key := ""]
  }

  // ---------------------------------------------------------------- request line

  datatype Fields = NoMatch | Fields(meth: string, resource: string, version: string)

  /** The regular expression of the request line: three fields free of blanks, separated by single blanks. */
  function SplitFields(line: string): Fields {
    var a := Find(line, " ", 0);
    if a == |line| then NoMatch else
    var b := Find(line, " ", a + 1);
    if b == |line| || Find(line, " ", b + 1) < |line| then NoMatch
    else Fields(line[..a], line[a + 1..b], line[b + 1..])
  }

  function ParseResource(q: Info, r: string): Info {
    var en := if r == "" then 0 else Find(r, "/", 1);
    if en == |r| then q.(area := PATH_OTHER, code := 404) else
    var area := if r[..en] == "/public" then PUBLIC else if r[..en] == "/private" then PRIVATE else PATH_OTHER;
    var sl := Find(r, "/", en + 1);
    if sl == |r| then q.(area := area, behavior := BEHAVIOR_OTHER, code := 404) else
    var behavior := match r[en..sl]
      case "/delete" => DELETE
      case "/upload" => UPLOAD
      case "/download" => DOWNLOAD
      case _ => BEHAVIOR_OTHER;
    q.(area := area, behavior := behavior, fileName := r[sl + 1..], code := 200)
  }

  function QuestLine(q: Info, line: string): Info {
    match SplitFields(line)
    case NoMatch => Error(q)
    case Fields(m, resource, _) =>
      var meth := if m == "GET" then GET else if m == "POST" then POST else METHOD_OTHER;
      ParseResource(q.(head := HANDLE_HEAD, meth := meth), resource)
  }

  // ---------------------------------------------------------------- header lines

  /** Splits a cookie at its first '='; a NUL byte ends it and further '=' are dropped. */
  function ParseCookie(q: Info, line: string, inPass: bool): (r: Info)
    ensures r == q.(userName := r.userName, passWord := r.passWord)
    decreases |line|
  {
    if line == "" || line[0] == '\0' then q
    else if line[0] == '=' then ParseCookie(q, line[1..], true)
    else if inPass then ParseCookie(q.(passWord := q.passWord + [line[0]]), line[1..], true)
    else ParseCookie(q.(userName := q.userName + [line[0]]), line[1..], false)
  }

  /** A content type with parameters also stores its first parameter under that parameter's own name. */
  function ContentType(q: Info, value: string): Info {
    var sem := Find(value, ";", 0);
    if sem == |value| then q.(headers := q.headers[CONTENT_TYPE := value])
    else if sem + 2 > |value| then q.(outcome := Fault)
    else
      var eq := Find(value, "=", sem);
      var key := if sem + 2 <= eq < |value| then value[sem + 2..eq] else value[sem + 2..];
      var param := if eq == |value| then value else value[eq + 1..];
      q.(headers := q.headers[CONTENT_TYPE := value[..sem]][key := param])
  }

  datatype Parsed = Thrown | Number(n: int)

  /** `stoi` accepts blanks, a sign, at least one digit and any rest, if the number fits an int. */
  function Stoi(s: string): Parsed {
    var u := W.SkipSpaces(s);
    var sign := if u != "" && u[0] in "+-" then u[..1] else "";
    var d := u[|sign|..];
    var n := W.DigitLen(d);
    var v: int := if sign == "-" then 0 - W.Value(d[..n]) else W.Value(d[..n]);
    if n == 0 || !(-0x8000_0000 <= v < 0x8000_0000) then Thrown else Number(v)
  }

  /** The value starts two bytes after the colon; `Key:` alone gets the LF of its own line end as value.
      The number in `Content-Length` is kept as an unsigned int; an upload does not use it, but `stoi` throws if there is
      none. */
  function HeadLine(q: Info, line: string): Info {
    var full := line + CRLF;
    var colon := Find(full, ":", 0);
    if colon == |full| then Error(q) else
    var key := full[..colon];
    var value := if colon + 2 <= |line| then line[colon + 2..] else "\n";
    match key
    case "Content-Length" =>
      (match Stoi(value)
       case Thrown => q.(outcome := Fault)
       case Number(n) => q.(bodyLen := n % 0x1_0000_0000))
    case "Content-Type" => ContentType(q, value)
    case "Cookie" => ParseCookie(q, value, false)
    case _ => q.(headers := q.headers[key := value])
  }

  /** The empty line that ends the headers. A request that is not a POST is complete with it. */
  function HeadEnd(q: Info): Info {
    if q.meth.POST? then
      q.(head := HANDLE_BODY, headers := Touch(q.headers, CONTENT_TYPE),
         file := if Get(q.headers, CONTENT_TYPE) == MULTIPART then FILE_BEGIN else q.file)
    else q.(head := HANDLE_COMPLETE, outcome := Done, headers := Touch(q.headers, CONTENT_TYPE))
  }

  // ---------------------------------------------------------------- the check of the user

  /** The check that every turn of the receive loop makes behind the header lines it has read: a known cookie is replaced
      by the user's name, for good, and an unknown one is cleared. Nothing is looked up without a name or a token. For a
      request that has thrown, and is over, it plays no part. */
  function Verify(q: Info): Info {
    if q.verified || q.userName == "" || q.passWord == "" then q
    else if (q.userName, q.passWord) in q.accounts then
      q.(userName := q.accounts[(q.userName, q.passWord)], verified := true)
    else q.(userName := "", passWord := "")
  }

  // ---------------------------------------------------------------- file part

  /** The line that opens the file part. */
  function PartLine(q: Info, line: string): Info {
    var q' := q.(headers := Touch(q.headers, BOUNDARY));
    if line == "--" + Get(q.headers, BOUNDARY) then q'.(file := FILE_HEAD) else q'.(outcome := Close)
  }

  /** A header line of the part: takes the characters up to the quote that follows `filename="`. */
  function PartHeadLine(q: Info, line: string): Info {
    var full := line + CRLF;
    var at := Find(full, "filename", 0);
    if at == |full| then q else
    var rest := if at + 10 <= |full| then full[at + 10..] else "";
    var quote := Find(rest, "\"", 0);
    if quote == |rest| then q.(outcome := Fault)
    else q.(recvFileName := q.recvFileName + rest[..quote])
  }

  function FilePath(q: Info): string {
    match q.area
    case PUBLIC => q.root + "/public/" + q.recvFileName
    case PRIVATE => q.root + "/private/" + q.userName + "/" + q.recvFileName
    case PATH_OTHER => ""
  }

  predicate InFile(q: Info) {
    q.meth.POST? && Get(q.headers, CONTENT_TYPE) == MULTIPART
  }

  /** The empty line that ends the headers of the part. The file is opened next, which fails for no path. */
  function PartHeadEnd(q: Info): Info {
    q.(file := FILE_CONTENT, outcome := if q.area.PATH_OTHER? then Close else More)
  }

  // ---------------------------------------------------------------- whole parser

  function TakeLine(q: Info, line: string): Info {
    match q.head
    case HANDLE_INIT => QuestLine(q, line)
    case HANDLE_HEAD => if line == "" then HeadEnd(q) else HeadLine(q, line)
    case _ =>
      if q.file.FILE_BEGIN? then PartLine(q, line)
      else if line == "" then PartHeadEnd(q)
      else PartHeadLine(q, line)
  }

  function ModeOf(q: Info): Mode {
    if !q.outcome.More? then Ended else
    match q.head
    case HANDLE_INIT | HANDLE_HEAD => ReadLine
    case HANDLE_BODY =>
      if !InFile(q) then Pile
      else if q.file.FILE_BEGIN? || q.file.FILE_HEAD? then ReadLine
      else Flush(FilePath(q), Get(q.headers, BOUNDARY))
    case _ => Pile
  }

  function Finish(q: Info): Info {
    q.(file := FILE_COMPLETE, head := HANDLE_COMPLETE, outcome := Done)
  }

  const UPLOAD_PROTOCOL: Protocol<Info> := Protocol(TakeLine, ModeOf, Finish)

  /** The request line and the header lines alone. */
  function HeadMode(q: Info): Mode {
    if !q.outcome.More? then Ended
    else if q.head.HANDLE_INIT? || q.head.HANDLE_HEAD? then ReadLine
    else Pile
  }

  const HEAD_PROTOCOL: Protocol<Info> := Protocol(TakeLine, HeadMode, Finish)

  lemma UploadTerminates()
    ensures Terminates(UPLOAD_PROTOCOL) && Terminates(HEAD_PROTOCOL)
  {
  }
}
