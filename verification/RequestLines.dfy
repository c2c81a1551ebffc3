/** The lines of a request one by one: what the parser makes of a request line, of each kind of header line, and of the
    lines of a part, in terms of the text that was printed. */
module RequestLines {
  import opened ByteSearch
  import opened StreamParser
  import opened UploadSpec
  import W = SyncWire

  // ---------------------------------------------------------------- the request line

  function Blanks(line: string): nat {
    if line == "" then 0 else (if line[0] == ' ' then 1 else 0) + Blanks(line[1..])
  }

  lemma {:induction false} BlanksFrom(line: string)
    ensures var a := Find(line, " ", 0); Blanks(line) == if a == |line| then 0 else 1 + Blanks(line[a + 1..])
  {
    if line != "" {
      if line[0] == ' ' {
        assert "" + " " + line[1..] == line;
        FindChar("", ' ', line[1..]);
      } else {
        OneFurther(line);
        BlanksFrom(line[1..]);
        var a := Find(line[1..], " ", 0);
        assert a < |line[1..]| ==> line[1..][a + 1..] == line[a + 2..];
      }
    }
  }

  lemma OneFurther(line: string)
    requires line != "" && line[0] != ' '
    ensures Find(line, " ", 0) == 1 + Find(line[1..], " ", 0)
  {
    assert !OccursAt(line, " ", 0) by { OccursChar(line, ' ', 0); }
    FindFrom(line, " ", 1);
  }

  lemma BlanksTwice(line: string)
    ensures SplitFields(line).NoMatch? <==> Blanks(line) != 2
  {
    hide Find, Blanks;
    var a := Find(line, " ", 0);
    BlanksFrom(line);
    if a < |line| {
      var rest := line[a + 1..];
      FindFrom(line, " ", a + 1);
      BlanksFrom(rest);
      var b := Find(rest, " ", 0);
      if b < |rest| {
        FindFrom(line, " ", a + 1 + b + 1);
        assert rest[b + 1..] == line[a + 1 + b + 1..];
        BlanksFrom2(rest[b + 1..]);
      }
    }
  }

  /** A request line is rejected exactly if it does not hold two blanks. */
  lemma RejectedIff(q: Info, line: string)
    requires q.outcome.More?
    ensures if Blanks(line) != 2 then QuestLine(q, line) == Error(q) && QuestLine(q, line).outcome.Close?
            else QuestLine(q, line).head.HANDLE_HEAD? && QuestLine(q, line).outcome.More?
  {
    hide ParseResource, SplitFields, Blanks;
    BlanksTwice(line);
    match SplitFields(line)
    case NoMatch =>
    case Fields(m, resource, _) =>
      var meth := if m == "GET" then GET else if m == "POST" then POST else METHOD_OTHER;
      ResourceKeeps(q.(head := HANDLE_HEAD, meth := meth), resource);
  }

  lemma BlanksFrom2(line: string)
    ensures Blanks(line) == 0 <==> Find(line, " ", 0) == |line|
  {
    BlanksFrom(line);
  }

  lemma ResourceKeeps(q: Info, r: string)
    ensures ParseResource(q, r).head == q.head && ParseResource(q, r).outcome == q.outcome
  {
    hide Find;
  }

  lemma FieldsParse(a: string, b: string, c: string)
    requires ' ' !in a && ' ' !in b && ' ' !in c
    ensures SplitFields(a + " " + b + " " + c) == Fields(a, b, c)
  {
    hide Find;
    var line := a + " " + b + " " + c;
    assert line == a + " " + (b + " " + c);
    FindChar(a, ' ', b + " " + c);
    assert line == (a + " ") + b + " " + c;
    FindField(a + " ", b, ' ', c);
    assert line[|a| + 1 + |b| + 1..] == c;
    FindFrom(line, " ", |a| + 1 + |b| + 1);
    FindNone(c, ' ');
  }

  lemma ResourceSplits(a: string, b: string, url: string)
    requires '/' !in a && '/' !in b
    ensures var r := "/" + a + "/" + b + "/" + url;
            && Find(r, "/", 1) == 1 + |a| && r[..1 + |a|] == "/" + a
            && Find(r, "/", 2 + |a|) == 2 + |a| + |b| && r[1 + |a|..2 + |a| + |b|] == "/" + b && r[3 + |a| + |b|..] == url
  {
    hide Find;
    FourPieces("/", a, b, url);
    FindField("/", a, '/', b + "/" + url);
    FindField("/" + a + "/", b, '/', url);
  }

  lemma FourPieces(s: string, a: string, b: string, url: string)
    requires |s| == 1
    ensures var r := s + a + s + b + s + url;
            && r == s + a + s + (b + s + url) == (s + a + s) + b + s + url
            && r[..1 + |a|] == s + a && r[1 + |a|..2 + |a| + |b|] == s + b && r[3 + |a| + |b|..] == url
  {
    Associative(s + a + s, b + s, url);
    Associative(s + a + s, b, s);
  }

  lemma Slashed(a: string, word: string)
    ensures "/" + a == "/" + word <==> a == word
  {
    assert ("/" + a)[1..] == a && ("/" + word)[1..] == word;
  }

  /** The area and what to do are told by the two directories of the resource, whatever follows is the file. */
  lemma ResourceIs(q: Info, a: string, b: string, url: string)
    requires '/' !in a && '/' !in b
    ensures var p := ParseResource(q, "/" + a + "/" + b + "/" + url);
            && p == q.(area := p.area, behavior := p.behavior, fileName := url, code := 200)
            && (p.area.PUBLIC? <==> a == "public") && (p.area.PRIVATE? <==> a == "private")
            && (p.behavior.UPLOAD? <==> b == "upload") && (p.behavior.DOWNLOAD? <==> b == "download")
            && (p.behavior.DELETE? <==> b == "delete")
  {
    hide Find;
    ResourceSplits(a, b, url);
    Slashed(a, "public");
    Slashed(a, "private");
    Slashed(b, "upload");
    Slashed(b, "download");
    Slashed(b, "delete");
    assert "/" + "public" == "/public" && "/" + "private" == "/private";
    assert "/" + "upload" == "/upload" && "/" + "download" == "/download" && "/" + "delete" == "/delete";
  }

  /** A resource with one directory or none is not found. */
  lemma ShortResource(q: Info, a: string, b: string)
    requires '/' !in a && '/' !in b
    ensures ParseResource(q, "/" + a) == q.(area := PATH_OTHER, code := 404)
    ensures var p := ParseResource(q, "/" + a + "/" + b);
            && p == q.(area := p.area, behavior := BEHAVIOR_OTHER, code := 404)
            && (p.area.PUBLIC? <==> a == "public") && (p.area.PRIVATE? <==> a == "private")
  {
    hide Find;
    Slashed(a, "public");
    Slashed(a, "private");
    assert "/" + "public" == "/public" && "/" + "private" == "/private";
    NoMoreSlash("/", a);
    var r := "/" + a + "/" + b;
    FindField("/", a, '/', b);
    NoMoreSlash("/" + a + "/", b);
    assert r[..1 + |a|] == "/" + a;
  }

  lemma NoMoreSlash(skipped: string, rest: string)
    requires '/' !in rest
    ensures Find(skipped + rest, "/", |skipped|) == |skipped + rest|
  {
    hide Find;
    FindFrom(skipped + rest, "/", |skipped|);
    assert (skipped + rest)[|skipped|..] == rest;
    FindNone(rest, '/');
  }

  /** The request line of three fields, for every method, area and action. */
  lemma RequestLine(q: Info, m: string, a: string, b: string, url: string, v: string)
    requires ' ' !in m + a + b + url + v && '/' !in a && '/' !in b
    ensures var p := QuestLine(q, m + " " + ("/" + a + "/" + b + "/" + url) + " " + v);
            && p == q.(head := HANDLE_HEAD, meth := p.meth, area := p.area, behavior := p.behavior, fileName := url,
                       code := 200)
            && (p.meth.GET? <==> m == "GET") && (p.meth.POST? <==> m == "POST")
            && (p.area.PUBLIC? <==> a == "public") && (p.area.PRIVATE? <==> a == "private")
            && (p.behavior.UPLOAD? <==> b == "upload") && (p.behavior.DOWNLOAD? <==> b == "download")
            && (p.behavior.DELETE? <==> b == "delete")
  {
    hide SplitFields, ParseResource;
    var r := "/" + a + "/" + b + "/" + url;
    assert ' ' !in m && ' ' !in a && ' ' !in b && ' ' !in url && ' ' !in v;
    assert ' ' !in r;
    FieldsParse(m, r, v);
    ResourceIs(q.(head := HANDLE_HEAD, meth := if m == "GET" then GET else if m == "POST" then POST else METHOD_OTHER),
               a, b, url);
  }

  // ---------------------------------------------------------------- header lines

  /** A header line is split at its first colon; the byte behind it is skipped. */
  lemma HeaderSplits(key: string, value: string)
    requires ':' !in key
    ensures var line := key + ": " + value;
            var full := line + CRLF;
            && Find(full, ":", 0) == |key| < |full| && full[..|key|] == key
            && |key| + 2 <= |line| && line[|key| + 2..] == value
  {
    hide Find;
    var line := key + ": " + value;
    FindChar(key, ':', " " + value + CRLF);
    assert line + CRLF == key + ":" + (" " + value + CRLF);
  }

  /** A key without a value: the byte behind the colon is skipped if it is there, and the end of the line taken if not. */
  lemma ShortHeader(q: Info, key: string, c: char)
    requires ':' !in key && key != "Content-Type" && key != "Cookie" && key != "Content-Length"
    ensures HeadLine(q, key + ":") == q.(headers := q.headers[key := "\n"])
    ensures HeadLine(q, key + ":" + [c]) == q.(headers := q.headers[key := ""])
  {
    hide Find, ContentType, ParseCookie, Stoi;
    FindChar(key, ':', CRLF);
    FindChar(key, ':', [c] + CRLF);
    assert key + ":" + [c] + CRLF == key + ":" + ([c] + CRLF);
    assert (key + ":" + CRLF)[..|key|] == key && (key + ":" + ([c] + CRLF))[..|key|] == key;
    assert (key + ":" + [c])[|key| + 2..] == "";
  }

  /** A line without a colon ends the request. */
  lemma NoColon(q: Info, line: string)
    requires ':' !in line
    ensures HeadLine(q, line) == Error(q)
  {
    hide Find;
    assert ':' !in line + CRLF;
    FindNone(line + CRLF, ':');
  }

  /** A header that means nothing to the program stands under its key. */
  lemma OtherParses(q: Info, key: string, value: string)
    requires ':' !in key && key != "Content-Type" && key != "Cookie" && key != "Content-Length"
    ensures HeadLine(q, key + ": " + value) == q.(headers := q.headers[key := value])
  {
    hide Find, ContentType, ParseCookie, Stoi;
    HeaderSplits(key, value);
  }

  /** A content type with its boundary. */
  lemma TypeParses(q: Info, boundary: string)
    ensures HeadLine(q, "Content-Type: multipart/form-data; boundary=" + boundary)
         == q.(headers := q.headers["Content-Type" := "multipart/form-data"]["boundary" := boundary])
  {
    hide Find, ContentType, ParseCookie, Stoi;
    var value := "multipart/form-data" + "; " + "boundary" + "=" + boundary;
    TypeText(boundary);
    HeaderSplits("Content-Type", value);
    ParameterParses(q, "multipart/form-data", "boundary", boundary);
  }

  lemma TypeText(boundary: string)
    ensures "Content-Type: multipart/form-data; boundary=" + boundary
         == "Content-Type" + ": " + ("multipart/form-data" + "; " + "boundary" + "=" + boundary)
  {
    TypeWords();
    TypeHead();
    Associative("Content-Type" + ": ", "multipart/form-data" + "; " + "boundary" + "=", boundary);
  }

  lemma TypeWords()
    ensures "multipart/form-data" + "; " + "boundary" + "=" == "multipart/form-data; boundary="
  {
  }

  lemma TypeHead()
    ensures "Content-Type" + ": " + "multipart/form-data; boundary=" == "Content-Type: multipart/form-data; boundary="
  {
  }

  /** Any content type with one parameter stores both; one without parameters stores itself. */
  lemma ParameterParses(q: Info, kind: string, name: string, value: string)
    requires ';' !in kind && '=' !in name
    ensures ContentType(q, kind + "; " + name + "=" + value)
         == q.(headers := q.headers["Content-Type" := kind][name := value])
    ensures ContentType(q, kind) == q.(headers := q.headers["Content-Type" := kind])
  {
    hide Find;
    ValuePieces(kind, name, value);
    FindNone(kind, ';');
  }

  /** A content type that ends with its semicolon throws; a parameter without a value stands for the whole. */
  lemma TypeEdges(q: Info, kind: string, name: string)
    requires ';' !in kind && '=' !in name
    ensures ContentType(q, kind + ";") == q.(outcome := Fault)
    ensures ContentType(q, kind + "; " + name)
         == q.(headers := q.headers["Content-Type" := kind][name := kind + "; " + name])
  {
    hide Find;
    assert kind + ";" == kind + ";" + "";
    FindChar(kind, ';', "");
    var value := kind + "; " + name;
    assert value == kind + ";" + (" " + name);
    FindChar(kind, ';', " " + name);
    FindFrom(value, "=", |kind|);
    assert value[|kind|..] == "; " + name && '=' !in "; " + name;
    FindNone("; " + name, '=');
    assert value[|kind| + 2..] == name && value[..|kind|] == kind;
  }

  /** A value with one parameter behind it. */
  lemma ValuePieces(first: string, name: string, param: string)
    requires ';' !in first && '=' !in name
    ensures var value := first + "; " + name + "=" + param;
            var sem, eq := Find(value, ";", 0), Find(value, "=", |first|);
            && sem == |first| && eq == |first| + 2 + |name| && eq < |value|
            && value[..sem] == first && value[sem + 2..eq] == name && value[eq + 1..] == param
  {
    hide Find;
    var value := first + "; " + name + "=" + param;
    assert value == first + ";" + (" " + name + "=" + param);
    FindChar(first, ';', " " + name + "=" + param);
    assert value == first + ("; " + name) + "=" + param;
    FindField(first, "; " + name, '=', param);
  }

  lemma CookieParses(q: Info, user: string, pass: string)
    requires '=' !in user + pass && '\0' !in user + pass
    ensures HeadLine(q, "Cookie: " + user + "=" + pass) == q.(userName := q.userName + user, passWord := q.passWord + pass)
  {
    hide Find, ParseCookie, ContentType, Stoi;
    var value := user + "=" + pass;
    HeaderSplits("Cookie", value);
    assert "Cookie: " + user + "=" + pass == "Cookie" + ": " + value;
    UserParses(q, user, pass);
  }

  function Without(s: string, c: char): string {
    if s == "" then "" else (if s[0] == c then "" else [s[0]]) + Without(s[1..], c)
  }

  lemma {:induction false} PassWithout(q: Info, line: string)
    requires '\0' !in line
    ensures ParseCookie(q, line, true) == q.(passWord := q.passWord + Without(line, '='))
    decreases |line|
  {
    if line == "" {
      assert q.passWord + "" == q.passWord;
    } else if line[0] == '=' {
      PassWithout(q, line[1..]);
      assert "" + Without(line[1..], '=') == Without(line[1..], '=');
    } else {
      PassWithout(q.(passWord := q.passWord + [line[0]]), line[1..]);
      Associative(q.passWord, [line[0]], Without(line[1..], '='));
    }
  }

  lemma {:induction false} UpToNul(q: Info, line: string, rest: string, inPass: bool)
    requires '\0' !in line
    ensures ParseCookie(q, line + "\0" + rest, inPass) == ParseCookie(q, line, inPass)
    decreases |line|
  {
    var whole := line + "\0" + rest;
    if line == "" {
      assert whole[0] == '\0';
    } else {
      assert whole[0] == line[0] && whole[1..] == line[1..] + "\0" + rest;
      if line[0] == '=' {
        UpToNul(q, line[1..], rest, true);
      } else if inPass {
        UpToNul(q.(passWord := q.passWord + [line[0]]), line[1..], rest, true);
      } else {
        UpToNul(q.(userName := q.userName + [line[0]]), line[1..], rest, false);
      }
    }
  }

  /** Any cookie: what stands before its first '=' is added to the name, what stands behind it to the token, without
      further '='; a NUL ends it. */
  lemma CookieSplits(q: Info, user: string, more: string, rest: string)
    requires '=' !in user && '\0' !in user + more
    ensures var r := q.(userName := q.userName + user, passWord := q.passWord + Without(more, '='));
            ParseCookie(q, user + "=" + more, false) == r == ParseCookie(q, user + "=" + more + "\0" + rest, false)
    ensures ParseCookie(q, user, false) == q.(userName := q.userName + user)
  {
    FirstPartOf(q, user, more);
    assert '\0' !in user + "=" + more;
    UpToNul(q, user + "=" + more, rest, false);
  }

  lemma {:induction false} FirstPartOf(q: Info, user: string, more: string)
    requires '=' !in user && '\0' !in user + more
    ensures ParseCookie(q, user + "=" + more, false)
         == q.(userName := q.userName + user, passWord := q.passWord + Without(more, '='))
    ensures ParseCookie(q, user, false) == q.(userName := q.userName + user)
    decreases |user|
  {
    var line := user + "=" + more;
    if user == "" {
      assert line[1..] == more && line[0] == '=';
      assert q.userName + "" == q.userName;
      PassWithout(q, more);
    } else {
      assert line[0] == user[0] && line[1..] == user[1..] + "=" + more;
      FirstPartOf(q.(userName := q.userName + [user[0]]), user[1..], more);
      assert q.userName + [user[0]] + user[1..] == q.userName + user;
    }
  }

  lemma {:induction false} UserParses(q: Info, user: string, pass: string)
    requires '=' !in user + pass && '\0' !in user + pass
    ensures ParseCookie(q, user + "=" + pass, false) == q.(userName := q.userName + user, passWord := q.passWord + pass)
    decreases |user|
  {
    var line := user + "=" + pass;
    if user == "" {
      assert line[1..] == pass && line[0] == '=';
      assert q.userName + "" == q.userName;
      PassParses(q, pass);
    } else {
      assert line[0] == user[0] && line[1..] == user[1..] + "=" + pass;
      UserParses(q.(userName := q.userName + [user[0]]), user[1..], pass);
      assert q.userName + [user[0]] + user[1..] == q.userName + user;
    }
  }

  lemma {:induction false} PassParses(q: Info, pass: string)
    requires '=' !in pass && '\0' !in pass
    ensures ParseCookie(q, pass, true) == q.(passWord := q.passWord + pass)
    decreases |pass|
  {
    if pass == "" {
      assert q.passWord + "" == q.passWord;
    } else {
      PassParses(q.(passWord := q.passWord + [pass[0]]), pass[1..]);
      assert q.passWord + [pass[0]] + pass[1..] == q.passWord + pass;
    }
  }

  /** A length is stored if it fits an int; one that does not throws. */
  lemma LengthParses(q: Info, n: nat)
    ensures HeadLine(q, "Content-Length: " + W.Decimal(n))
         == if n < 0x8000_0000 then q.(bodyLen := n) else q.(outcome := Fault)
  {
    hide Find, ContentType, ParseCookie, Stoi, W.Decimal;
    HeaderSplits("Content-Length", W.Decimal(n));
    assert "Content-Length: " + W.Decimal(n) == "Content-Length" + ": " + W.Decimal(n);
    StoiNumbers(n, "");
    assert W.Decimal(n) + "" == W.Decimal(n);
  }

  /** What `stoi` makes of a number that anything but a digit may follow. */
  lemma StoiNumbers(n: nat, rest: string)
    requires rest == "" || rest[0] !in W.DIGITS
    ensures Stoi(W.Decimal(n) + rest) == if n < 0x8000_0000 then Number(n) else Thrown
    ensures Stoi("-" + (W.Decimal(n) + rest)) == if n <= 0x8000_0000 then Number(0 - n) else Thrown
    ensures Stoi(" " + (W.Decimal(n) + rest)) == Stoi(W.Decimal(n) + rest)
  {
    hide W.Decimal, W.Value, W.DigitLen, W.IsSpace, W.SkipSpaces;
    var d := W.Decimal(n) + rest;
    W.DigitStarts(n, rest);
    W.DigitLenIs(W.Decimal(n), rest);
    W.ValueDecimal(n);
    W.NoSkip(d);
    W.SkipBlank(d);
    assert !W.IsSpace('-') by { W.MinusIsNoSpace(); }
    W.NoSkip("-" + d);
    assert ("-" + d)[1..] == d;
  }

  /** A text that begins with neither blank, sign nor digit is no number. */
  lemma NoNumber(q: Info, s: string)
    requires s != "" && !W.IsSpace(s[0]) && s[0] !in "+-" && s[0] !in W.DIGITS
    ensures Stoi(s) == Thrown && HeadLine(q, "Content-Length: " + s) == q.(outcome := Fault)
  {
    hide Find, ContentType, ParseCookie;
    HeaderSplits("Content-Length", s);
    assert "Content-Length: " + s == "Content-Length" + ": " + s;
    W.NoSkip(s);
  }

  /** The empty line: a request of another method than POST is complete; an upload goes on to its part, and any other
      body piles up unread. A missing content type is one of no kind. */
  lemma EndIs(q: Info)
    requires q.head.HANDLE_HEAD? && q.outcome.More?
    ensures var r, kind := TakeLine(q, ""), if "Content-Type" in q.headers then q.headers["Content-Type"] else "";
            && r == q.(head := r.head, outcome := r.outcome, file := r.file, headers := q.headers["Content-Type" := kind])
            && (!q.meth.POST? ==> r.outcome.Done? && r.file == q.file)
            && (q.meth.POST? ==> r.outcome.More? && r.head.HANDLE_BODY?)
            && (q.meth.POST? && kind == "multipart/form-data" ==> r.file.FILE_BEGIN? && ModeOf(r).ReadLine?)
            && (q.meth.POST? && kind != "multipart/form-data" ==> r.file == q.file && ModeOf(r).Pile?)
  {
  }

  // ---------------------------------------------------------------- the lines of a part

  /** A line of the part that does not name a file changes nothing. */
  lemma SkippedParses(q: Info, line: string)
    requires Find(line, "filename", 0) == |line|
    ensures PartHeadLine(q, line) == q
  {
    NoName(line);
  }

  lemma NoName(line: string)
    requires Find(line, "filename", 0) == |line|
    ensures Find(line + CRLF, "filename", 0) == |line + CRLF|
  {
    var s := line + CRLF;
    forall i | 0 <= i < |s| ensures !OccursAt(s, "filename", i) {
      if OccursAt(s, "filename", i) {
        var at := s[i..i + 8];
        assert at[7] == 'e' && at[6] == 'm';
        assert i + 8 <= |line|;
        OccursAtWithin(line, CRLF, "filename", i);
        assert false;
      }
    }
    FindIs(s, "filename", 0, |s|);
  }

  /** The line that names the file: `disposition` stands before it, and `trailer` behind. */
  lemma NameParses(q: Info, disposition: string, name: string, trailer: string)
    requires Find(disposition + "filename", "filename", 0) == |disposition| && '\"' !in name
    ensures PartHeadLine(q, disposition + "filename=\"" + name + "\"" + trailer)
         == q.(recvFileName := q.recvFileName + name)
  {
    hide Find;
    var tail := "=\"" + name + "\"" + trailer + CRLF;
    NamePieces(disposition, "filename", "=\"", name, "\"", trailer, CRLF);
    assert "filename" + "=\"" == "filename=\"";
    FindStable(disposition + "filename", tail, "filename", 0);
    FindChar(name, '\"', trailer + CRLF);
    assert (name + "\"" + (trailer + CRLF))[..|name|] == name;
  }

  lemma NamePieces(d: string, w: string, e: string, n: string, m: string, t: string, c: string)
    ensures var full := d + (w + e) + n + m + t + c;
            full == (d + w) + (e + n + m + t + c) && full[|d| + |w + e|..] == n + m + (t + c)
  {
    Associative(d, w, e);
    var p := d + w;
    Associative(p, e + n + m + t, c);
    Associative(p, e + n + m, t);
    Associative(p, e + n, m);
    Associative(p, e, n);
    var h := d + (w + e);
    Associative(h + n + m, t, c);
    Associative(h + n, m, t + c);
    Associative(h, n, m + (t + c));
    Associative(n, m, t + c);
    assert (h + (n + m + (t + c)))[|h|..] == n + m + (t + c);
  }

  /** A name that no quote ends is read past the end of the line. */
  lemma NoQuote(q: Info, disposition: string, name: string)
    requires Find(disposition + "filename", "filename", 0) == |disposition| && '\"' !in name
    ensures PartHeadLine(q, disposition + "filename=\"" + name) == q.(outcome := Fault)
  {
    hide Find;
    Unquoted(disposition, "filename", "=\"", name, CRLF);
    NameWord();
    assert '\"' !in name + CRLF;
    FindNone(name + CRLF, '\"');
  }

  lemma NameWord()
    ensures "filename" + "=\"" == "filename=\"" && |"filename=\""| == 10
  {
  }

  lemma Unquoted(d: string, w: string, e: string, n: string, c: string)
    requires w != "" && Find(d + w, w, 0) == |d|
    ensures var full := d + (w + e) + n + c; Find(full, w, 0) == |d| && full[|d| + |w + e|..] == n + c
  {
    hide Find;
    QuotePieces(d, w, e, n, c);
    FindStable(d + w, e + n + c, w, 0);
  }

  lemma QuotePieces(d: string, w: string, e: string, n: string, c: string)
    ensures var full := d + (w + e) + n + c; full == (d + w) + (e + n + c) && full[|d| + |w + e|..] == n + c
  {
    Associative(d, w, e);
    Associative(d + w, e + n, c);
    Associative(d + w, e, n);
    Associative(d + (w + e), n, c);
    assert (d + (w + e) + (n + c))[|d + (w + e)|..] == n + c;
  }

  /** The end of the part's header: the file is opened in the area of the request, and there is none outside both. */
  lemma PartEndIs(q: Info)
    requires q.head.HANDLE_BODY? && q.file.FILE_HEAD? && q.outcome.More? && InFile(q)
    ensures var r := TakeLine(q, "");
            match q.area
            case PUBLIC => ModeOf(r) == Flush(q.root + "/public/" + q.recvFileName, Get(q.headers, "boundary"))
            case PRIVATE =>
              ModeOf(r) == Flush(q.root + "/private/" + q.userName + "/" + q.recvFileName, Get(q.headers, "boundary"))
            case PATH_OTHER => r.outcome.Close?
  {
  }

  /** The line that opens the part has to repeat the boundary of the header. */
  lemma OpeningIff(q: Info, line: string)
    requires q.outcome.More? && "boundary" in q.headers
    ensures PartLine(q, line) == if line == "--" + q.headers["boundary"] then q.(file := FILE_HEAD)
                                 else q.(outcome := Close)
  {
  }
}
