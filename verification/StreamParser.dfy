/** A parser that reads a byte stream line by line and then flushes a delimited body to a file.

    It is stated for any line protocol, because nothing here depends on what the lines mean. */
module StreamParser {
  import opened ByteSearch
  import opened FileScan

  /** What the parser does with the bytes that arrive next. Bytes of a body it does not understand pile up
      unread; nothing is read after the receive loop has returned. */
  datatype Mode = ReadLine | Flush(path: string, boundary: string) | Pile | Ended

  /** How a line changes what is known (`take`), what that asks for next (`mode`), and what is known once the
      closing delimiter has been found (`finish`). */
  datatype Protocol<!I> = Protocol(take: (I, string) -> I, mode: I -> Mode, finish: I -> I)

  /** A request in progress: what its lines have taught, the files, and the bytes not consumed yet. */
  datatype Request<I> = Request(info: I, disk: map<string, string>, pending: string)

  function Get(m: map<string, string>, key: string): string {
    if key in m then m[key] else ""
  }

  function ClosingDelimiter(boundary: string): string {
    CRLF + "--" + boundary + "--" + CRLF
  }

  datatype Flushed = Flushed(disk: map<string, string>, rest: string, done: bool)

  /** Everything before the stop position reaches the file, which is created if it is not there. */
  function FlushTo(disk: map<string, string>, path: string, delim: string, pending: string): Flushed {
    var e := Stop(pending, CR, delim, 0);
    Flushed(disk[path := Get(disk, path) + pending[..e]], pending[e..], OccursAt(pending, delim, e))
  }

  /** What is left unread after the receive loop has returned does not show. */
  function Keep<I>(pr: Protocol<I>, info: I, disk: map<string, string>, pending: string): Request<I> {
    Request(info, disk, if pr.mode(info).Ended? then "" else pending)
  }

  function Content<I>(pr: Protocol<I>, q: Request<I>, path: string, boundary: string): Request<I> {
    var f := FlushTo(q.disk, path, ClosingDelimiter(boundary), q.pending);
    if f.done then Request(pr.finish(q.info), f.disk, "") else Request(q.info, f.disk, f.rest)
  }

  predicate HasLine(pending: string) {
    Find(pending, CRLF, 0) < |pending|
  }

  /** The first pending line is handled and dropped with its line end. */
  function AfterLine<I>(pr: Protocol<I>, q: Request<I>): (r: Request<I>)
    requires HasLine(q.pending)
    ensures |r.pending| < |q.pending|
  {
    var i := Find(q.pending, CRLF, 0);
    Keep(pr, pr.take(q.info, q.pending[..i]), q.disk, q.pending[i + 2..])
  }

  /** Parses as far as the pending bytes allow. */
  function Run<I>(pr: Protocol<I>, q: Request<I>): Request<I>
    decreases |q.pending|
  {
    match pr.mode(q.info)
    case ReadLine => if HasLine(q.pending) then Run(pr, AfterLine(pr, q)) else q
    case Flush(path, boundary) => Content(pr, q, path, boundary)
    case Pile => q
    case Ended => Keep(pr, q.info, q.disk, q.pending)
  }

  /** A received chunk is appended to the pending bytes, unless the loop has already returned. */
  function Plus<I>(pr: Protocol<I>, q: Request<I>, chunk: string): Request<I> {
    Keep(pr, q.info, q.disk, q.pending + chunk)
  }

  function Feed<I>(pr: Protocol<I>, q: Request<I>, chunk: string): Request<I> {
    Run(pr, Plus(pr, q, chunk))
  }

  function FeedAll<I>(pr: Protocol<I>, q: Request<I>, chunks: seq<string>): Request<I>
    decreases |chunks|
  {
    if chunks == [] then q else FeedAll(pr, Feed(pr, q, chunks[0]), chunks[1..])
  }

  /** A protocol that has found its closing delimiter is over. */
  ghost predicate Terminates<I(!new)>(pr: Protocol<I>) {
    forall info :: pr.mode(info).Flush? ==> pr.mode(pr.finish(info)).Ended?
  }

  // ---------------------------------------------------------------- split independence

  /** A flush that did not finish, continued with more bytes, does what one flush of everything does. */
  lemma FlushWaits(disk: map<string, string>, path: string, delim: string, p: string, b: string)
    requires Compatible(CR, delim)
    requires !FlushTo(disk, path, delim, p).done
    ensures var f := FlushTo(disk, path, delim, p);
            FlushTo(f.disk, path, delim, f.rest + b) == FlushTo(disk, path, delim, p + b)
  {
    hide Stop, OccursAt;
    PassAppend(p, b, delim);
    var was, e := Get(disk, path), Stop(p, CR, delim, 0);
    var rest := p[e..] + b;
    var e' := Stop(rest, CR, delim, 0);
    assert was + p[..e] + rest[..e'] == was + (p[..e] + rest[..e']);
  }

  lemma FlushEnds(disk: map<string, string>, path: string, delim: string, p: string, b: string)
    requires Compatible(CR, delim)
    requires FlushTo(disk, path, delim, p).done
    ensures FlushTo(disk, path, delim, p + b)
         == FlushTo(disk, path, delim, p).(rest := FlushTo(disk, path, delim, p).rest + b)
  {
    hide Stop, OccursAt;
    StopAppend(p, b, delim);
    StopOfMore(p, b, Stop(p, CR, delim, 0));
  }

  lemma StopOfMore(p: string, b: string, e: nat)
    requires e <= |p|
    ensures (p + b)[..e] == p[..e] && (p + b)[e..] == p[e..] + b
  {
  }

  lemma ContentAbsorbs<I(!new)>(pr: Protocol<I>, q: Request<I>, b: string)
    requires Terminates(pr) && pr.mode(q.info).Flush?
    ensures Run(pr, Plus(pr, Run(pr, q), b)) == Run(pr, Plus(pr, q, b))
  {
    var Flush(path, boundary) := pr.mode(q.info);
    if FlushTo(q.disk, path, ClosingDelimiter(boundary), q.pending).done {
      FlushEnds(q.disk, path, ClosingDelimiter(boundary), q.pending, b);
    } else {
      FlushWaits(q.disk, path, ClosingDelimiter(boundary), q.pending, b);
    }
  }

  lemma LineAbsorbs<I>(pr: Protocol<I>, q: Request<I>, b: string)
    requires HasLine(q.pending) && !pr.mode(q.info).Ended?
    ensures HasLine(Plus(pr, q, b).pending)
    ensures AfterLine(pr, Plus(pr, q, b)) == Plus(pr, AfterLine(pr, q), b)
  {
    hide Find;
    var i := Find(q.pending, CRLF, 0);
    FindStable(q.pending, b, CRLF, 0);
    LineOfMore(q.pending, b, i);
  }

  lemma LineOfMore(p: string, b: string, i: nat)
    requires i + 2 <= |p|
    ensures (p + b)[..i] == p[..i] && (p + b)[i + 2..] == p[i + 2..] + b
  {
  }

  lemma PlusPlus<I>(pr: Protocol<I>, q: Request<I>, a: string, b: string)
    ensures Plus(pr, Plus(pr, q, a), b) == Plus(pr, q, a + b)
  {
    assert q.pending + a + b == q.pending + (a + b);
  }

  /** Running the parser early on a first part of the bytes changes nothing in the end. */
  lemma {:induction false} RunAbsorbs<I(!new)>(pr: Protocol<I>, q: Request<I>, b: string)
    requires Terminates(pr)
    ensures Run(pr, Plus(pr, Run(pr, q), b)) == Run(pr, Plus(pr, q, b))
    decreases |q.pending|
  {
    if pr.mode(q.info).Flush? {
      ContentAbsorbs(pr, q, b);
    } else if pr.mode(q.info).ReadLine? && HasLine(q.pending) {
      hide HasLine, AfterLine, Plus;
      LineAbsorbs(pr, q, b);
      RunAbsorbs(pr, AfterLine(pr, q), b);
      assert Plus(pr, q, b).info == q.info by { PlusKeeps(pr, q, b); }
    }
  }

  lemma PlusKeeps<I>(pr: Protocol<I>, q: Request<I>, b: string)
    ensures Plus(pr, q, b).info == q.info && Plus(pr, q, b).disk == q.disk
  {
  }

  /** Two chunks in a row do what their concatenation does. */
  lemma FeedFeed<I(!new)>(pr: Protocol<I>, q: Request<I>, a: string, b: string)
    requires Terminates(pr)
    ensures Feed(pr, Feed(pr, q, a), b) == Feed(pr, q, a + b)
  {
    hide Run;
    RunAbsorbs(pr, Plus(pr, q, a), b);
    PlusPlus(pr, q, a, b);
  }

  lemma {:induction false} FeedAllIsFeed<I(!new)>(pr: Protocol<I>, q: Request<I>, chunks: seq<string>)
    requires Terminates(pr) && chunks != []
    ensures FeedAll(pr, q, chunks) == Feed(pr, q, Flatten(chunks))
    decreases |chunks|
  {
    if |chunks| == 1 {
      assert Flatten(chunks) == chunks[0] + "" == chunks[0];
    } else {
      FeedAllIsFeed(pr, Feed(pr, q, chunks[0]), chunks[1..]);
      FeedFeed(pr, q, chunks[0], Flatten(chunks[1..]));
    }
  }

  lemma FlushAll<I>(pr: Protocol<I>, q: Request<I>, body: string)
    requires q.pending == "" && pr.mode(q.info).Flush?
    ensures Feed(pr, q, body)
         == Content(pr, Request(q.info, q.disk, body), pr.mode(q.info).path, pr.mode(q.info).boundary)
  {
    assert "" + body == body;
  }

  lemma DelimiterFits(boundary: string)
    ensures Compatible(CR, ClosingDelimiter(boundary))
  {
  }

  /** The scanner splits the body at the first occurrence of its closing delimiter, however the body is cut.
      Until the delimiter is complete the file has everything but a tail that may be its beginning. */
  lemma BodySplit<I(!new)>(pr: Protocol<I>, q: Request<I>, chunks: seq<string>)
    requires Terminates(pr) && chunks != [] && q.pending == "" && pr.mode(q.info).Flush?
    ensures var Flush(path, boundary) := pr.mode(q.info);
            var body, delim := Flatten(chunks), ClosingDelimiter(boundary);
            var at := Find(body, delim, 0);
            var was := Get(q.disk, path);
            FeedAll(pr, q, chunks) ==
            if at < |body| then Request(pr.finish(q.info), q.disk[path := was + body[..at]], "")
            else Request(q.info, q.disk[path := was + body[..HoldFrom(body, delim)]], body[HoldFrom(body, delim)..])
  {
    hide Feed, Find, HoldFrom, Stop, OccursAt, ClosingDelimiter;
    var body := Flatten(chunks);
    FeedAllIsFeed(pr, q, chunks);
    FlushAll(pr, q, body);
    DelimiterFits(pr.mode(q.info).boundary);
    StopClosedForm(body, ClosingDelimiter(pr.mode(q.info).boundary));
  }
}
