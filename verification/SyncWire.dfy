/** The text messages one storage node sends another, and the stream extraction that reads their fields. */
module SyncWire {
  import opened ByteSearch

  // ---------------------------------------------------------------- words

  predicate IsSpace(c: char) {
    c in " \t\n\r" || c == 11 as char || c == 12 as char
  }

  /** A word that stream extraction can give back: not empty and free of white space. */
  predicate IsWord(w: string) {
    w != "" && forall i :: 0 <= i < |w| ==> !IsSpace(w[i])
  }

  /** Names that a message can carry: the user, or none for the public area, and the file. */
  predicate Printable(user: string, name: string) {
    (user == "" || IsWord(user)) && IsWord(name)
  }

  function SkipSpaces(s: string): string {
    if s != "" && IsSpace(s[0]) then SkipSpaces(s[1..]) else s
  }

  function WordLen(s: string): (n: nat)
    ensures n <= |s|
    ensures forall i :: 0 <= i < n ==> !IsSpace(s[i])
    ensures n < |s| ==> IsSpace(s[n])
  {
    if s == "" || IsSpace(s[0]) then 0 else 1 + WordLen(s[1..])
  }

  /** `stream >> word`; the word is empty exactly if the stream has run out. */
  datatype Extracted = Extracted(word: string, rest: string)

  function Word(s: string): Extracted {
    var t := SkipSpaces(s);
    Extracted(t[..WordLen(t)], t[WordLen(t)..])
  }

  lemma {:induction false} WordLenIs(w: string, rest: string)
    requires forall i :: 0 <= i < |w| ==> !IsSpace(w[i])
    requires rest == "" || IsSpace(rest[0])
    ensures WordLen(w + rest) == |w|
  {
    if w == "" {
      assert w + rest == rest;
    } else {
      assert (w + rest)[0] == w[0] && (w + rest)[1..] == w[1..] + rest;
      WordLenIs(w[1..], rest);
    }
  }

  /** The next word of a message, behind at most one blank. */
  lemma WordIs(w: string, rest: string)
    requires IsWord(w) && (rest == "" || IsSpace(rest[0]))
    ensures Word(w + rest) == Word(" " + w + rest) == Extracted(w, rest)
  {
    assert (w + rest)[0] == w[0];
    assert (" " + w + rest)[1..] == w + rest;
    WordLenIs(w, rest);
  }

  // ---------------------------------------------------------------- numbers

  const DIGITS := "0123456789"

  function Decimal(n: nat): (s: string)
    ensures s != "" && forall i :: 0 <= i < |s| ==> s[i] in DIGITS
  {
    if n < 10 then [DIGITS[n]] else Decimal(n / 10) + [DIGITS[n % 10]]
  }

  function DigitValue(c: char): (v: nat)
    requires c in DIGITS
    ensures v < 10 && DIGITS[v] == c
  {
    var v :| 0 <= v < 10 && DIGITS[v] == c;
    v
  }

  function DigitLen(s: string): (n: nat)
    ensures n <= |s|
    ensures forall i :: 0 <= i < n ==> s[i] in DIGITS
    ensures n < |s| ==> s[n] !in DIGITS
  {
    if s == "" || s[0] !in DIGITS then 0 else 1 + DigitLen(s[1..])
  }

  function Value(digits: string): nat
    requires forall i :: 0 <= i < |digits| ==> digits[i] in DIGITS
  {
    if digits == "" then 0 else 10 * Value(digits[..|digits| - 1]) + DigitValue(digits[|digits| - 1])
  }

  const LONG_MAX := 0x7fff_ffff_ffff_ffff

  datatype Number = NotANumber(value: int) | Number(value: int, rest: string)

  /** `stream >> n` for a signed 64-bit integer. If that fails, n is 0, or the nearest integer to a number too large. */
  function ReadNumber(s: string): Number {
    var t := SkipSpaces(s);
    var sign := if t != "" && t[0] in "+-" then t[..1] else "";
    var u := t[|sign|..];
    var n := DigitLen(u);
    var v: int := if sign == "-" then 0 - Value(u[..n]) else Value(u[..n]);
    if n == 0 then NotANumber(0)
    else if v < -LONG_MAX - 1 then NotANumber(-LONG_MAX - 1)
    else if v > LONG_MAX then NotANumber(LONG_MAX)
    else Number(v, u[n..])
  }

  lemma {:induction false} ValueDecimal(n: nat)
    ensures Value(Decimal(n)) == n
  {
    hide Value, DigitValue;
    if n < 10 {
      assert "" + [DIGITS[n]] == Decimal(n);
      ValueSnoc("", n);
      NoDigits();
    } else {
      ValueDecimal(n / 10);
      ValueSnoc(Decimal(n / 10), n % 10);
    }
  }

  lemma NoDigits()
    ensures Value("") == 0
  {
  }

  lemma ValueSnoc(digits: string, d: nat)
    requires d < 10 && forall i :: 0 <= i < |digits| ==> digits[i] in DIGITS
    ensures Value(digits + [DIGITS[d]]) == 10 * Value(digits) + d
  {
    hide DigitValue;
    assert (digits + [DIGITS[d]])[..|digits|] == digits;
    DigitValueIs(d);
  }

  lemma DigitValueIs(d: nat)
    requires d < 10
    ensures DigitValue(DIGITS[d]) == d
  {
    var v := DigitValue(DIGITS[d]);
    assert DIGITS[v] == DIGITS[d];
  }

  lemma {:induction false} DigitLenIs(d: string, rest: string)
    requires forall i :: 0 <= i < |d| ==> d[i] in DIGITS
    requires rest == "" || rest[0] !in DIGITS
    ensures DigitLen(d + rest) == |d|
  {
    if d == "" {
      assert d + rest == rest;
    } else {
      assert (d + rest)[0] == d[0] && (d + rest)[1..] == d[1..] + rest;
      DigitLenIs(d[1..], rest);
    }
  }

  lemma SkipBlank(u: string)
    requires u != "" && !IsSpace(u[0])
    ensures SkipSpaces(" " + u) == u
  {
    assert (" " + u)[1..] == u;
  }

  lemma DigitStarts(n: nat, rest: string)
    ensures var u := Decimal(n) + rest;
            && u[0] in DIGITS && !IsSpace(u[0]) && u[0] !in "+-"
            && u[..|Decimal(n)|] == Decimal(n) && u[|Decimal(n)|..] == rest
  {
    assert (Decimal(n) + rest)[0] == Decimal(n)[0];
  }

  lemma NumberIs(n: nat, rest: string)
    requires n <= LONG_MAX && (rest == "" || rest[0] !in DIGITS)
    ensures ReadNumber(" " + Decimal(n) + rest) == Number(n, rest)
  {
    hide Decimal, Value, DigitLen, SkipSpaces, IsSpace;
    var u := Decimal(n) + rest;
    DigitStarts(n, rest);
    assert " " + Decimal(n) + rest == " " + u && u[0..] == u;
    SkipBlank(u);
    DigitLenIs(Decimal(n), rest);
    ValueDecimal(n);
  }

  /** Other numbers: with a sign, too large, or none at all. */
  lemma NumberEdges(n: nat, rest: string)
    requires rest == "" || rest[0] !in DIGITS
    ensures n > LONG_MAX ==> ReadNumber(" " + (Decimal(n) + rest)) == NotANumber(LONG_MAX)
    ensures ReadNumber("-" + (Decimal(n) + rest))
         == if n <= LONG_MAX + 1 then Number(0 - n, rest) else NotANumber(-LONG_MAX - 1)
    ensures rest != "" && !IsSpace(rest[0]) && rest[0] !in "+-" ==> ReadNumber(rest) == NotANumber(0)
  {
    hide Decimal, Value, DigitLen, SkipSpaces, IsSpace;
    var u := Decimal(n) + rest;
    DigitStarts(n, rest);
    SkipBlank(u);
    DigitLenIs(Decimal(n), rest);
    ValueDecimal(n);
    assert u[0..] == u && ("-" + u)[1..] == u;
    NoSkip("-" + u);
    assert !IsSpace('-') by { MinusIsNoSpace(); }
    if rest != "" && !IsSpace(rest[0]) {
      NoSkip(rest);
      NoDigitFirst(rest);
    }
  }

  lemma MinusIsNoSpace()
    ensures !IsSpace('-')
  {
  }

  lemma NoSkip(s: string)
    ensures s != "" && !IsSpace(s[0]) ==> SkipSpaces(s) == s
  {
  }

  lemma NoDigitFirst(s: string)
    requires s != "" && s[0] !in DIGITS
    ensures DigitLen(s) == 0
  {
  }

  // ---------------------------------------------------------------- messages

  /** A change to hand on to a peer: an upload with the bytes of the file, or a deletion. */
  datatype Sync = Upload(user: string, name: string, content: string) | Delete(user: string, name: string)

  /** The public area is written with a user name that stands for nobody. */
  function AreaFields(user: string): string {
    if user == "" then "pub username " else "pri " + user + " "
  }

  function UploadFields(user: string, name: string, size: nat, boundary: string): string {
    AreaFields(user) + name + " " + Decimal(size) + " " + boundary
  }

  function UploadHead(user: string, name: string, size: nat, boundary: string): string {
    "UPL " + UploadFields(user, name, size, boundary) + CRLF + boundary + "--" + CRLF
  }

  function Head(s: Sync, boundary: string): string {
    match s
    case Upload(user, name, content) => UploadHead(user, name, |content|, boundary)
    case Delete(user, name) => "DEL " + AreaFields(user) + name + CRLF
  }

  function Trailer(boundary: string): string {
    CRLF + "--" + boundary + CRLF
  }

  function Message(s: Sync, boundary: string): string {
    match s
    case Upload(_, _, content) => Head(s, boundary) + content + Trailer(boundary)
    case Delete(_, _) => Head(s, boundary)
  }

  /** What the receiver makes of the fields of an upload. The old boundary stays when the size cannot be read. */
  datatype UploadArgs = UploadArgs(area: string, user: string, name: string, size: int, boundary: string)

  function ReadUpload(args: string, oldBoundary: string): UploadArgs {
    var area := Word(args);
    var user := Word(area.rest);
    var name := Word(user.rest);
    match ReadNumber(name.rest)
    case NotANumber(size) => UploadArgs(area.word, user.word, name.word, size, oldBoundary)
    case Number(size, rest) =>
      UploadArgs(area.word, user.word, name.word, size, if Word(rest).word == "" then oldBoundary else Word(rest).word)
  }

  function AreaWord(user: string): string {
    if user == "" then "pub" else "pri"
  }

  function UserWord(user: string): string {
    if user == "" then "username" else user
  }

  lemma Keywords()
    ensures IsWord("pub") && IsWord("pri") && IsWord("username")
  {
  }

  lemma AreaRoundTrip(user: string, tail: string)
    requires user == "" || IsWord(user)
    ensures var area := Word(AreaFields(user) + tail);
            area.word == AreaWord(user) && Word(area.rest) == Extracted(UserWord(user), " " + tail)
  {
    hide Word, IsWord, AreaFields, AreaWord, UserWord;
    var a, u := AreaWord(user), UserWord(user);
    AreaPieces(user, tail);
    AreaWords(user);
    WordIs(a, " " + u + (" " + tail));
    WordIs(u, " " + tail);
  }

  lemma AreaPieces(user: string, tail: string)
    ensures AreaFields(user) + tail == AreaWord(user) + (" " + UserWord(user) + (" " + tail))
  {
  }

  lemma AreaWords(user: string)
    requires user == "" || IsWord(user)
    ensures IsWord(AreaWord(user)) && IsWord(UserWord(user))
  {
    hide IsWord;
    Keywords();
  }

  lemma ReadUploadTail(user: string, name: string, size: nat, boundary: string)
    requires user == "" || IsWord(user)
    ensures UploadFields(user, name, size, boundary) == AreaFields(user) + (name + " " + Decimal(size) + " " + boundary)
  {
  }

  lemma TailRoundTrip(name: string, size: nat, boundary: string)
    requires IsWord(name) && IsWord(boundary) && size <= LONG_MAX
    ensures var name' := Word(" " + (name + " " + Decimal(size) + " " + boundary));
            && name'.word == name
            && ReadNumber(name'.rest) == Number(size, " " + boundary)
            && Word(" " + boundary).word == boundary != ""
  {
    hide Word, ReadNumber, IsWord, Decimal;
    var d := Decimal(size);
    assert " " + (name + " " + d + " " + boundary) == " " + name + (" " + d + (" " + boundary));
    WordIs(name, " " + d + (" " + boundary));
    NumberIs(size, " " + boundary);
    WordIs(boundary, "");
    assert " " + boundary + "" == " " + boundary;
    WordIsNotEmpty(boundary);
  }

  /** Header round trip: the receiver reads back area, names, size and boundary. */
  lemma UploadFieldsRoundTrip(user: string, name: string, size: nat, boundary: string, oldBoundary: string)
    requires (user == "" || IsWord(user)) && IsWord(name) && IsWord(boundary) && size <= LONG_MAX
    ensures ReadUpload(UploadFields(user, name, size, boundary), oldBoundary)
         == UploadArgs(AreaWord(user), UserWord(user), name, size, boundary)
  {
    hide Word, ReadNumber, IsWord, Decimal, AreaFields, UploadFields;
    ReadUploadTail(user, name, size, boundary);
    AreaRoundTrip(user, name + " " + Decimal(size) + " " + boundary);
    TailRoundTrip(name, size, boundary);
  }

  lemma DeleteArgs(user: string, name: string)
    requires Printable(user, name)
    ensures var area := Word(AreaFields(user) + name);
            var u := Word(area.rest);
            area.word == AreaWord(user) && u.word == UserWord(user) && Word(u.rest).word == name
  {
    hide Word, IsWord, AreaFields, AreaWord, UserWord;
    AreaRoundTrip(user, name);
    WordIs(name, "");
    assert " " + name + "" == " " + name;
  }

  lemma WordIsNotEmpty(w: string)
    requires IsWord(w)
    ensures w != ""
  {
  }

  /** No other name comes through: what is read back is a word, whatever was printed. */
  lemma OnlyWordsComeThrough(user: string, name: string, size: nat, boundary: string, oldBoundary: string)
    requires (user == "" || IsWord(user)) && IsWord(boundary) && size <= LONG_MAX
    ensures ReadUpload(UploadFields(user, name, size, boundary), oldBoundary).name == name <==> IsWord(name)
  {
    hide *;
    if IsWord(name) {
      UploadFieldsRoundTrip(user, name, size, boundary, oldBoundary);
    } else {
      NameRead(user, name, size, boundary, oldBoundary);
      DigitBehind(size, boundary);
      WordOfNonBlank(" " + name + " ", Decimal(size) + " " + boundary);
      Regrouped(name, Decimal(size), boundary);
    }
  }

  lemma NameRead(user: string, name: string, size: nat, boundary: string, oldBoundary: string)
    requires user == "" || IsWord(user)
    ensures ReadUpload(UploadFields(user, name, size, boundary), oldBoundary).name
         == Word(" " + (name + " " + Decimal(size) + " " + boundary)).word
  {
    hide Word, ReadNumber, Decimal, AreaFields, UploadFields;
    AreaRoundTrip(user, name + " " + Decimal(size) + " " + boundary);
    ReadUploadTail(user, name, size, boundary);
  }

  lemma DigitBehind(size: nat, boundary: string)
    ensures var rest := Decimal(size) + " " + boundary; rest != "" && !IsSpace(rest[0])
  {
  }

  lemma Regrouped(name: string, d: string, boundary: string)
    ensures " " + (name + " " + d + " " + boundary) == (" " + name + " ") + (d + " " + boundary)
  {
  }

  /** Behind a text that does not end with it, a digit starts or continues the word that is read. */
  lemma {:induction false} WordOfNonBlank(before: string, rest: string)
    requires rest != "" && !IsSpace(rest[0])
    ensures IsWord(Word(before + rest).word)
    decreases |before|
  {
    if before == "" {
      assert before + rest == rest;
    } else if IsSpace(before[0]) {
      WordOfNonBlank(before[1..], rest);
      assert (before + rest)[1..] == before[1..] + rest;
    } else {
      assert SkipSpaces(before + rest) == before + rest;
    }
  }
}
