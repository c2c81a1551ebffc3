/** The 64 bytes of a page of the ring log (storage/src/consistlog/logformat.h), as WriteRollbackLog
    (storage/src/consistlog/ringlog/ringlog.cpp) fills them: the two names are copied to fixed places, by loops
    that run to the longer of the name and its field. */
module PageBytes {

  const PAGE := 64
  const USER_AT := 24
  const FILE_AT := 36
  const LINKS_AT := 48
  const FIELD := 12

  function Longer(name: string): nat { if |name| < FIELD then FIELD else |name| }

  /** What subscripting a string gives: behind its final NUL, anything. */
  function CharAt(name: string, i: nat, junk: nat -> char): char {
    if i < |name| then name[i] else if i == |name| then '\0' else junk(i)
  }

  /** There is memory for every byte that copying a name to place `at` writes. */
  predicate Room(mem: string, at: nat, name: string) { at + Longer(name) < |mem| }

  /** The memory after the name was copied to place `at`. */
  function Copied(mem: string, at: nat, name: string, junk: nat -> char): (r: string)
    requires Room(mem, at, name)
    ensures |r| == |mem|
  {
    seq(|mem|, k requires 0 <= k < |mem| =>
      if at <= k < at + Longer(name) then CharAt(name, k - at, junk)
      else if k == at + |name| && |name| > FIELD then '\0'
      else mem[k])
  }

  /** The loop. Every character but the twelfth is followed by a NUL, which the next one overwrites. */
  method CopyName(mem: array<char>, at: nat, name: string, junk: nat -> char)
    requires Room(mem[..], at, name)
    modifies mem
    ensures mem[..] == Copied(old(mem[..]), at, name, junk)
  {
    for i := 0 to Longer(name)
      invariant forall k :: 0 <= k < at ==> mem[k] == old(mem[k])
      invariant forall k :: 0 <= k < i ==> mem[at + k] == CharAt(name, k, junk)
      invariant i != 0 && i != FIELD ==> mem[at + i] == '\0'
      invariant i == 0 || i == FIELD ==> mem[at + i] == old(mem[at + i])
      invariant forall k :: at + i < k < mem.Length ==> mem[k] == old(mem[k])
    {
      mem[at + i] := CharAt(name, i, junk);
      if i != 11 { mem[at + i + 1] := '\0'; }
    }
  }

  predicate RoomForBoth(mem: string, user: string, file: string) {
    |mem| >= PAGE && Room(mem, USER_AT, user) && Room(mem, FILE_AT, file)
  }

  /** The memory after both names were copied, the user name first. */
  function Named(mem: string, user: string, file: string, junk: nat -> char): (r: string)
    requires RoomForBoth(mem, user, file)
    ensures |r| == |mem|
  {
    Copied(Copied(mem, USER_AT, user, junk), FILE_AT, file, junk)
  }

  lemma NamedAt(mem: string, user: string, file: string, junk: nat -> char, k: nat)
    requires RoomForBoth(mem, user, file) && k < |mem|
    ensures Named(mem, user, file, junk)[k] ==
            if FILE_AT <= k < FILE_AT + Longer(file) then CharAt(file, k - FILE_AT, junk)
            else if k == FILE_AT + |file| && |file| > FIELD then '\0'
            else if USER_AT <= k < USER_AT + Longer(user) then CharAt(user, k - USER_AT, junk)
            else if k == USER_AT + |user| && |user| > FIELD then '\0'
            else mem[k]
  {}

  /** No byte from `from` up to `to` changes, whatever the memory held. */
  ghost predicate Survives(user: string, file: string, junk: nat -> char, from: nat, to: nat) {
    forall mem :: RoomForBoth(mem, user, file) && to <= |mem| ==> Kept(mem, user, file, junk, from, to)
  }

  predicate Kept(mem: string, user: string, file: string, junk: nat -> char, from: nat, to: nat)
    requires RoomForBoth(mem, user, file) && to <= |mem|
  {
    forall k :: from <= k < to ==> Named(mem, user, file, junk)[k] == mem[k]
  }

  /** A byte that the copying writes does not survive. */
  lemma WrittenByteDies(user: string, file: string, junk: nat -> char, from: nat, to: nat, k: nat)
    requires from <= k < to
    requires (USER_AT <= k <= USER_AT + |user| && |user| > FIELD) || (FILE_AT <= k <= FILE_AT + |file| && |file| > FIELD)
    ensures !Survives(user, file, junk, from, to)
  {
    var n := to + PAGE + |user| + |file|;
    var a, b := seq(n, _ => 'a'), seq(n, _ => 'b');
    NamedAt(a, user, file, junk, k);
    NamedAt(b, user, file, junk, k);
    assert RoomForBoth(a, user, file) && RoomForBoth(b, user, file);
    assert Named(a, user, file, junk)[k] == Named(b, user, file, junk)[k];
    assert a[k] != b[k];
    assert !Kept(a, user, file, junk, from, to) || !Kept(b, user, file, junk, from, to);
  }

  /** The links of the page survive both copies, whatever they were, exactly if the file name has at most 12 bytes
      and the user name at most 23. */
  lemma LinksSurviveIff(user: string, file: string, junk: nat -> char)
    ensures Survives(user, file, junk, LINKS_AT, PAGE) <==> |file| <= 12 && |user| <= 23
  {
    if |file| > 12 || |user| > 23 {
      WrittenByteDies(user, file, junk, LINKS_AT, PAGE, LINKS_AT);
    } else {
      forall mem | RoomForBoth(mem, user, file) && PAGE <= |mem| ensures Kept(mem, user, file, junk, LINKS_AT, PAGE) {
        forall k | LINKS_AT <= k < PAGE ensures Named(mem, user, file, junk)[k] == mem[k] {
          NamedAt(mem, user, file, junk, k);
        }
      }
    }
  }

  /** What lies behind the page in memory survives exactly if the file name has at most 27 bytes and the user name
      at most 39. */
  lemma BehindSurvivesIff(user: string, file: string, junk: nat -> char, to: nat)
    requires to > PAGE
    ensures Survives(user, file, junk, PAGE, to) <==> |file| <= 27 && |user| <= 39
  {
    if |file| > 27 || |user| > 39 {
      WrittenByteDies(user, file, junk, PAGE, to, PAGE);
    } else {
      forall mem | RoomForBoth(mem, user, file) && to <= |mem| ensures Kept(mem, user, file, junk, PAGE, to) {
        forall k | PAGE <= k < to ensures Named(mem, user, file, junk)[k] == mem[k] {
          NamedAt(mem, user, file, junk, k);
        }
      }
    }
  }

  // ---------------------------------------------------------------- reading the names back

  /** The text at a place, up to the first NUL, as the program reads a name. */
  function CString(mem: string, at: nat): string
    requires at <= |mem|
    decreases |mem| - at
  {
    if at == |mem| || mem[at] == '\0' then "" else [mem[at]] + CString(mem, at + 1)
  }

  lemma {:induction false} CStringIs(mem: string, at: nat, name: string)
    requires at + |name| <= |mem| && '\0' !in name
    requires forall k :: 0 <= k < |name| ==> mem[at + k] == name[k]
    ensures CString(mem, at) == name + CString(mem, at + |name|)
    decreases |name|
  {
    if name == "" {
      assert "" + CString(mem, at) == CString(mem, at);
    } else {
      assert mem[at + 0] == name[0];
      CStringIs(mem, at + 1, name[1..]);
      assert [name[0]] + (name[1..] + CString(mem, at + |name|)) == name + CString(mem, at + |name|);
    }
  }

  lemma PrefixIsAll(name: string, rest: string)
    ensures name + rest == name <==> rest == ""
  {
    assert |name + rest| == |name| + |rest|;
    if rest == "" { assert name + "" == name; }
  }

  /** The file name is read back exactly if it does not fill its field to the last byte, or a NUL follows: that of the
      user name, if it has 24 bytes, or the byte that was there, if it has less. */
  lemma FileReadsBackIff(mem: string, user: string, file: string, junk: nat -> char)
    requires RoomForBoth(mem, user, file) && '\0' !in file
    ensures CString(Named(mem, user, file, junk), FILE_AT) == file
       <==> |file| != 12 || (if |user| < 24 then mem[48] == '\0' else |user| == 24 || user[24] == '\0')
  {
    var r := Named(mem, user, file, junk);
    forall k | 0 <= k < |file| ensures r[FILE_AT + k] == file[k] { NamedAt(mem, user, file, junk, FILE_AT + k); }
    CStringIs(r, FILE_AT, file);
    NamedAt(mem, user, file, junk, FILE_AT + |file|);
    PrefixIsAll(file, CString(r, FILE_AT + |file|));
  }

  /** What is read at the place of the file name. */
  lemma FileRead(mem: string, user: string, file: string, junk: nat -> char)
    requires RoomForBoth(mem, user, file) && '\0' !in file && '\0' !in user
    ensures |file| != 12 || |user| == 24 ==> CString(Named(mem, user, file, junk), FILE_AT) == file
    ensures |file| == 12 && |user| > 24 ==> CString(Named(mem, user, file, junk), FILE_AT) == file + user[24..]
    ensures |file| == 12 ==> |CString(Named(mem, user, file, junk), FILE_AT)| >= 12
  {
    var r := Named(mem, user, file, junk);
    FileReadsBackIff(mem, user, file, junk);
    if |file| == 12 {
      forall k | 0 <= k < |file| ensures r[FILE_AT + k] == file[k] { NamedAt(mem, user, file, junk, FILE_AT + k); }
      CStringIs(r, FILE_AT, file);
      if |user| > 24 {
        BehindFile(mem, user, file, junk);
      }
    }
  }

  /** A user name that runs over the field of the file name and beyond. */
  lemma BehindFile(mem: string, user: string, file: string, junk: nat -> char)
    requires RoomForBoth(mem, user, file) && '\0' !in user && |file| == 12 && |user| > 24
    ensures CString(Named(mem, user, file, junk), LINKS_AT) == user[24..]
  {
    var r, rest := Named(mem, user, file, junk), user[24..];
    forall k | 0 <= k < |rest| ensures r[LINKS_AT + k] == rest[k] { NamedAt(mem, user, file, junk, LINKS_AT + k); }
    CStringIs(r, LINKS_AT, rest);
    NamedAt(mem, user, file, junk, USER_AT + |user|);
    PrefixIsAll(rest, CString(r, LINKS_AT + |rest|));
  }

  /** The user name is read back exactly if it leaves room for its NUL, or its end is the file name that is written over
      it, up to the byte where a file name of 12 bytes lets it show again. */
  lemma UserReadsBackIff(mem: string, user: string, file: string, junk: nat -> char)
    requires RoomForBoth(mem, user, file) && '\0' !in user && '\0' !in file
    ensures CString(Named(mem, user, file, junk), USER_AT) == user
       <==> |user| < 12 || (if |file| != 12 then user[12..] == file else |user| >= 24 && user[12..24] == file)
  {
    hide Named, CString;
    var r := Named(mem, user, file, junk);
    UserRead(mem, user, file, junk);
    FileRead(mem, user, file, junk);
    if |user| >= 12 {
      var rest := CString(r, FILE_AT);
      assert user == user[..FIELD] + user[FIELD..];
      assert (user[..FIELD] + rest)[FIELD..] == rest;
      if |file| == 12 && |user| >= 24 {
        assert user[12..] == user[12..24] + user[24..];
        assert (file + user[24..])[..12] == file && (user[12..24] + user[24..])[..12] == user[12..24];
        assert |user| == 24 ==> user[24..] == "" && file + "" == file;
      }
    }
  }

  lemma UserRead(mem: string, user: string, file: string, junk: nat -> char)
    requires RoomForBoth(mem, user, file) && '\0' !in user
    ensures var r := Named(mem, user, file, junk);
            CString(r, USER_AT) == if |user| < 12 then user else user[..12] + CString(r, FILE_AT)
  {
    var r := Named(mem, user, file, junk);
    var shown := if |user| < FIELD then user else user[..FIELD];
    forall k | 0 <= k < |shown| ensures r[USER_AT + k] == shown[k] { NamedAt(mem, user, file, junk, USER_AT + k); }
    CStringIs(r, USER_AT, shown);
    NamedAt(mem, user, file, junk, USER_AT + |shown|);
    if |user| < FIELD {
      PrefixIsAll(user, CString(r, USER_AT + |user|));
    }
  }

  /** In a page of the log, with names that fit: a file name of 12 bytes is read back exactly if the page that its link
      names as predecessor has a number divisible by 4. */
  lemma PageReadsBackIff(pre: nat, nxt: nat, user: string, file: string, junk: nat -> char)
    requires '\0' !in file && |user| <= 23
    ensures var mem := Blank(PAGE * pre, PAGE * nxt, |user| + |file|);
            && RoomForBoth(mem, user, file)
            && (CString(Named(mem, user, file, junk), FILE_AT) == file <==> |file| != 12 || pre % 4 == 0)
  {
    hide Named, CString, Blank, RoomForBoth;
    var mem := Blank(PAGE * pre, PAGE * nxt, |user| + |file|);
    EnoughRoom(mem, user, file);
    FileReadsBackIff(mem, user, file, junk);
    LowByte(pre, nxt, |user| + |file|);
  }

  lemma LowByte(pre: nat, nxt: nat, more: nat)
    ensures Blank(PAGE * pre, PAGE * nxt, more)[48] == '\0' <==> pre % 4 == 0
  {
    hide Bytes;
    FirstOf(PAGE * pre);
    Quarter(pre);
    assert Blank(PAGE * pre, PAGE * nxt, more)[48] == Bytes(PAGE * pre, 8)[0];
  }

  lemma FirstOf(n: nat)
    ensures Bytes(n, 8)[0] == (n % 256) as char
  {
  }

  lemma Quarter(pre: nat)
    ensures PAGE * pre % 256 == 0 <==> pre % 4 == 0
  {
    assert pre == 4 * (pre / 4) + pre % 4;
    assert PAGE * pre == 256 * (pre / 4) + 64 * (pre % 4);
  }

  // ---------------------------------------------------------------- the links as numbers

  const UINT64 := 0x1_0000_0000_0000_0000

  /** The `k` bytes of a number, least first. */
  function Bytes(n: nat, k: nat): (s: string)
    ensures |s| == k
  {
    if k == 0 then "" else [(n % 256) as char] + Bytes(n / 256, k - 1)
  }

  function Value(s: string): nat {
    if s == "" then 0 else s[0] as nat + 256 * Value(s[1..])
  }

  function Pow256(k: nat): nat { if k == 0 then 1 else 256 * Pow256(k - 1) }

  lemma {:induction false} ValueOfBytes(n: nat, k: nat)
    requires n < Pow256(k)
    ensures Value(Bytes(n, k)) == n
  {
    if k > 0 {
      ValueOfBytes(n / 256, k - 1);
      assert Bytes(n, k)[1..] == Bytes(n / 256, k - 1);
    }
  }

  lemma EightBytes()
    ensures Pow256(8) == UINT64
  {
    assert Pow256(4) == 0x1_0000_0000;
    assert Pow256(8) == 256 * (256 * (256 * (256 * Pow256(4))));
  }

  /** A page whose first 48 bytes are zero, with its links, and memory behind it for the longest writes. */
  function Blank(pre: nat, nxt: nat, more: nat): (mem: string)
    ensures |mem| == PAGE + more
  {
    seq(LINKS_AT, _ => '\0') + Bytes(pre, 8) + Bytes(nxt, 8) + seq(more, _ => '\0')
  }

  datatype Links = Links(pre: nat, nxt: nat)

  function LinksOf(mem: string): Links
    requires |mem| >= PAGE
  {
    Links(Value(mem[LINKS_AT..LINKS_AT + 8]), Value(mem[LINKS_AT + 8..PAGE]))
  }

  function Zeros(i: nat): char { '\0' }

  /** The links of a page after the names were copied into it. Bytes read behind the end of a name stay within its
      field, so they play no part here. */
  function LinksAfter(l: Links, user: string, file: string): Links {
    LinksOf(Named(Blank(l.pre, l.nxt, |user| + |file|), user, file, Zeros))
  }

  lemma LinksOfBlank(pre: nat, nxt: nat, more: nat)
    requires pre < UINT64 && nxt < UINT64
    ensures LinksOf(Blank(pre, nxt, more)) == Links(pre, nxt)
  {
    hide Value, Bytes, Pow256;
    EightBytes();
    ValueOfBytes(pre, 8);
    ValueOfBytes(nxt, 8);
    var mem := Blank(pre, nxt, more);
    assert mem[LINKS_AT..LINKS_AT + 8] == Bytes(pre, 8) && mem[LINKS_AT + 8..PAGE] == Bytes(nxt, 8);
  }

  lemma LinksKept(l: Links, user: string, file: string)
    requires l.pre < UINT64 && l.nxt < UINT64 && |file| <= 12 && |user| <= 23
    ensures LinksAfter(l, user, file) == l
  {
    hide Named, Blank, Value, RoomForBoth;
    var mem := Blank(l.pre, l.nxt, |user| + |file|);
    LinksOfBlank(l.pre, l.nxt, |user| + |file|);
    assert RoomForBoth(mem, user, file) by { EnoughRoom(mem, user, file); }
    LinksSurviveIff(user, file, Zeros);
    assert Kept(mem, user, file, Zeros, LINKS_AT, PAGE);
    var r := Named(mem, user, file, Zeros);
    assert r[LINKS_AT..LINKS_AT + 8] == mem[LINKS_AT..LINKS_AT + 8];
    assert r[LINKS_AT + 8..PAGE] == mem[LINKS_AT + 8..PAGE];
  }

  lemma FirstByte(s: string)
    requires s != "" && s[0] as nat < 256
    ensures Value(s) % 256 == s[0] as nat
  {}

  /** A file name of more than 12 bytes puts its thirteenth over the lowest byte of the first link. */
  lemma LinkOverwritten(l: Links, user: string, file: string)
    requires |file| > 12 && file[12] as nat < 256
    ensures LinksAfter(l, user, file).pre % 256 == file[12] as nat
  {
    hide Value, Blank;
    var mem := Blank(l.pre, l.nxt, |user| + |file|);
    EnoughRoom(mem, user, file);
    NamedAt(mem, user, file, Zeros, LINKS_AT);
    FirstByte(Named(mem, user, file, Zeros)[LINKS_AT..LINKS_AT + 8]);
  }

  lemma EnoughRoom(mem: string, user: string, file: string)
    requires |mem| == PAGE + |user| + |file|
    ensures RoomForBoth(mem, user, file)
  {}

  /** The page in memory, filled in place. */
  method FillNames(l: Links, user: string, file: string) returns (r: Links)
    ensures r == LinksAfter(l, user, file)
  {
    hide Named, Blank, LinksOf, Copied, Value;
    var start := Blank(l.pre, l.nxt, |user| + |file|);
    var mem := new char[|start|](i requires 0 <= i < |start| => start[i]);
    assert mem[..] == start;
    EnoughRoom(start, user, file);
    CopyName(mem, USER_AT, user, Zeros);
    CopyName(mem, FILE_AT, file, Zeros);
    assert mem[..] == Named(start, user, file, Zeros) by { NamedIs(start, user, file, Zeros); }
    r := LinksOf(mem[..]);
  }

  lemma NamedIs(mem: string, user: string, file: string, junk: nat -> char)
    requires RoomForBoth(mem, user, file)
    ensures Named(mem, user, file, junk) == Copied(Copied(mem, USER_AT, user, junk), FILE_AT, file, junk)
  {}
}
