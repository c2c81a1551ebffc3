/** The form of the tracker's login page (tracker/src/http/httprequest.cpp): ParseUser_ collects as many bytes
    as Content-Length says, over however many reads, and ParseBodyLine_ decodes them into names and values. */
module FormBody {
  import opened Buffers
  import opened ByteSearch

  // ---------------------------------------------------------------- decoding

  /** The loop of ParseBodyLine_ on the bytes still to come. */
  function Scan(s: string, key: string, value: string, flag: bool, m: map<string, string>): map<string, string> {
    if s == "" then
      if key != "" || value != "" then m[key := value] else m
    else if s[0] == '=' then Scan(s[1..], key, value, !flag, m)
    else if s[0] == '&' then Scan(s[1..], "", "", !flag, m[key := value])
    else if flag then Scan(s[1..], key, value + [s[0]], flag, m)
    else Scan(s[1..], key + [s[0]], value, flag, m)
  }

  function Decode(m: map<string, string>, body: string): map<string, string> { Scan(body, "", "", false, m) }

  datatype Field = Field(key: string, value: string)

  predicate Clean(s: string) { '=' !in s && '&' !in s }

  predicate AllClean(fields: seq<Field>) {
    forall f <- fields :: Clean(f.key) && Clean(f.value)
  }

  function Text(f: Field): string { f.key + "=" + f.value }

  /** A form as a browser sends it. */
  function Print(fields: seq<Field>): string {
    if fields == [] then ""
    else if |fields| == 1 then Text(fields[0])
    else Text(fields[0]) + "&" + Print(fields[1..])
  }

  /** A later field of the same name wins. */
  function Bind(m: map<string, string>, fields: seq<Field>): map<string, string>
    decreases |fields|
  {
    if fields == [] then m else Bind(m[fields[0].key := fields[0].value], fields[1..])
  }

  lemma {:induction false} ScanKey(k: string, rest: string, key: string, m: map<string, string>)
    requires Clean(k)
    ensures Scan(k + rest, key, "", false, m) == Scan(rest, key + k, "", false, m)
  {
    if k == "" {
      assert k + rest == rest && key + k == key;
    } else {
      assert (k + rest)[1..] == k[1..] + rest && key + k == key + [k[0]] + k[1..];
      ScanKey(k[1..], rest, key + [k[0]], m);
    }
  }

  lemma {:induction false} ScanValue(v: string, rest: string, key: string, value: string, m: map<string, string>)
    requires Clean(v)
    ensures Scan(v + rest, key, value, true, m) == Scan(rest, key, value + v, true, m)
  {
    if v == "" {
      assert v + rest == rest && value + v == value;
    } else {
      assert (v + rest)[1..] == v[1..] + rest && value + v == value + [v[0]] + v[1..];
      ScanValue(v[1..], rest, key, value + [v[0]], m);
    }
  }

  lemma ScanField(f: Field, rest: string, m: map<string, string>)
    requires Clean(f.key) && Clean(f.value)
    ensures Scan(Text(f) + rest, "", "", false, m) == Scan(rest, f.key, f.value, true, m)
  {
    hide Scan;
    var tail := f.value + rest;
    assert Text(f) + rest == f.key + ("=" + tail);
    ScanKey(f.key, "=" + tail, "", m);
    assert "" + f.key == f.key && "" + f.value == f.value;
    ScanEquals(tail, f.key, m);
    ScanValue(f.value, rest, f.key, "", m);
  }

  lemma ScanEquals(tail: string, key: string, m: map<string, string>)
    ensures Scan("=" + tail, key, "", false, m) == Scan(tail, key, "", true, m)
  {
    assert ("=" + tail)[1..] == tail;
  }

  lemma ScanEnd(key: string, value: string, flag: bool, m: map<string, string>)
    ensures Scan("", key, value, flag, m) == if key != "" || value != "" then m[key := value] else m
  {
  }

  lemma ScanNext(rest: string, key: string, value: string, m: map<string, string>)
    ensures Scan("&" + rest, key, value, true, m) == Scan(rest, "", "", false, m[key := value])
  {
    assert ("&" + rest)[1..] == rest;
  }

  /** The last field is dropped if both its name and its value are empty. */
  function Survivors(fields: seq<Field>): seq<Field> {
    if fields != [] && fields[|fields| - 1] == Field("", "") then fields[..|fields| - 1] else fields
  }

  lemma {:induction false} DecodePrinted(m: map<string, string>, fields: seq<Field>)
    requires AllClean(fields)
    ensures Decode(m, Print(fields)) == Bind(m, Survivors(fields))
    decreases |fields|
  {
    hide Scan, Text, Clean;
    if fields == [] {
      ScanEnd("", "", false, m);
    } else {
      var f, rest := fields[0], fields[1..];
      assert f in fields;
      if rest == [] {
        assert Text(f) + "" == Text(f);
        ScanField(f, "", m);
        ScanEnd(f.key, f.value, true, m);
        assert fields == [f];
        assert Bind(m, [f]) == Bind(m[f.key := f.value], [f][1..]);
      } else {
        var tail := "&" + Print(rest);
        assert Print(fields) == Text(f) + tail;
        ScanField(f, tail, m);
        ScanNext(Print(rest), f.key, f.value, m);
        DecodePrinted(m[f.key := f.value], rest);
        assert rest[|rest| - 1] == fields[|fields| - 1];
        assert Survivors(fields)[1..] == Survivors(rest) && Survivors(fields)[0] == f;
      }
    }
  }

  lemma {:induction false} BindSplit(m: map<string, string>, a: seq<Field>, b: seq<Field>)
    ensures Bind(m, a + b) == Bind(Bind(m, a), b)
    decreases |a|
  {
    if a == [] {
      assert a + b == b;
    } else {
      assert (a + b)[1..] == a[1..] + b;
      BindSplit(m[a[0].key := a[0].value], a[1..], b);
    }
  }

  /** What was printed is read back, for any fields free of '=' and '&', repeated and empty names included:
      always, unless the last field is empty altogether and did not occur before. */
  lemma RoundTripIff(fields: seq<Field>)
    requires AllClean(fields)
    ensures Decode(map[], Print(fields)) == Bind(map[], fields) <==>
            fields == [] || fields[|fields| - 1] != Field("", "")
            || (var before := Bind(map[], fields[..|fields| - 1]); "" in before && before[""] == "")
  {
    hide Decode, Bind, Print;
    DecodePrinted(map[], fields);
    if fields != [] {
      BindLast(map[], fields);
      Rebinding(Bind(map[], fields[..|fields| - 1]), "", "");
    }
  }

  lemma BindLast(m: map<string, string>, fields: seq<Field>)
    requires fields != []
    ensures var n := |fields| - 1; Bind(m, fields) == Bind(m, fields[..n])[fields[n].key := fields[n].value]
  {
    var n := |fields| - 1;
    BindSplit(m, fields[..n], fields[n..]);
    assert fields[..n] + fields[n..] == fields && fields[n..] == [fields[n]];
    var before := Bind(m, fields[..n]);
    assert Bind(before, [fields[n]]) == Bind(before[fields[n].key := fields[n].value], [fields[n]][1..]);
  }

  lemma Rebinding(m: map<string, string>, k: string, v: string)
    ensures m[k := v] == m <==> k in m && m[k] == v
  {
    assert k in m[k := v];
  }

  predicate DistinctKeys(fields: seq<Field>) {
    forall i, j :: 0 <= i < j < |fields| ==> fields[i].key != fields[j].key
  }

  lemma {:induction false} BindDistinct(m: map<string, string>, fields: seq<Field>)
    requires DistinctKeys(fields)
    ensures forall f <- fields :: f.key in Bind(m, fields) && Bind(m, fields)[f.key] == f.value
    ensures forall k <- Bind(m, fields) :: k in m || exists f <- fields :: f.key == k
    ensures forall k <- m :: k in Bind(m, fields) && ((forall f <- fields :: f.key != k) ==> Bind(m, fields)[k] == m[k])
    decreases |fields|
  {
    if fields != [] {
      BindDistinct(m[fields[0].key := fields[0].value], fields[1..]);
      forall f <- fields[1..] ensures f.key != fields[0].key {}
      forall f <- fields ensures f == fields[0] || f in fields[1..] {}
    }
  }

  /** For distinct non-empty names the decoded form has exactly the fields that were printed. */
  lemma RoundTrip(fields: seq<Field>)
    requires AllClean(fields) && DistinctKeys(fields) && forall f <- fields :: f.key != ""
    ensures forall k, v ::
              (k in Decode(map[], Print(fields)) && Decode(map[], Print(fields))[k] == v) <==> Field(k, v) in fields
  {
    RoundTripIff(fields);
    BindDistinct(map[], fields);
    assert fields != [] ==> fields[|fields| - 1] in fields;
    var m := Decode(map[], Print(fields));
    forall k, v ensures (k in m && m[k] == v) <==> Field(k, v) in fields {
      if k in m && m[k] == v {
        var f :| f in fields && f.key == k;
        assert f == Field(k, v);
      }
      if Field(k, v) in fields { assert Field(k, v).key in m; }
    }
  }

  /** Names and values that come out never hold '=' or '&'. */
  lemma {:induction false} OnlyCleanComesOut(s: string, key: string, value: string, flag: bool, m: map<string, string>)
    requires Clean(key) && Clean(value) && forall k <- m :: Clean(k) && Clean(m[k])
    ensures forall k <- Scan(s, key, value, flag, m) :: Clean(k) && Clean(Scan(s, key, value, flag, m)[k])
  {
    if s != "" {
      if s[0] == '=' {
        OnlyCleanComesOut(s[1..], key, value, !flag, m);
      } else if s[0] == '&' {
        OnlyCleanComesOut(s[1..], "", "", !flag, m[key := value]);
      } else if flag {
        OnlyCleanComesOut(s[1..], key, value + [s[0]], flag, m);
      } else {
        OnlyCleanComesOut(s[1..], key + [s[0]], value, flag, m);
      }
    }
  }

  /** So a form with distinct names, of any size, is read back exactly if its fields are clean and the last is not empty
      altogether. A password with '=' in it does not arrive. */
  lemma FormIff(fields: seq<Field>)
    requires DistinctKeys(fields)
    ensures Decode(map[], Print(fields)) == Bind(map[], fields) <==>
            AllClean(fields) && (fields == [] || fields[|fields| - 1] != Field("", ""))
  {
    hide Print, Bind, Scan;
    OnlyCleanComesOut(Print(fields), "", "", false, map[]);
    BindDistinct(map[], fields);
    if AllClean(fields) {
      RoundTripIff(fields);
      if fields != [] && fields[|fields| - 1] == Field("", "") { NotBefore(fields); }
    }
  }

  lemma NotBefore(fields: seq<Field>)
    requires DistinctKeys(fields) && fields != []
    ensures fields[|fields| - 1].key !in Bind(map[], fields[..|fields| - 1])
  {
    hide Bind;
    BindDistinct(map[], fields[..|fields| - 1]);
  }

  /** One field: nothing but the field itself is read back. */
  lemma OneFieldIff(f: Field)
    ensures Decode(map[], Text(f)) == map[f.key := f.value] <==>
            Clean(f.key) && Clean(f.value) && f != Field("", "")
  {
    hide Scan;
    FormIff([f]);
    assert Bind(map[], [f]) == Bind(map[][f.key := f.value], [f][1..]);
    assert map[][f.key := f.value] == map[f.key := f.value];
  }

  // ---------------------------------------------------------------- collecting the body

  class LoginRequest {
    const recvMsg: Buffer
    var body: string
    var bodyLen: nat
    var msgBody: map<string, string>

    ghost predicate Valid()
      reads this, recvMsg, recvMsg.data
    {
      recvMsg.Valid()
    }

    /** What remains when the head has been read: a request for bodyLen bytes, with the first of them perhaps in
        the buffer. */
    constructor (recvMsg: Buffer, contentLength: nat)
      requires recvMsg.Valid()
      ensures Valid() && this.recvMsg == recvMsg
      ensures body == "" && bodyLen == contentLength && msgBody == map[]
    {
      this.recvMsg := recvMsg;
      body, bodyLen, msgBody := "", contentLength, map[];
    }

    method ParseBodyLine()
      modifies this`msgBody
      ensures msgBody == Decode(old(msgBody), body)
    {
      var key, value, n, flag := "", "", |body|, false;
      for i := 0 to n
        invariant Decode(old(msgBody), body) == Scan(body[i..], key, value, flag, msgBody)
      {
        assert body[i..][1..] == body[i + 1..];
        if body[i] == '=' {
          flag := !flag;
        } else if body[i] == '&' {
          flag := !flag;
          msgBody := msgBody[key := value];
          key, value := "", "";
        } else if flag {
          value := value + [body[i]];
        } else {
          key := key + [body[i]];
        }
      }
      if key != "" || value != "" { msgBody := msgBody[key := value]; }
    }

    method ParseUser() returns (ret: int)
      requires Valid()
      modifies this, recvMsg`lPos, recvMsg`consumed
      ensures Valid() && ret == if bodyLen == 0 then 0 else -1
      ensures body + recvMsg.Pending() == old(body + recvMsg.Pending())
      ensures |body| + bodyLen == old(|body| + bodyLen)
      ensures bodyLen > 0 ==> recvMsg.Pending() == ""
      ensures msgBody == if bodyLen == 0 then Decode(old(msgBody), body) else old(msgBody)
    {
      hide Buffer.Valid, Buffer.Pending, Decode;
      if bodyLen > 0 {
        var pending := recvMsg.Peek();
        var n := recvMsg.UnHandleBytes();
        var mn := if bodyLen < n then bodyLen else n;
        Associative(body, pending[..mn], pending[mn..]);
        assert pending == pending[..mn] + pending[mn..];
        body := body + pending[..mn];
        recvMsg.AddHandled(mn);
        bodyLen := bodyLen - mn;
      }
      if bodyLen <= 0 {
        ParseBodyLine();
        return 0;
      }
      return -1;
    }

    /** The receive loop from the blank line on. The body is complete with the first read that brings the bytes
        received since then to Content-Length, and not before; it is these bytes, and what follows them stays. */
    method ReceiveBody(chunks: seq<string>) returns (done: bool, used: nat)
      requires Valid() && body == "" && msgBody == map[]
      modifies this, recvMsg, recvMsg.data
      ensures Valid() && used <= |chunks|
      ensures var before, all := old(recvMsg.Pending()), old(recvMsg.Pending()) + Flatten(chunks[..used]);
              && body + recvMsg.Pending() == all
              && done == (|all| >= old(bodyLen))
              && (done ==> body == all[..old(bodyLen)] && msgBody == Decode(map[], body))
              && (done && used > 0 ==> |before| + End(chunks, used - 1) < old(bodyLen))
              && (!done ==> used == |chunks| && body == all && msgBody == map[])
    {
      hide Buffer.Valid, Buffer.Pending, Decode, Flatten;
      ghost var before := recvMsg.Pending();
      var ret := ParseUser();
      used := 0;
      NothingYet(chunks, before);
      while ret != 0 && used < |chunks|
        invariant Valid() && used <= |chunks| && ret == (if bodyLen == 0 then 0 else -1)
        invariant recvMsg.data == old(recvMsg.data) || fresh(recvMsg.data)
        invariant body + recvMsg.Pending() == before + Flatten(chunks[..used])
        invariant |body| + bodyLen == old(bodyLen)
        invariant bodyLen > 0 ==> recvMsg.Pending() == "" && msgBody == map[]
        invariant bodyLen == 0 ==> msgBody == Decode(map[], body)
        invariant bodyLen == 0 && used > 0 ==> |before| + End(chunks, used - 1) < old(bodyLen)
      {
        ChunkMore(chunks, used, before);
        recvMsg.Append(chunks[used]);
        Associative(body, old(recvMsg.Pending()), chunks[used]);
        ret := ParseUser();
        used := used + 1;
      }
      done := ret == 0;
    }
  }

  lemma NothingYet(chunks: seq<string>, before: string)
    ensures before + Flatten(chunks[..0]) == before
  {}

  lemma ChunkMore(chunks: seq<string>, k: nat, before: string)
    requires k < |chunks|
    ensures before + Flatten(chunks[..k + 1]) == before + Flatten(chunks[..k]) + chunks[k]
    ensures |before + Flatten(chunks[..k])| == |before| + End(chunks, k)
  {
    EndMonotone(chunks, k, k + 1);
    assert chunks[k..k + 1] == [chunks[k]];
    assert Flatten([chunks[k]]) == chunks[k] + Flatten([chunks[k]][1..]) == chunks[k];
  }
}
