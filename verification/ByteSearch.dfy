/** Byte strings and the two library searches the parsers use.
    A byte is modelled as a `char`: the parsers compare and copy bytes and do no arithmetic on them. */
module ByteSearch {

  const CR := "\r"
  const CRLF := "\r\n"

  predicate OccursAt(s: string, pat: string, i: int) {
    0 <= i && i + |pat| <= |s| && s[i..i + |pat|] == pat
  }

  /** `std::search(s + from, end, pat)`: the first occurrence at or after `from`, or `|s|` when there is none. */
  function Find(s: string, pat: string, from: nat): (r: nat)
    requires from <= |s| && 0 < |pat|
    ensures from <= r <= |s|
    ensures r < |s| ==> OccursAt(s, pat, r)
    ensures forall i :: from <= i < r ==> !OccursAt(s, pat, i)
    decreases |s| - from
  {
    if from == |s| || OccursAt(s, pat, from) then from else Find(s, pat, from + 1)
  }

  /** The position of the first occurrence is determined by being one with none before it. */
  lemma FindIs(s: string, pat: string, from: nat, r: nat)
    requires from <= r <= |s| && 0 < |pat|
    requires OccursAt(s, pat, r) || r == |s|
    requires forall i :: from <= i < r ==> !OccursAt(s, pat, i)
    ensures Find(s, pat, from) == r
  {
    var f := Find(s, pat, from);
    assert f < r ==> OccursAt(s, pat, f);
    assert r < f ==> !OccursAt(s, pat, r);
  }

  /** An occurrence lies wholly inside the part it lies in. */
  lemma OccursAtWithin(s: string, b: string, pat: string, i: int)
    requires 0 <= i && i + |pat| <= |s|
    ensures OccursAt(s + b, pat, i) <==> OccursAt(s, pat, i)
  {
    assert (s + b)[i..i + |pat|] == s[i..i + |pat|];
  }

  lemma OccursAtShift(s: string, pat: string, o: nat, i: nat)
    requires o <= |s|
    ensures OccursAt(s[o..], pat, i) <==> OccursAt(s, pat, o + i)
  {
    if o + i + |pat| <= |s| {
      assert s[o..][i..i + |pat|] == s[o + i..o + i + |pat|];
    }
  }

  lemma OccursCRLF(s: string, i: nat)
    ensures OccursAt(s, CRLF, i) <==> i + 1 < |s| && s[i] == '\r' && s[i + 1] == '\n'
  {
    if i + 1 < |s| {
      assert s[i..i + 2] == [s[i], s[i + 1]];
    }
  }

  lemma OccursChar(s: string, c: char, i: nat)
    ensures OccursAt(s, [c], i) <==> i < |s| && s[i] == c
  {
    if i < |s| {
      assert s[i..i + 1] == [s[i]];
    }
  }

  /** Later bytes never move a line end that has already been found. */
  lemma FindStable(s: string, b: string, pat: string, from: nat)
    requires from <= |s| && 0 < |pat| && Find(s, pat, from) < |s|
    ensures Find(s + b, pat, from) == Find(s, pat, from)
  {
    var r := Find(s, pat, from);
    forall i | from <= i < r
      ensures !OccursAt(s + b, pat, i)
    {
      if i + |pat| <= |s| {
        OccursAtWithin(s, b, pat, i);
      }
      assert r + |pat| <= |s|;
    }
    OccursAtWithin(s, b, pat, r);
    FindIs(s + b, pat, from, r);
  }

  /** A line free of CR ends exactly at the CRLF printed after it. */
  lemma FindLineEnd(line: string, rest: string)
    requires '\r' !in line
    ensures Find(line + CRLF + rest, CRLF, 0) == |line|
  {
    var s := line + CRLF + rest;
    forall i | 0 <= i < |line|
      ensures !OccursAt(s, CRLF, i)
    {
      OccursCRLF(s, i);
      assert s[i] == line[i];
    }
    OccursCRLF(s, |line|);
    FindIs(s, CRLF, 0, |line|);
  }

  /** The first occurrence of a single character that `line` does not contain. */
  lemma FindChar(line: string, c: char, rest: string)
    requires c !in line
    ensures Find(line + [c] + rest, [c], 0) == |line|
  {
    var s := line + [c] + rest;
    forall i | 0 <= i < |line|
      ensures !OccursAt(s, [c], i)
    {
      OccursChar(s, c, i);
      assert s[i] == line[i];
    }
    OccursChar(s, c, |line|);
    FindIs(s, [c], 0, |line|);
  }

  lemma FindFrom(s: string, pat: string, o: nat)
    requires o <= |s| && 0 < |pat|
    ensures Find(s, pat, o) == o + Find(s[o..], pat, 0)
  {
    hide Find, OccursAt;
    var r := Find(s[o..], pat, 0);
    forall i | o <= i < o + r
      ensures !OccursAt(s, pat, i)
    {
      OccursAtShift(s, pat, o, i - o);
    }
    OccursAtShift(s, pat, o, r);
    FindIs(s, pat, o, o + r);
  }

  lemma FindNone(line: string, c: char)
    requires c !in line
    ensures Find(line, [c], 0) == |line|
  {
    forall i | 0 <= i < |line|
      ensures !OccursAt(line, [c], i)
    {
      OccursChar(line, c, i);
    }
    FindIs(line, [c], 0, |line|);
  }

  /** The first `c` at or after the end of `skipped`, in a text that goes on with `field` and then `c`. */
  lemma FindField(skipped: string, field: string, c: char, rest: string)
    requires c !in field
    ensures Find(skipped + field + [c] + rest, [c], |skipped|) == |skipped| + |field|
  {
    var s := skipped + field + [c] + rest;
    assert s[|skipped|..] == field + [c] + rest;
    FindFrom(s, [c], |skipped|);
    FindChar(field, c, rest);
  }

  lemma Associative(a: string, b: string, c: string)
    ensures a + b + c == a + (b + c)
  {
  }

  lemma SliceOfSlice(y: string, e: nat, m: nat, k: nat)
    requires e + k <= m <= |y|
    ensures y[..e] + y[e..m][..k] == y[..e + k] && y[e..m][k..] == y[e + k..m]
  {
    var a, b := y[e..m][k..], y[e + k..m];
    assert forall i :: 0 <= i < |b| ==> a[i] == y[e + k + i] == b[i];
    var c, d := y[..e] + y[e..m][..k], y[..e + k];
    assert forall i :: 0 <= i < |d| ==> c[i] == y[i] == d[i];
  }

  // ---------------------------------------------------------------- streams cut into chunks

  function Flatten(chunks: seq<string>): string {
    if chunks == [] then "" else chunks[0] + Flatten(chunks[1..])
  }

  lemma {:induction false} FlattenSplit(a: seq<string>, b: seq<string>)
    ensures Flatten(a + b) == Flatten(a) + Flatten(b)
  {
    if a == [] {
      assert a + b == b;
    } else {
      FlattenSplit(a[1..], b);
      assert (a + b)[1..] == a[1..] + b && (a + b)[0] == a[0];
      Associative(a[0], Flatten(a[1..]), Flatten(b));
    }
  }

  /** Where the `k`-th read ends. */
  function End(chunks: seq<string>, k: nat): nat
    requires k <= |chunks|
  {
    |Flatten(chunks[..k])|
  }

  lemma EndMonotone(chunks: seq<string>, j: nat, k: nat)
    requires j <= k <= |chunks|
    ensures Flatten(chunks[..k]) == Flatten(chunks[..j]) + Flatten(chunks[j..k])
    ensures End(chunks, j) <= End(chunks, k)
  {
    FlattenSplit(chunks[..j], chunks[j..k]);
    assert chunks[..k] == chunks[..j] + chunks[j..k];
  }

  /** A read brings the bytes of the stream between the end of the last read and its own. */
  lemma ChunkIsSlice(chunks: seq<string>, k: nat)
    requires k < |chunks|
    ensures End(chunks, k) <= End(chunks, k + 1) <= |Flatten(chunks)|
    ensures chunks[k] == Flatten(chunks)[End(chunks, k)..End(chunks, k + 1)]
  {
    EndMonotone(chunks, k, k + 1);
    EndMonotone(chunks, k + 1, |chunks|);
    assert chunks[..|chunks|] == chunks && chunks[k..k + 1] == [chunks[k]];
    assert Flatten([chunks[k]]) == chunks[k] + Flatten([chunks[k]][1..]) == chunks[k];
  }
}
