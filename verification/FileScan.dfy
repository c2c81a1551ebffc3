/** One pass of the flush loop that both body parsers run over their unread bytes.

    A pass writes out everything before its stop position and keeps the rest. It stops at the first
    occurrence of `pat` (the lone CR of the upload parser, the CRLF of the transfer parser) that is
    either the closing delimiter or too close to the end to tell. */
module FileScan {
  import opened ByteSearch

  predicate IsStop(p: string, pat: string, delim: string, i: int) {
    OccursAt(p, pat, i) && (|p| - i < |delim| || OccursAt(p, delim, i))
  }

  /** The least stop position, or `|p|` when there is none. */
  function Stop(p: string, pat: string, delim: string, from: nat): (e: nat)
    requires from <= |p| && 0 < |pat|
    ensures from <= e <= |p|
    ensures e < |p| ==> IsStop(p, pat, delim, e)
    ensures forall i :: from <= i < e ==> !IsStop(p, pat, delim, i)
    decreases |p| - from
  {
    if from == |p| || IsStop(p, pat, delim, from) then from else Stop(p, pat, delim, from + 1)
  }

  lemma StopIs(p: string, pat: string, delim: string, from: nat, e: nat)
    requires from <= e <= |p| && 0 < |pat|
    requires IsStop(p, pat, delim, e) || e == |p|
    requires forall i :: from <= i < e ==> !IsStop(p, pat, delim, i)
    ensures Stop(p, pat, delim, from) == e
  {
    var f := Stop(p, pat, delim, from);
    assert f < e ==> IsStop(p, pat, delim, f);
    assert e < f ==> !IsStop(p, pat, delim, e);
  }

  lemma IsStopShift(p: string, pat: string, delim: string, o: nat, i: nat)
    requires o <= |p|
    ensures IsStop(p[o..], pat, delim, i) <==> IsStop(p, pat, delim, o + i)
  {
    OccursAtShift(p, pat, o, i);
    OccursAtShift(p, delim, o, i);
  }

  /** Dropping bytes that hold no stop position shifts the stop and changes nothing else. */
  lemma StopShift(p: string, pat: string, delim: string, o: nat)
    requires o <= |p| && 0 < |pat|
    requires forall i :: 0 <= i < o ==> !IsStop(p, pat, delim, i)
    ensures Stop(p, pat, delim, 0) == o + Stop(p[o..], pat, delim, 0)
  {
    var e := Stop(p[o..], pat, delim, 0);
    forall i | o <= i < o + e
      ensures !IsStop(p, pat, delim, i)
    {
      IsStopShift(p, pat, delim, o, i - o);
    }
    IsStopShift(p, pat, delim, o, e);
    StopIs(p, pat, delim, 0, o + e);
  }

  /** A delimiter starts with the pattern searched for, which does not overlap itself. */
  ghost predicate Compatible(pat: string, delim: string) {
    pat <= delim && |pat| < |delim| && (pat == CR || pat == CRLF)
  }

  /** What one loop iteration decides: finish, wait for more bytes, or write out a first part. */
  datatype Move = Found | Wait | Write(len: nat)

  /** The decision, branch by branch as both parsers take it. */
  function Decide(p: string, pat: string, delim: string): Move
    requires 0 < |pat| < |delim|
  {
    if p == "" then Wait else
    var c := Find(p, pat, 0);
    if c == |p| then Write(|p|)
    else if |p| - c >= |delim| then
      if OccursAt(p, delim, c) then if c == 0 then Found else Write(c)
      else Write(Find(p, pat, c + |pat|))  // a delimiter's length is left, so the guard on the second search holds
    else if c == 0 then Wait else Write(c)
  }

  /** What one pass writes out holds no stop position. */
  lemma WritesNoStop(p: string, pat: string, delim: string, i: nat)
    requires Compatible(pat, delim) && Decide(p, pat, delim).Write? && i < Decide(p, pat, delim).len
    ensures !IsStop(p, pat, delim, i)
  {
    OccursCRLF(p, i);
    OccursCRLF(p, Find(p, pat, 0));
  }

  /** A pass that writes nothing out stands at a stop position. */
  lemma HoldsAtStop(p: string, pat: string, delim: string)
    requires Compatible(pat, delim) && p != "" && !Decide(p, pat, delim).Write?
    ensures IsStop(p, pat, delim, 0) && (Decide(p, pat, delim).Found? <==> OccursAt(p, delim, 0))
  {
  }

  lemma WriteIsPart(p: string, pat: string, delim: string)
    requires Compatible(pat, delim) && Decide(p, pat, delim).Write?
    ensures 0 < Decide(p, pat, delim).len <= |p|
  {
  }

  lemma StopNotBefore(p: string, pat: string, delim: string, n: nat)
    requires 0 < |pat| && n <= |p|
    requires forall i :: 0 <= i < n ==> !IsStop(p, pat, delim, i)
    ensures n <= Stop(p, pat, delim, 0)
  {
    var e := Stop(p, pat, delim, 0);
    assert e < |p| ==> IsStop(p, pat, delim, e);
  }

  /** Every pass makes progress, and what it writes out holds no stop position. */
  lemma DecideSound(p: string, pat: string, delim: string)
    requires Compatible(pat, delim)
    ensures var m := Decide(p, pat, delim);
            && (m.Found? <==> p != "" && Stop(p, pat, delim, 0) == 0 && OccursAt(p, delim, 0))
            && (m.Wait? <==> Stop(p, pat, delim, 0) == 0 && !OccursAt(p, delim, 0))
            && (m.Write? ==> 0 < m.len <= Stop(p, pat, delim, 0))
  {
    hide IsStop, Find, Decide;
    if p != "" {
      var m := Decide(p, pat, delim);
      if m.Write? {
        WriteIsPart(p, pat, delim);
        forall i | 0 <= i < m.len
          ensures !IsStop(p, pat, delim, i)
        {
          WritesNoStop(p, pat, delim, i);
        }
        StopNotBefore(p, pat, delim, m.len);
        assert Stop(p, pat, delim, 0) > 0;
      } else {
        HoldsAtStop(p, pat, delim);
      }
    } else {
      assert Decide(p, pat, delim).Wait? by { NothingToDecide(pat, delim); }
      assert !OccursAt(p, delim, 0);
    }
  }

  lemma NothingToDecide(pat: string, delim: string)
    requires 0 < |pat| < |delim|
    ensures Decide("", pat, delim).Wait?
  {
  }

  ghost predicate NoStopBefore(p: string, pat: string, delim: string, o: nat) {
    forall i :: 0 <= i < o ==> !IsStop(p, pat, delim, i)
  }

  /** One loop iteration on what is left after the first `o` bytes of `p` have been written out. */
  lemma FlushStep(p: string, pat: string, delim: string, o: nat)
    requires Compatible(pat, delim) && o <= |p| && NoStopBefore(p, pat, delim, o)
    ensures 0 < |pat| < |delim|
    ensures match Decide(p[o..], pat, delim)
            case Found => o == Stop(p, pat, delim, 0) && OccursAt(p, delim, o)
            case Wait => o == Stop(p, pat, delim, 0) && !OccursAt(p, delim, o)
            case Write(len) =>
              && 0 < len && o + len <= |p| && NoStopBefore(p, pat, delim, o + len)
              && p[..o + len] == p[..o] + p[o..][..len] && p[o + len..] == p[o..][len..]
  {
    hide Decide, Stop, IsStop, OccursAt;
    DecideSound(p[o..], pat, delim);
    StopShift(p, pat, delim, o);
    OccursAtShift(p, delim, o, 0);
    match Decide(p[o..], pat, delim)
    case Found =>
    case Wait =>
    case Write(len) =>
      NoStopWritten(p, pat, delim, o, len);
      TakeMore(p, o, len);
  }

  lemma NoStopWritten(p: string, pat: string, delim: string, o: nat, len: nat)
    requires 0 < |pat| && o <= |p| && len <= Stop(p[o..], pat, delim, 0) && NoStopBefore(p, pat, delim, o)
    ensures NoStopBefore(p, pat, delim, o + len)
  {
    forall i | o <= i < o + len
      ensures !IsStop(p, pat, delim, i)
    {
      IsStopShift(p, pat, delim, o, i - o);
    }
  }

  lemma TakeMore(p: string, o: nat, len: nat)
    requires o + len <= |p|
    ensures p[..o + len] == p[..o] + p[o..][..len] && p[o + len..] == p[o..][len..]
  {
  }

  lemma NothingWritten(p: string, pat: string, delim: string)
    ensures NoStopBefore(p, pat, delim, 0)
  {
  }

  /** The lone-CR search is independent of how the stream is cut: more bytes behind a pass that did not
      finish move the stop exactly to where one pass over everything would have put it. */
  lemma StopAppend(p: string, b: string, delim: string)
    requires Compatible(CR, delim)
    ensures var e := Stop(p, CR, delim, 0);
            var whole := Stop(p + b, CR, delim, 0);
            if OccursAt(p, delim, e) then whole == e && OccursAt(p + b, delim, e)
            else whole == e + Stop(p[e..] + b, CR, delim, 0)
  {
    var e := Stop(p, CR, delim, 0);
    var s := p + b;
    forall i | 0 <= i < e
      ensures !IsStop(s, CR, delim, i)
    {
      assert !IsStop(p, CR, delim, i);
      OccursAtWithin(p, b, CR, i);
      if OccursAt(p, CR, i) {
        OccursAtWithin(p, b, delim, i);
      }
    }
    if OccursAt(p, delim, e) {
      OccursAtWithin(p, b, delim, e);
      OccursAtWithin(p, b, CR, e);
      StopIs(s, CR, delim, 0, e);
    } else {
      assert s[e..] == p[e..] + b;
      StopShift(s, CR, delim, e);
    }
  }

  /** What the two passes write, keep and recognise is what one pass over everything does. */
  lemma PassAppend(p: string, b: string, delim: string)
    requires Compatible(CR, delim)
    requires !OccursAt(p, delim, Stop(p, CR, delim, 0))
    ensures var e := Stop(p, CR, delim, 0);
            var rest := p[e..] + b;
            var e' := Stop(rest, CR, delim, 0);
            var whole := Stop(p + b, CR, delim, 0);
            && p[..e] + rest[..e'] == (p + b)[..whole]
            && rest[e'..] == (p + b)[whole..]
            && (OccursAt(rest, delim, e') <==> OccursAt(p + b, delim, whole))
  {
    hide Stop, IsStop, OccursAt, Compatible;
    var e := Stop(p, CR, delim, 0);
    var rest := p[e..] + b;
    var e', whole := Stop(rest, CR, delim, 0), Stop(p + b, CR, delim, 0);
    assert whole == e + e' by { StopAppend(p, b, delim); }
    TailOfWhole(p, b, delim, e, e', whole);
  }

  lemma TailOfWhole(p: string, b: string, delim: string, e: nat, e': nat, whole: nat)
    requires e <= |p| && e' <= |p[e..] + b| && whole == e + e'
    ensures p[..e] + (p[e..] + b)[..e'] == (p + b)[..whole] && (p[e..] + b)[e'..] == (p + b)[whole..]
    ensures OccursAt(p[e..] + b, delim, e') <==> OccursAt(p + b, delim, whole)
  {
    hide OccursAt;
    assert (p + b)[e..] == p[e..] + b;
    OccursAtShift(p + b, delim, e, e');
  }

  /** What may have to be held back: everything from the first CR among the last `|delim| - 1` bytes. */
  function HoldFrom(p: string, delim: string): nat
    requires 0 < |delim|
  {
    Find(p, CR, if |p| < |delim| then 0 else |p| - |delim| + 1)
  }

  /** The stop of the lone-CR search, in closed form: the first occurrence of the delimiter, or the held tail. */
  lemma StopClosedForm(p: string, delim: string)
    requires Compatible(CR, delim)
    ensures Stop(p, CR, delim, 0) == if Find(p, delim, 0) < |p| then Find(p, delim, 0) else HoldFrom(p, delim)
    ensures OccursAt(p, delim, Stop(p, CR, delim, 0)) <==> Find(p, delim, 0) < |p|
  {
    var k := Find(p, delim, 0);
    if k < |p| {
      assert p[k..k + |delim|][..1] == p[k..k + 1] == CR;
      StopIs(p, CR, delim, 0, k);
    } else {
      var h := HoldFrom(p, delim);
      forall i | 0 <= i < h
        ensures !IsStop(p, CR, delim, i)
      {
        assert !OccursAt(p, delim, i);
      }
      assert h < |p| ==> |p| - h < |delim|;
      StopIs(p, CR, delim, 0, h);
    }
  }
}
