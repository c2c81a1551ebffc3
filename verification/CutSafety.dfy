/** Where the transfer parser has flushed its file up to, after each read, in terms of where the reads ended.

    The parser searches its unread bytes for CRLF. A read that ends between a CR and its LF makes it flush that
    CR, unless an earlier CRLF close by is still held back. The CRLF that starts the trailer is lost that way
    or not depending on the whole chain of CRLFs before it. */
module CutSafety {
  import opened ByteSearch
  import opened FileScan

  /** The CRLF at `q` of the body `y` is never split by the reads ending at `cuts`: no read ends inside it, or
      one that does finds an earlier CRLF, itself never split, less than a trailer's length `len` before. */
  ghost predicate Safe(y: string, len: nat, cuts: set<nat>, q: nat)
    decreases q
  {
    q + 1 !in cuts || exists p: nat | p < q :: OccursAt(y, CRLF, p) && q + 1 - p < len && Safe(y, len, cuts, p)
  }

  /** A read that ends at `m` leaves the CRLF at `p` unflushed: it could be the start of a trailer. */
  ghost predicate IsHold(y: string, len: nat, cuts: set<nat>, m: nat, p: nat) {
    p + 2 <= m && m - p < len && OccursAt(y, CRLF, p) && Safe(y, len, cuts, p)
  }

  /** The first such CRLF, or `m` when everything is flushed. */
  ghost function FlushPos(y: string, len: nat, cuts: set<nat>, m: nat, from: nat): (e: nat)
    requires from <= m
    ensures from <= e <= m
    ensures e < m ==> IsHold(y, len, cuts, m, e)
    ensures forall p :: from <= p < e ==> !IsHold(y, len, cuts, m, p)
    decreases m - from
  {
    if from == m || IsHold(y, len, cuts, m, from) then from else FlushPos(y, len, cuts, m, from + 1)
  }

  ghost function Flushed(y: string, len: nat, cuts: set<nat>, m: nat): nat {
    FlushPos(y, len, cuts, m, 0)
  }

  /** `m0` and `m` are the ends of two reads in a row. */
  ghost predicate NextCut(cuts: set<nat>, m0: nat, m: nat) {
    && (m0 == 0 || m0 in cuts) && m in cuts && m0 <= m
    && forall k :: k in cuts ==> k <= m0 || m <= k
  }

  /** A CRLF never split is not flushed by the read before. */
  lemma SafeIsAhead(y: string, len: nat, cuts: set<nat>, m0: nat, m: nat, p: nat)
    requires NextCut(cuts, m0, m) && OccursAt(y, CRLF, p) && Safe(y, len, cuts, p)
    requires m0 <= p + 1 || m0 - p < len
    ensures Flushed(y, len, cuts, m0) <= p
  {
    hide FlushPos;
    if p + 2 <= m0 {
      assert IsHold(y, len, cuts, m0, p);
    } else if p + 1 == m0 {
      var q: nat :| q < p && OccursAt(y, CRLF, q) && p + 1 - q < len && Safe(y, len, cuts, q);
      OccursCRLF(y, q);
      OccursCRLF(y, p);
      assert IsHold(y, len, cuts, m0, q);
    }
  }

  /** One that is split lies behind what has been flushed once the read that splits it is over. */
  lemma UnsafeIsBehind(y: string, len: nat, cuts: set<nat>, m0: nat, m: nat, p: nat)
    requires NextCut(cuts, m0, m) && OccursAt(y, CRLF, p) && !Safe(y, len, cuts, p)
    requires p + 1 < m
    ensures p < Flushed(y, len, cuts, m0)
  {
    hide FlushPos;
    var e := Flushed(y, len, cuts, m0);
    assert p + 1 in cuts && p + 1 <= m0;
    assert e < m0 ==> IsHold(y, len, cuts, m0, e);
  }

  /** One pass of the flush loop: as long as no trailer is found, it goes exactly to the first safe CRLF held. */
  lemma PassFlushes(y: string, trailer: string, cuts: set<nat>, m0: nat, m: nat)
    requires NextCut(cuts, m0, m) && m <= |y| && Compatible(CRLF, trailer)
    requires var e0 := Flushed(y, |trailer|, cuts, m0);
             forall p :: e0 <= p && p + |trailer| <= m ==> !OccursAt(y, trailer, p)
    ensures var e0 := Flushed(y, |trailer|, cuts, m0);
            var e := Stop(y[e0..m], CRLF, trailer, 0);
            e0 + e == Flushed(y, |trailer|, cuts, m) && !OccursAt(y[e0..m], trailer, e)
  {
    hide Flushed, FlushPos, Safe, IsHold, IsStop, Stop, OccursAt;
    var e0, e1 := Flushed(y, |trailer|, cuts, m0), Flushed(y, |trailer|, cuts, m);
    FlushedBounds(y, |trailer|, cuts, m0);
    FlushedBounds(y, |trailer|, cuts, m);
    if e1 < m {
      SafeHold(y, trailer, cuts, m0, m, e1);
    }
    assert e0 <= e1;
    forall i: nat | 0 <= i < e1 - e0
      ensures !IsStop(y[e0..m], CRLF, trailer, i)
    {
      if IsStop(y[e0..m], CRLF, trailer, e0 + i - e0) {
        StopIsHold(y, trailer, cuts, m0, m, e0 + i);
      }
    }
    if e1 < m {
      HoldIsStop(y, trailer, cuts, m0, m, e1);
    }
    NoTrailer(y, trailer, e0, m, e1);
    StopIs(y[e0..m], CRLF, trailer, 0, e1 - e0);
  }

  lemma FlushedBounds(y: string, len: nat, cuts: set<nat>, m: nat)
    ensures var e := Flushed(y, len, cuts, m);
            && e <= m && (e < m ==> IsHold(y, len, cuts, m, e))
            && forall p: nat :: p < e ==> !IsHold(y, len, cuts, m, p)
  {
  }

  lemma SafeHold(y: string, trailer: string, cuts: set<nat>, m0: nat, m: nat, p: nat)
    requires NextCut(cuts, m0, m) && IsHold(y, |trailer|, cuts, m, p)
    ensures Flushed(y, |trailer|, cuts, m0) <= p
  {
    hide Flushed, Safe;
    SafeIsAhead(y, |trailer|, cuts, m0, m, p);
  }

  lemma StopIsHold(y: string, trailer: string, cuts: set<nat>, m0: nat, m: nat, p: nat)
    requires NextCut(cuts, m0, m) && m <= |y| && Compatible(CRLF, trailer)
    requires var e0 := Flushed(y, |trailer|, cuts, m0);
             && e0 <= p <= m && IsStop(y[e0..m], CRLF, trailer, p - e0)
             && (p + |trailer| <= m ==> !OccursAt(y, trailer, p))
    ensures IsHold(y, |trailer|, cuts, m, p)
  {
    hide Flushed, Safe, OccursAt;
    var e0 := Flushed(y, |trailer|, cuts, m0);
    Within(y, CRLF, e0, m, p - e0);
    Within(y, trailer, e0, m, p - e0);
    if !Safe(y, |trailer|, cuts, p) {
      UnsafeIsBehind(y, |trailer|, cuts, m0, m, p);
    }
  }

  lemma HoldIsStop(y: string, trailer: string, cuts: set<nat>, m0: nat, m: nat, p: nat)
    requires m <= |y| && Compatible(CRLF, trailer)
    requires Flushed(y, |trailer|, cuts, m0) <= m0 <= m && Flushed(y, |trailer|, cuts, m0) <= p
    requires IsHold(y, |trailer|, cuts, m, p)
    ensures var e0 := Flushed(y, |trailer|, cuts, m0);
            IsStop(y[e0..m], CRLF, trailer, p - e0)
  {
    hide Flushed, Safe, OccursAt;
    Within(y, CRLF, Flushed(y, |trailer|, cuts, m0), m, p - Flushed(y, |trailer|, cuts, m0));
  }

  lemma NoTrailer(y: string, trailer: string, e0: nat, m: nat, e: nat)
    requires e0 <= e <= m <= |y|
    requires e + |trailer| <= m ==> !OccursAt(y, trailer, e)
    ensures !OccursAt(y[e0..m], trailer, e - e0)
  {
    hide OccursAt;
    Within(y, trailer, e0, m, e - e0);
  }

  lemma Within(y: string, pat: string, e0: nat, m: nat, i: nat)
    requires e0 <= m <= |y|
    ensures OccursAt(y[e0..m], pat, i) <==> e0 + i + |pat| <= m && OccursAt(y, pat, e0 + i)
  {
    if e0 + i + |pat| <= m {
      var a, b := y[e0..m][i..i + |pat|], y[e0 + i..e0 + i + |pat|];
      assert forall k :: 0 <= k < |pat| ==> a[k] == y[e0 + i + k] == b[k];
      assert a == b;
    }
  }

  /** A trailer that the receiver finds: the first one whose CRLF is safe. */
  ghost predicate FirstSafe(y: string, trailer: string, cuts: set<nat>, c: nat) {
    && OccursAt(y, trailer, c) && Safe(y, |trailer|, cuts, c)
    && NoneSafe(y, trailer, cuts, c)
  }

  /** No trailer that starts before `c` is safe. */
  ghost predicate NoneSafe(y: string, trailer: string, cuts: set<nat>, c: nat) {
    forall p: nat :: p < c && OccursAt(y, trailer, p) ==> !Safe(y, |trailer|, cuts, p)
  }

  /** Before the last byte of the first safe trailer has come, no trailer lies among the bytes not flushed. */
  lemma NoneHeld(y: string, trailer: string, cuts: set<nat>, m0: nat, m: nat, c: nat, p: nat)
    requires NextCut(cuts, m0, m) && Compatible(CRLF, trailer) && NoneSafe(y, trailer, cuts, c)
    requires Flushed(y, |trailer|, cuts, m0) <= p < c && p + |trailer| <= m
    ensures !OccursAt(y, trailer, p)
  {
    hide Flushed, Safe;
    if OccursAt(y, trailer, p) {
      UnsafeTrailerLost(y, trailer, cuts, m0, m, p);
    }
  }

  /** The read that brings the last byte of the first safe trailer finds it, with exactly the bytes before it flushed. */
  lemma SafeTrailerFound(y: string, trailer: string, cuts: set<nat>, m0: nat, m: nat, c: nat)
    requires NextCut(cuts, m0, m) && m <= |y| && Compatible(CRLF, trailer)
    requires FirstSafe(y, trailer, cuts, c) && m0 < c + |trailer| <= m
    ensures var e0 := Flushed(y, |trailer|, cuts, m0);
            e0 <= c && Stop(y[e0..m], CRLF, trailer, 0) == c - e0 && OccursAt(y[e0..m], trailer, c - e0)
  {
    hide Flushed, Safe, OccursAt, IsStop, NextCut, NoneSafe;
    var e0 := Flushed(y, |trailer|, cuts, m0);
    BeginsWithCRLF(y, trailer, c);
    SafeIsAhead(y, |trailer|, cuts, m0, m, c);
    FlushedBounds(y, |trailer|, cuts, m0);
    Within(y, trailer, e0, m, c - e0);
    forall i: nat | i < c - e0 ensures !IsStop(y[e0..m], CRLF, trailer, i) {
      NoStopAhead(y, trailer, cuts, m0, m, c, i);
    }
    FoundIsStop(y[e0..m], trailer, c - e0);
    StopIs(y[e0..m], CRLF, trailer, 0, c - e0);
  }

  lemma BeginsWithCRLF(y: string, trailer: string, c: nat)
    requires OccursAt(y, trailer, c) && Compatible(CRLF, trailer)
    ensures OccursAt(y, CRLF, c)
  {
    assert y[c..c + |trailer|][..2] == y[c..c + 2] == CRLF;
  }

  lemma FoundIsStop(p: string, trailer: string, i: nat)
    requires OccursAt(p, trailer, i) && Compatible(CRLF, trailer)
    ensures IsStop(p, CRLF, trailer, i)
  {
    BeginsWithCRLF(p, trailer, i);
  }

  /** A pass does not stop before the first safe trailer once that has come. */
  lemma NoStopAhead(y: string, trailer: string, cuts: set<nat>, m0: nat, m: nat, c: nat, i: nat)
    requires NextCut(cuts, m0, m) && m <= |y| && Compatible(CRLF, trailer) && NoneSafe(y, trailer, cuts, c)
    requires var e0 := Flushed(y, |trailer|, cuts, m0); e0 <= m0 && e0 + i < c && c + |trailer| <= m
    ensures var e0 := Flushed(y, |trailer|, cuts, m0); !IsStop(y[e0..m], CRLF, trailer, i)
  {
    hide Flushed, Safe, OccursAt, NextCut, NoneSafe;
    var e0 := Flushed(y, |trailer|, cuts, m0);
    Within(y, trailer, e0, m, i);
    NoneHeld(y, trailer, cuts, m0, m, c, e0 + i);
  }

  /** If it is not, the first byte of the trailer has been flushed before. */
  lemma UnsafeTrailerLost(y: string, trailer: string, cuts: set<nat>, m0: nat, m: nat, c: nat)
    requires NextCut(cuts, m0, m) && Compatible(CRLF, trailer)
    requires OccursAt(y, trailer, c) && c + 1 < m && !Safe(y, |trailer|, cuts, c)
    ensures c < Flushed(y, |trailer|, cuts, m0)
  {
    hide FlushPos;
    assert y[c..c + |trailer|][..2] == y[c..c + 2] == CRLF;
    UnsafeIsBehind(y, |trailer|, cuts, m0, m, c);
  }

  /** Whether a CRLF is safe does not depend on reads that end behind it. */
  lemma {:induction false} SafeAgrees(y: string, len: nat, cuts: set<nat>, cuts': set<nat>, q: nat)
    requires forall k: nat :: k <= q + 1 ==> (k in cuts <==> k in cuts')
    ensures Safe(y, len, cuts, q) <==> Safe(y, len, cuts', q)
    decreases q
  {
    forall p: nat | p < q ensures Safe(y, len, cuts, p) <==> Safe(y, len, cuts', p) {
      SafeAgrees(y, len, cuts, cuts', p);
    }
  }

  /** No read that ends right behind the first byte of the trailer: then it is safe. */
  lemma UncutIsSafe(y: string, len: nat, cuts: set<nat>, c: nat)
    requires c + 1 !in cuts
    ensures Safe(y, len, cuts, c)
  {
  }
}
