/** The consistent-hash ring that assigns users to groups of storage nodes
    (tracker/src/message/consistenthash.h), for an arbitrary hash function, collisions included. */
module ConsistentHashing {

  const REPLICAS := 5

  /** Points of the ring are 32-bit values. */
  const POINTS := 0x1_0000_0000

  datatype Option<T> = None | Some(value: T)

  /** The order of std::map: the least key that is no less than h. */
  ghost predicate IsLowerBound(keys: set<nat>, h: nat, k: nat) {
    k in keys && h <= k && forall j <- keys :: h <= j ==> k <= j
  }

  lemma {:induction false} LowerBoundExists(keys: set<nat>, h: nat, j: nat) returns (k: nat)
    requires j in keys && h <= j
    ensures IsLowerBound(keys, h, k)
    decreases j
  {
    if i :| i in keys && h <= i < j {
      k := LowerBoundExists(keys, h, i);
    } else {
      k := j;
    }
  }

  /** How far one has to go clockwise from h to k. */
  function Distance(h: nat, k: nat): nat { (k + POINTS - h) % POINTS }

  /** Point k is the nearest one clockwise from h. */
  ghost predicate Nearest(keys: set<nat>, h: nat, k: nat) {
    k in keys && forall j <- keys :: Distance(h, k) <= Distance(h, j)
  }

  lemma NearestIsUnique(keys: set<nat>, h: nat, k: nat, j: nat)
    requires h < POINTS && forall p <- keys :: p < POINTS
    requires Nearest(keys, h, k) && Nearest(keys, h, j)
    ensures k == j
  {
    DistanceIs(h, k);
    DistanceIs(h, j);
  }

  lemma DistanceIs(h: nat, k: nat)
    requires h < POINTS && k < POINTS
    ensures Distance(h, k) == if h <= k then k - h else k + POINTS - h
  {}

  lemma LowerBoundIsNearest(keys: set<nat>, h: nat, k: nat)
    requires h < POINTS && forall p <- keys :: p < POINTS
    requires if exists j <- keys :: h <= j then IsLowerBound(keys, h, k) else IsLowerBound(keys, 0, k)
    ensures Nearest(keys, h, k)
  {
    forall j <- keys ensures Distance(h, k) <= Distance(h, j) {
      DistanceIs(h, k);
      DistanceIs(h, j);
    }
  }

  /** The points of a node: those of its names with a number behind. */
  function VirtualNode(node: string, i: nat): string
    requires i < REPLICAS
  {
    node + "---" + ["01234"[i]]
  }

  function Hash(hash: string -> nat, key: string): nat { hash(key) % POINTS }

  function PointsUpto(hash: string -> nat, node: string, n: nat): set<nat>
    requires n <= REPLICAS
  {
    set i | 0 <= i < n :: Hash(hash, VirtualNode(node, i))
  }

  function Points(hash: string -> nat, node: string): set<nat> { PointsUpto(hash, node, REPLICAS) }

  /** All points of the set go to the node, whoever had them. */
  function Claimed(ring: map<nat, string>, points: set<nat>, node: string): map<nat, string> {
    map k | k in ring.Keys + points :: if k in points then node else ring[k]
  }

  /** The group of a key that hashes to h: the owner of the nearest point, or the empty name. */
  ghost predicate IsGroup(ring: map<nat, string>, h: nat, group: string) {
    if ring == map[] then group == "" else exists k <- ring :: Nearest(ring.Keys, h, k) && group == ring[k]
  }

  /** Whatever the hash function does, a key whose group changes when a node claims points changes to that node. */
  lemma KeepsOrMoves(ring: map<nat, string>, points: set<nat>, node: string, h: nat, before: string, after: string)
    requires h < POINTS && (forall p <- ring :: p < POINTS) && (forall p <- points :: p < POINTS)
    requires IsGroup(ring, h, before) && IsGroup(Claimed(ring, points, node), h, after)
    ensures after == before || after == node
  {
    var ring' := Claimed(ring, points, node);
    if ring' != map[] {
      var k' :| k' in ring' && Nearest(ring'.Keys, h, k') && after == ring'[k'];
      if k' !in points {
        var k :| k in ring && Nearest(ring.Keys, h, k) && before == ring[k];
        assert Nearest(ring.Keys, h, k') by {
          forall j <- ring.Keys ensures Distance(h, k') <= Distance(h, j) { assert j in ring'.Keys; }
        }
        NearestIsUnique(ring.Keys, h, k, k');
      }
    }
  }

  /** The whole effect of a change of the ring on the keys. */
  ghost predicate OnlyTo(ring: map<nat, string>, ring': map<nat, string>, node: string) {
    forall h, before, after :: 0 <= h < POINTS && IsGroup(ring, h, before) && IsGroup(ring', h, after) ==>
                                 after == before || after == node
  }

  lemma ClaimedOnlyTo(ring: map<nat, string>, points: set<nat>, node: string)
    requires (forall p <- ring :: p < POINTS) && (forall p <- points :: p < POINTS)
    ensures OnlyTo(ring, Claimed(ring, points, node), node)
  {
    hide IsGroup, Claimed;
    forall h, before, after |
      0 <= h < POINTS && IsGroup(ring, h, before) && IsGroup(Claimed(ring, points, node), h, after)
      ensures after == before || after == node
    {
      KeepsOrMoves(ring, points, node, h, before, after);
    }
  }

  function Joined(hash: string -> nat, ring: map<nat, string>, nodes: seq<string>): map<nat, string>
    decreases |nodes|
  {
    if nodes == [] then ring else Joined(hash, Claimed(ring, Points(hash, nodes[0]), nodes[0]), nodes[1..])
  }

  lemma GroupExists(ring: map<nat, string>, h: nat) returns (group: string)
    requires h < POINTS && forall p <- ring :: p < POINTS
    ensures IsGroup(ring, h, group)
  {
    if ring == map[] { return ""; }
    var k: nat;
    if j :| j in ring.Keys && h <= j {
      k := LowerBoundExists(ring.Keys, h, j);
    } else {
      var j :| j in ring.Keys;
      k := LowerBoundExists(ring.Keys, 0, j);
    }
    LowerBoundIsNearest(ring.Keys, h, k);
    group := ring[k];
  }

  /** Across any sequence of joins: each join leaves a key where it is or takes it to the joining node, so a key
      that is not where it was is at one of the nodes that joined. */
  lemma {:induction false} AcrossJoins(hash: string -> nat, ring: map<nat, string>, nodes: seq<string>, h: nat,
                                       before: string, after: string)
    requires h < POINTS && forall p <- ring :: p < POINTS
    requires IsGroup(ring, h, before) && IsGroup(Joined(hash, ring, nodes), h, after)
    ensures after == before || after in nodes
    decreases |nodes|
  {
    hide IsGroup, Nearest, Points;
    if nodes == [] {
      GroupIsUnique(ring, h, before, after);
    } else {
      assert forall p <- Points(hash, nodes[0]) :: p < POINTS by { PointsFit(hash, nodes[0]); }
      var next := Claimed(ring, Points(hash, nodes[0]), nodes[0]);
      var middle := GroupExists(next, h);
      KeepsOrMoves(ring, Points(hash, nodes[0]), nodes[0], h, before, middle);
      AcrossJoins(hash, next, nodes[1..], h, middle, after);
    }
  }

  lemma PointsFit(hash: string -> nat, node: string)
    ensures forall p <- Points(hash, node) :: p < POINTS
  {}

  lemma GroupIsUnique(ring: map<nat, string>, h: nat, a: string, b: string)
    requires h < POINTS && forall p <- ring :: p < POINTS
    requires IsGroup(ring, h, a) && IsGroup(ring, h, b)
    ensures a == b
  {
    if ring != map[] {
      var j :| j in ring && Nearest(ring.Keys, h, j) && a == ring[j];
      var k :| k in ring && Nearest(ring.Keys, h, k) && b == ring[k];
      NearestIsUnique(ring.Keys, h, j, k);
    }
  }

  lemma ClaimOneMore(hash: string -> nat, ring: map<nat, string>, node: string, i: nat)
    requires i < REPLICAS
    ensures Claimed(ring, PointsUpto(hash, node, i + 1), node)
         == Claimed(ring, PointsUpto(hash, node, i), node)[Hash(hash, VirtualNode(node, i)) := node]
  {
    hide VirtualNode, Hash;
    OnePointMore(hash, node, i);
  }

  lemma OnePointMore(hash: string -> nat, node: string, i: nat)
    requires i < REPLICAS
    ensures PointsUpto(hash, node, i + 1) == PointsUpto(hash, node, i) + {Hash(hash, VirtualNode(node, i))}
  {
    hide VirtualNode, Hash;
  }

  /** The points of a node, written out. */
  function Five(hash: string -> nat, node: string): set<nat> {
    {hash(node + "---0") % 0x1_0000_0000, hash(node + "---1") % 0x1_0000_0000, hash(node + "---2") % 0x1_0000_0000,
     hash(node + "---3") % 0x1_0000_0000, hash(node + "---4") % 0x1_0000_0000}
  }

  lemma PointsAreFive(hash: string -> nat, node: string)
    ensures Points(hash, node) == Five(hash, node)
  {
    hide VirtualNode, Hash;
    NameIs(node, 0);
    NameIs(node, 1);
    NameIs(node, 2);
    NameIs(node, 3);
    NameIs(node, 4);
    forall i | 0 <= i < REPLICAS ensures Hash(hash, VirtualNode(node, i)) == hash(VirtualNode(node, i)) % 0x1_0000_0000 {
      HashIs(hash, VirtualNode(node, i));
    }
    assert Hash(hash, VirtualNode(node, 0)) in Points(hash, node) && Hash(hash, VirtualNode(node, 1)) in Points(hash, node);
    assert Hash(hash, VirtualNode(node, 2)) in Points(hash, node) && Hash(hash, VirtualNode(node, 3)) in Points(hash, node);
    assert Hash(hash, VirtualNode(node, 4)) in Points(hash, node);
  }

  lemma HashIs(hash: string -> nat, key: string)
    ensures Hash(hash, key) == hash(key) % 0x1_0000_0000
  {}

  lemma NameIs(node: string, i: nat)
    requires i < REPLICAS
    ensures VirtualNode(node, i) == node + match i case 0 => "---0" case 1 => "---1" case 2 => "---2" case 3 => "---3"
                                           case _ => "---4"
  {
    assert node + "---" + ["01234"[i]] == node + ("---" + ["01234"[i]]);
    assert "---" + ["01234"[0]] == "---0" && "---" + ["01234"[1]] == "---1" && "---" + ["01234"[2]] == "---2";
    assert "---" + ["01234"[3]] == "---3" && "---" + ["01234"[4]] == "---4";
  }

  /** They are five exactly if the hash function tells the five names apart. */
  lemma FivePoints(hash: string -> nat, node: string)
    ensures |Five(hash, node)| == 5 <==>
            forall i, j :: 0 <= i < j < 5 ==>
              hash(node + "---" + ["01234"[i]]) % 0x1_0000_0000 != hash(node + "---" + ["01234"[j]]) % 0x1_0000_0000
  {
    hide Points, Hash;
    var h := seq(5, i requires 0 <= i < 5 => hash(node + "---" + ["01234"[i]]) % 0x1_0000_0000);
    NameIs(node, 0);
    NameIs(node, 1);
    NameIs(node, 2);
    NameIs(node, 3);
    NameIs(node, 4);
    assert Five(hash, node) == {h[0], h[1], h[2], h[3], h[4]};
    FiveOf(h);
  }

  lemma FiveOf(h: seq<nat>)
    requires |h| == 5
    ensures |{h[0], h[1], h[2], h[3], h[4]}| == 5 <==> forall i, j :: 0 <= i < j < 5 ==> h[i] != h[j]
  {
    if i, j :| 0 <= i < j < 5 && h[i] == h[j] {
      FourOf(h, i, j);
    }
  }

  lemma FourOf(h: seq<nat>, i: nat, j: nat)
    requires |h| == 5 && i < j < 5 && h[i] == h[j]
    ensures |{h[0], h[1], h[2], h[3], h[4]}| < 5
  {
    var rest := h[..j] + h[j + 1..];
    var s, t := {h[0], h[1], h[2], h[3], h[4]}, {rest[0], rest[1], rest[2], rest[3]};
    assert s <= t;
    Smaller(s, t);
  }

  lemma Smaller(s: set<nat>, t: set<nat>)
    requires s <= t
    ensures |s| <= |t|
  {
    if s != {} {
      var x :| x in s;
      Smaller(s - {x}, t - {x});
    }
  }

  lemma ClaimedFits(ring: map<nat, string>, points: set<nat>, node: string)
    requires (forall p <- ring :: p < POINTS) && (forall p <- points :: p < POINTS)
    ensures forall p <- Claimed(ring, points, node) :: p < POINTS
  {}

  lemma ClaimNone(hash: string -> nat, ring: map<nat, string>, node: string)
    ensures Claimed(ring, PointsUpto(hash, node, 0), node) == ring
  {}

  /** A key moves to the new node exactly if one of the node's points is nearer than all the others, or at the
      nearest one. */
  lemma MovesIff(ring: map<nat, string>, points: set<nat>, node: string, h: nat, after: string)
    requires h < POINTS && (forall p <- ring :: p < POINTS) && (forall p <- points :: p < POINTS)
    requires IsGroup(Claimed(ring, points, node), h, after) && node !in ring.Values && points != {}
    ensures after == node <==> exists p <- points :: forall k <- ring.Keys :: Distance(h, p) <= Distance(h, k)
  {
    var ring' := Claimed(ring, points, node);
    var p :| p in points;
    assert p in ring';
    var k' :| k' in ring' && Nearest(ring'.Keys, h, k') && after == ring'[k'];
    if after == node {
      assert k' in points;
      forall k <- ring.Keys ensures Distance(h, k') <= Distance(h, k) { assert k in ring'.Keys; }
    } else if q :| q in points && forall k <- ring.Keys :: Distance(h, q) <= Distance(h, k) {
      assert q in ring'.Keys && k' in ring.Keys;
      DistanceIs(h, q);
      DistanceIs(h, k');
      assert false;
    }
  }

  /** The order in which two nodes join does not matter exactly if no point of theirs collides. */
  lemma OrderMattersIff(hash: string -> nat, ring: map<nat, string>, a: string, b: string)
    requires a != b
    ensures Claimed(Claimed(ring, Points(hash, a), a), Points(hash, b), b)
         == Claimed(Claimed(ring, Points(hash, b), b), Points(hash, a), a)
       <==> Points(hash, a) !! Points(hash, b)
  {
    hide Points;
    var ab := Claimed(Claimed(ring, Points(hash, a), a), Points(hash, b), b);
    var ba := Claimed(Claimed(ring, Points(hash, b), b), Points(hash, a), a);
    if k :| k in Points(hash, a) && k in Points(hash, b) {
      assert ab[k] == b && ba[k] == a;
    } else {
      assert ab.Keys == ba.Keys;
      assert forall k <- ab.Keys :: ab[k] == ba[k];
    }
  }

  lemma AddsFive(hash: string -> nat, ring: map<nat, string>, node: string)
    ensures var five := {hash(node + "---0") % 0x1_0000_0000, hash(node + "---1") % 0x1_0000_0000,
                         hash(node + "---2") % 0x1_0000_0000, hash(node + "---3") % 0x1_0000_0000,
                         hash(node + "---4") % 0x1_0000_0000};
            var ring' := Claimed(ring, Points(hash, node), node);
            && ring'.Keys == ring.Keys + five
            && forall k <- ring' :: ring'[k] == if k in five then node else ring[k]
  {
    hide Points;
    PointsAreFive(hash, node);
  }

  class ConsistentHash {
    const hash: string -> nat
    var ring: map<nat, string>

    ghost predicate Valid()
      reads this
    {
      forall k <- ring :: k < POINTS
    }

    constructor (hash: string -> nat)
      ensures Valid() && ring == map[] && this.hash == hash
    {
      this.hash := hash;
      ring := map[];
    }

    method AddNode(node: string)
      requires Valid()
      modifies this
      ensures Valid() && ring == Claimed(old(ring), Points(hash, node), node)
      ensures var five := {hash(node + "---0") % 0x1_0000_0000, hash(node + "---1") % 0x1_0000_0000,
                           hash(node + "---2") % 0x1_0000_0000, hash(node + "---3") % 0x1_0000_0000,
                           hash(node + "---4") % 0x1_0000_0000};
              && ring.Keys == old(ring).Keys + five
              && forall k <- ring :: ring[k] == if k in five then node else old(ring)[k]
      ensures OnlyTo(old(ring), ring, node)
    {
      hide OnlyTo, Claimed, PointsUpto, Five;
      AddsFive(hash, ring, node);
      ClaimNone(hash, ring, node);
      for i := 0 to REPLICAS
        invariant ring == Claimed(old(ring), PointsUpto(hash, node, i), node)
      {
        ClaimOneMore(hash, old(ring), node, i);
        var virtualNode := VirtualNode(node, i);
        ring := ring[Hash(hash, virtualNode) := node];
      }
      PointsFit(hash, node);
      ClaimedOnlyTo(old(ring), Points(hash, node), node);
      ClaimedFits(old(ring), Points(hash, node), node);
    }

    /** std::map::lower_bound. */
    method LowerBound(h: nat) returns (it: Option<nat>)
      ensures it.None? <==> forall k <- ring :: k < h
      ensures it.Some? ==> IsLowerBound(ring.Keys, h, it.value)
    {
      if j :| j in ring && h <= j {
        ghost var least := LowerBoundExists(ring.Keys, h, j);
        var k :| k in ring.Keys && h <= k && forall i <- ring.Keys :: h <= i ==> k <= i;
        it := Some(k);
      } else {
        it := None;
      }
    }

    method GetGroup(data: string) returns (group: string)
      requires Valid()
      ensures IsGroup(ring, Hash(hash, data), group)
      ensures ring == map[] ==> group == ""
      ensures ring != map[] ==>
                var h := hash(data) % 0x1_0000_0000;
                exists k <- ring :: group == ring[k] &&
                  if exists j <- ring :: h <= j then h <= k && forall j <- ring :: h <= j ==> k <= j
                  else forall j <- ring :: k <= j
    {
      if ring == map[] { return ""; }
      var h := Hash(hash, data);
      var it := LowerBound(h);
      if it.None? {
        it := LowerBound(0);
        assert it.Some? by { var k :| k in ring; }
      }
      LowerBoundIsNearest(ring.Keys, h, it.value);
      group := ring[it.value];
    }
  }
}
