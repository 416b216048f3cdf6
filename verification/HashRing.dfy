/** The consistent-hash ring of cynder/consistent_hash.h: every node owns `spread`
    points on a circle of hash values, and a key belongs to the owner of the first
    point met clockwise from the key's own hash. */
module HashRing {
  import opened Bytes
  import opened Numerals
  import opened Options

  const CIRCLE: nat := 0x1_0000_0000_0000_0000

  /** A hash value, a `size_t`. */
  type Point = p: nat | p < CIRCLE

  type Ring<Node> = map<Point, Node>

  /** How far clockwise `p` lies from `h`. */
  function Distance(h: Point, p: Point): (d: nat)
    ensures d < CIRCLE
  {
    if h <= p then p - h else CIRCLE - h + p
  }

  /** `p` is the ring's first point clockwise from `h`. */
  ghost predicate IsFirst(points: set<Point>, h: Point, p: Point) {
    p in points && forall q | q in points :: Distance(h, p) <= Distance(h, q)
  }

  lemma FirstUnique(points: set<Point>, h: Point, p: Point, q: Point)
    requires IsFirst(points, h, p) && IsFirst(points, h, q)
    ensures p == q
  {
    assert Distance(h, p) == Distance(h, q);
  }

  ghost predicate IsLeast(points: set<Point>, p: Point) {
    p in points && forall q | q in points :: p <= q
  }

  /** A non-empty ordered map has a first entry. */
  lemma LeastOf(points: set<Point>) returns (least: Point)
    requires points != {}
    ensures IsLeast(points, least)
  {
    var p :| p in points;
    var rest := points - {p};
    if rest == {} {
      assert points == {p};
      least := p;
    } else {
      var other := LeastOf(rest);
      least := if p <= other then p else other;
      forall q | q in points
        ensures least <= q
      {
        assert q == p || q in rest;
      }
    }
  }

  // ---------- spec of the ring operations ----------

  /** The ring after a node's points were written over it. */
  function Added<Node>(ring: Ring<Node>, node: Node, points: set<Point>): Ring<Node> {
    ring + map p | p in points :: node
  }

  lemma AddedNone<Node>(ring: Ring<Node>, node: Node)
    ensures Added(ring, node, {}) == ring
  {}

  lemma AddedOne<Node>(ring: Ring<Node>, node: Node, points: set<Point>, p: Point)
    ensures Added(ring, node, points)[p := node] == Added(ring, node, points + {p})
  {}

  class HashRing<Node(==), Key> {
    var ring: Ring<Node>
    var spread: nat
    const hash: seq<Byte> -> Point
    const nodeText: Node -> seq<Byte>
    const keyText: Key -> seq<Byte>

    constructor (spread: nat, hash: seq<Byte> -> Point, nodeText: Node -> seq<Byte>, keyText: Key -> seq<Byte>)
      ensures ring == map[] && this.spread == spread
      ensures this.hash == hash && this.nodeText == nodeText && this.keyText == keyText
    {
      ring := map[];
      this.spread := spread;
      this.hash := hash;
      this.nodeText := nodeText;
      this.keyText := keyText;
    }

    /** The point of a node for replica `r`. */
    function NodePoint(node: Node, r: nat): Point {
      hash(nodeText(node) + Digits(r))
    }

    /** The node's first `count` points. */
    function Points(node: Node, count: nat): set<Point> {
      set r: nat | r < count :: NodePoint(node, r)
    }

    /** addNode. Returns the last point's hash; with a spread of zero nothing is
        computed and the source returns an unset variable. */
    method AddNode(node: Node) returns (last: Point)
      modifies this`ring
      ensures ring == Added(old(ring), node, Points(node, spread))
      ensures spread > 0 ==> last == NodePoint(node, spread - 1)
    {
      hide Added;
      last := *;
      AddedNone(ring, node);
      assert Points(node, 0) == {};
      for r := 0 to spread
        invariant ring == Added(old(ring), node, Points(node, r))
        invariant r > 0 ==> last == NodePoint(node, r - 1)
      {
        last := NodePoint(node, r);
        AddedOne(old(ring), node, Points(node, r), last);
        assert Points(node, r + 1) == Points(node, r) + {last};
        ring := ring[last := node];
      }
    }

    /** removeNode: erase the node's points, whoever owns them. */
    method RemoveNode(node: Node)
      modifies this`ring
      ensures ring == old(ring) - Points(node, spread)
    {
      for r := 0 to spread
        invariant ring == old(ring) - Points(node, r)
      {
        assert Points(node, r + 1) == Points(node, r) + {NodePoint(node, r)};
        ring := ring - {NodePoint(node, r)};
      }
    }

    /** getNode: the map's lower bound of the key's hash, or its first entry when
        there is none. An empty ring throws. */
    method GetNode(key: Key) returns (owner: Option<Node>)
      ensures owner.None? <==> ring == map[]
      ensures owner.Some? ==> exists p :: IsFirst(ring.Keys, hash(keyText(key)), p) && owner.value == ring[p]
    {
      if |ring| == 0 {
        return None;
      }
      var h := hash(keyText(key));
      var above := set p | p in ring && h <= p;
      var candidates := if above != {} then above else ring.Keys;
      assert candidates != {};
      ghost var least := LeastOf(candidates);
      var p :| p in candidates && forall q | q in candidates :: p <= q;
      assert IsFirst(ring.Keys, h, p) by {
        forall q | q in ring.Keys
          ensures Distance(h, p) <= Distance(h, q)
        {
          assert h <= q ==> q in above;
        }
      }
      return Some(ring[p]);
    }
  }

  // ---------- one node comes, one node goes ----------

  /** Writing a node's points moves a key only to that node: the key's new owner is
      the node, or the old owner at the old point. It moves exactly when one of the
      node's points is met no later than the old first point. */
  lemma AddMovesOnlyToNew<Node>(ring: Ring<Node>, node: Node, points: set<Point>, h: Point, p: Point, p': Point)
    requires IsFirst(ring.Keys, h, p)
    requires IsFirst(Added(ring, node, points).Keys, h, p')
    ensures Added(ring, node, points)[p'] == node || (p' == p && Added(ring, node, points)[p'] == ring[p])
    ensures p' in points <==> exists q | q in points :: Distance(h, q) <= Distance(h, p)
  {
    var ring' := Added(ring, node, points);
    assert ring'.Keys == ring.Keys + points;
    if p' !in points {
      assert p' in ring.Keys;
      assert IsFirst(ring.Keys, h, p');
      FirstUnique(ring.Keys, h, p, p');
      forall q | q in points
        ensures Distance(h, p) < Distance(h, q)
      {
        assert q in ring'.Keys && q != p;
        assert Distance(h, q) != Distance(h, p);
      }
    } else {
      assert p in ring'.Keys;
    }
  }

  /** Taking points away moves exactly the keys that met one of them first, whoever owned it. */
  lemma RemoveKeepsOthers<Node>(ring: Ring<Node>, points: set<Point>, h: Point, p: Point)
    requires IsFirst(ring.Keys, h, p)
    ensures IsFirst((ring - points).Keys, h, p) <==> p !in points
    ensures p !in points ==> (ring - points)[p] == ring[p]
  {
    assert (ring - points).Keys == ring.Keys - points;
  }

  /** A point that a second node was written over is erased with the first one: the second
      node, which owned every key, is not on the ring any more. */
  lemma CollidingNodeLost<Node>(first: Node, second: Node, point: Point, h: Point)
    requires first != second
    ensures var ring := Added(Added(map[], first, {point}), second, {point});
            && IsFirst(ring.Keys, h, point) && ring[point] == second
            && ring - {point} == map[]
  {
    var ring := Added(Added(map[], first, {point}), second, {point});
    assert ring.Keys == {point};
  }

  /** Removing a node's points undoes adding them exactly when none of them
      collided with a point already there. */
  lemma RemoveUndoesAddIff<Node>(ring: Ring<Node>, node: Node, points: set<Point>)
    ensures Added(ring, node, points) - points == ring <==> points !! ring.Keys
  {
    var back := Added(ring, node, points) - points;
    assert back.Keys == ring.Keys - points;
    if points !! ring.Keys {
      assert ring.Keys - points == ring.Keys;
      assert forall p | p in ring :: back[p] == ring[p];
    } else {
      var p :| p in points && p in ring.Keys;
      assert p !in back;
    }
  }

  /** The order of two additions matters exactly when different nodes share a point. */
  lemma AddsCommuteIff<Node>(ring: Ring<Node>, a: Node, p: set<Point>, b: Node, q: set<Point>)
    ensures Added(Added(ring, a, p), b, q) == Added(Added(ring, b, q), a, p) <==> a == b || p !! q
  {
    var ab, ba := Added(Added(ring, a, p), b, q), Added(Added(ring, b, q), a, p);
    assert ab.Keys == ring.Keys + p + q == ba.Keys;
    if a != b && !(p !! q) {
      var x :| x in p && x in q;
      assert ab[x] == b && ba[x] == a;
    }
  }

  // ---------- whole histories ----------

  datatype Change<Node> = Add(node: Node) | Remove(node: Node)

  /** Each node's points, as a function. */
  type Placement<!Node> = Node -> set<Point>

  function Apply<Node>(ring: Ring<Node>, points: Placement<Node>, change: Change<Node>): Ring<Node> {
    match change
    case Add(node) => Added(ring, node, points(node))
    case Remove(node) => ring - points(node)
  }

  function Run<Node>(points: Placement<Node>, changes: seq<Change<Node>>): Ring<Node> {
    if changes == [] then map[]
    else Apply(Run(points, changes[..|changes| - 1]), points, changes[|changes| - 1])
  }

  /** The nodes added and not removed since. */
  function Members<Node(==)>(changes: seq<Change<Node>>): set<Node> {
    if changes == [] then {}
    else
      var before := Members(changes[..|changes| - 1]);
      match changes[|changes| - 1]
      case Add(node) => before + {node}
      case Remove(node) => before - {node}
  }

  ghost predicate NoCollisions<Node(!new)>(points: Placement<Node>) {
    forall a, b :: a != b ==> points(a) !! points(b)
  }

  /** The ring holds exactly the members' points. */
  ghost predicate HoldsMembers<Node>(ring: Ring<Node>, points: Placement<Node>, members: set<Node>) {
    && (forall p | p in ring :: ring[p] in members && p in points(ring[p]))
    && (forall n, p | n in members && p in points(n) :: p in ring && ring[p] == n)
  }

  lemma {:induction false} RunHoldsMembers<Node(!new)>(points: Placement<Node>, changes: seq<Change<Node>>)
    requires NoCollisions(points)
    ensures HoldsMembers(Run(points, changes), points, Members(changes))
  {
    if changes != [] {
      RunHoldsMembers(points, changes[..|changes| - 1]);
    }
  }

  /** Without collisions removing a node moves exactly the keys that it owned. */
  lemma RemoveMovesOwnKeys<Node(!new)>(
    points: Placement<Node>, changes: seq<Change<Node>>, node: Node, h: Point, p: Point)
    requires NoCollisions(points) && IsFirst(Run(points, changes).Keys, h, p)
    ensures IsFirst(Run(points, changes + [Remove(node)]).Keys, h, p) <==> Run(points, changes)[p] != node
  {
    var more := changes + [Remove(node)];
    assert more[..|changes|] == changes;
    RunHoldsMembers(points, changes);
    RemoveKeepsOthers(Run(points, changes), points(node), h, p);
  }

  /** Without collisions the ring depends on who is a member, not on the history:
      two histories with the same members give the same ring. */
  lemma HistoryIndependent<Node(!new)>(points: Placement<Node>, one: seq<Change<Node>>, other: seq<Change<Node>>)
    requires NoCollisions(points) && Members(one) == Members(other)
    ensures Run(points, one) == Run(points, other)
  {
    RunHoldsMembers(points, one);
    RunHoldsMembers(points, other);
    var r, s := Run(points, one), Run(points, other);
    assert r.Keys == s.Keys;
  }
}
