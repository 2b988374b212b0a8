/** The reference search both walks over the graph engine are held against: breadth first, one node
    expanded at a time, with a cap on the hops. The neighbour query is an arbitrary function that
    may fail. */
module GraphSearch {
  import opened Wrappers

  type Node = string

  datatype Edge = Edge(name: Node, kind: string, strength: real)

  datatype Hop = Hop(name: Node, relation: string, strength: real, depth: nat)

  type Neighbors = Node -> Option<seq<Edge>>

  const MAX_HOPS: nat := 50

  function ClampDepth(d: int): nat {
    if d < 1 then 1 else if d > 5 then 5 else d
  }

  // ----- the graph

  ghost predicate HasEdge(neigh: Neighbors, x: Node, y: Node) {
    neigh(x).Some? && exists e :: e in neigh(x).value && e.name == y
  }

  /** Some walk of exactly d edges leads from start to x. */
  ghost predicate HasWalk(neigh: Neighbors, start: Node, x: Node, d: nat)
    decreases d
  {
    if d == 0 then x == start
    else exists y :: HasWalk(neigh, start, y, d - 1) && HasEdge(neigh, y, x)
  }

  ghost predicate Distance(neigh: Neighbors, start: Node, x: Node, d: nat) {
    HasWalk(neigh, start, x, d) && forall e: nat :: e < d ==> !HasWalk(neigh, start, x, e)
  }

  // ----- the reference search: visited nodes by index, start first

  function NodeAt(start: Node, hops: seq<Hop>, i: nat): Node
    requires i <= |hops|
  {
    if i == 0 then start else hops[i-1].name
  }

  function DepthAt(hops: seq<Hop>, i: nat): nat
    requires i <= |hops|
  {
    if i == 0 then 0 else hops[i-1].depth
  }

  predicate Seen(start: Node, hops: seq<Hop>, x: Node) {
    x == start || exists h :: h in hops && h.name == x
  }

  /** The unseen among `edges`, in order, one layer below `depth`, as long as there is room. */
  function Scan(start: Node, hops: seq<Hop>, edges: seq<Edge>, depth: nat, cap: nat): (r: seq<Hop>)
    ensures |hops| <= |r| && r[..|hops|] == hops && (|hops| <= cap ==> |r| <= cap)
    decreases |edges|
  {
    if edges == [] || |hops| >= cap then hops
    else
      var e := edges[0];
      Scan(start, if Seen(start, hops, e.name) then hops else hops + [Hop(e.name, e.kind, e.strength, depth + 1)],
           edges[1..], depth, cap)
  }

  /** Nodes are expanded in the order they were found; None when a query fails. */
  function Search(neigh: Neighbors, start: Node, hops: seq<Hop>, i: nat, maxDepth: nat, cap: nat): Option<seq<Hop>>
    requires |hops| <= cap
    decreases cap + 1 - i
  {
    if i > |hops| || |hops| >= cap then Some(hops)
    else if DepthAt(hops, i) >= maxDepth then Search(neigh, start, hops, i + 1, maxDepth, cap)
    else match neigh(NodeAt(start, hops, i))
      case None => None
      case Some(edges) =>
        Search(neigh, start, Scan(start, hops, edges, DepthAt(hops, i), cap), i + 1, maxDepth, cap)
  }

  lemma ScanStep(start: Node, hops: seq<Hop>, edges: seq<Edge>, n: nat, depth: nat, cap: nat)
    requires n < |edges| && |hops| < cap
    ensures var e := edges[n];
      Scan(start, hops, edges[n..], depth, cap) ==
      Scan(start, if Seen(start, hops, e.name) then hops else hops + [Hop(e.name, e.kind, e.strength, depth + 1)],
           edges[n + 1..], depth, cap)
  {
    assert edges[n..][1..] == edges[n + 1..];
  }

  lemma ScanDone(start: Node, hops: seq<Hop>, edges: seq<Edge>, depth: nat, cap: nat)
    requires edges == [] || |hops| >= cap
    ensures Scan(start, hops, edges, depth, cap) == hops
  {
  }

  lemma SearchStep(neigh: Neighbors, start: Node, hops: seq<Hop>, i: nat, maxDepth: nat, cap: nat)
    requires i <= |hops| < cap
    ensures DepthAt(hops, i) >= maxDepth ==>
      Search(neigh, start, hops, i, maxDepth, cap) == Search(neigh, start, hops, i + 1, maxDepth, cap)
    ensures DepthAt(hops, i) < maxDepth && neigh(NodeAt(start, hops, i)).None? ==>
      Search(neigh, start, hops, i, maxDepth, cap) == None
    ensures DepthAt(hops, i) < maxDepth && neigh(NodeAt(start, hops, i)).Some? ==>
      Search(neigh, start, hops, i, maxDepth, cap) ==
      Search(neigh, start, Scan(start, hops, neigh(NodeAt(start, hops, i)).value, DepthAt(hops, i), cap), i + 1, maxDepth, cap)
  {
  }

  lemma SearchDone(neigh: Neighbors, start: Node, hops: seq<Hop>, i: nat, maxDepth: nat, cap: nat)
    requires |hops| <= cap && (i > |hops| || |hops| >= cap)
    ensures Search(neigh, start, hops, i, maxDepth, cap) == Some(hops)
  {
  }

  // ----- what the search keeps

  /** Found nodes are distinct, in layers, each at the end of a walk of its depth; the first i of
      them have been expanded, as far as maxDepth. */
  ghost predicate Good(neigh: Neighbors, start: Node, hops: seq<Hop>, i: nat, maxDepth: nat) {
    && i <= |hops| + 1
    && DistinctNodes(start, hops)
    && Layered(hops, i, maxDepth)
    && Walked(neigh, start, hops)
    && Expanded(neigh, start, hops, i, maxDepth)
  }

  ghost predicate DistinctNodes(start: Node, hops: seq<Hop>) {
    forall a, b :: 0 <= a < b <= |hops| ==> NodeAt(start, hops, a) != NodeAt(start, hops, b)
  }

  ghost predicate Layered(hops: seq<Hop>, i: nat, maxDepth: nat) {
    && (forall a, b :: 0 <= a < b <= |hops| ==> DepthAt(hops, a) <= DepthAt(hops, b))
    && (forall b :: 0 <= b <= |hops| ==> DepthAt(hops, b) <= maxDepth)
    && (i <= |hops| ==> forall b :: 0 <= b <= |hops| ==> DepthAt(hops, b) <= DepthAt(hops, i) + 1)
  }

  ghost predicate Walked(neigh: Neighbors, start: Node, hops: seq<Hop>) {
    forall b :: 0 <= b <= |hops| ==> HasWalk(neigh, start, NodeAt(start, hops, b), DepthAt(hops, b))
  }

  /** y is among the found, at this depth or above. */
  ghost predicate FoundBy(start: Node, hops: seq<Hop>, y: Node, depth: nat) {
    exists b :: 0 <= b <= |hops| && NodeAt(start, hops, b) == y && DepthAt(hops, b) <= depth
  }

  ghost predicate Expanded(neigh: Neighbors, start: Node, hops: seq<Hop>, i: nat, maxDepth: nat) {
    forall a, y :: 0 <= a < i && a <= |hops| && DepthAt(hops, a) < maxDepth && HasEdge(neigh, NodeAt(start, hops, a), y)
      ==> FoundBy(start, hops, y, DepthAt(hops, a) + 1)
  }

  lemma SeenAt(start: Node, hops: seq<Hop>, x: Node)
    ensures Seen(start, hops, x) <==> exists b :: 0 <= b <= |hops| && NodeAt(start, hops, b) == x
  {
    if h :| h in hops && h.name == x {
      var k :| 0 <= k < |hops| && hops[k] == h;
      assert NodeAt(start, hops, k + 1) == x;
    }
    if x == start {
      assert NodeAt(start, hops, 0) == x;
    }
    if b :| 0 <= b <= |hops| && NodeAt(start, hops, b) == x {
      assert b > 0 ==> hops[b-1] in hops;
    }
  }

  lemma SameBefore(start: Node, hops: seq<Hop>, h: Hop)
    ensures forall b :: 0 <= b <= |hops| ==>
      NodeAt(start, hops + [h], b) == NodeAt(start, hops, b) && DepthAt(hops + [h], b) == DepthAt(hops, b)
    ensures NodeAt(start, hops + [h], |hops| + 1) == h.name && DepthAt(hops + [h], |hops| + 1) == h.depth
  {
  }

  lemma DistinctNext(start: Node, hops: seq<Hop>, h: Hop)
    requires DistinctNodes(start, hops) && !Seen(start, hops, h.name)
    ensures DistinctNodes(start, hops + [h])
  {
    SeenAt(start, hops, h.name);
    SameBefore(start, hops, h);
  }

  lemma LayeredNext(hops: seq<Hop>, i: nat, maxDepth: nat, h: Hop)
    requires Layered(hops, i, maxDepth) && i <= |hops| && h.depth == DepthAt(hops, i) + 1 <= maxDepth
    ensures Layered(hops + [h], i, maxDepth)
  {
    SameBefore(h.name, hops, h);
  }

  lemma ExpandedStays(neigh: Neighbors, start: Node, hops: seq<Hop>, i: nat, maxDepth: nat, h: Hop)
    requires Expanded(neigh, start, hops, i, maxDepth) && i <= |hops|
    ensures Expanded(neigh, start, hops + [h], i, maxDepth)
  {
    var more := hops + [h];
    SameBefore(start, hops, h);
    forall a, y | 0 <= a < i && a <= |more| && DepthAt(more, a) < maxDepth && HasEdge(neigh, NodeAt(start, more, a), y)
      ensures FoundBy(start, more, y, DepthAt(more, a) + 1)
    {
      assert FoundBy(start, hops, y, DepthAt(hops, a) + 1);
    }
  }

  /** One unseen neighbour of the node being expanded is found. */
  lemma FindOne(neigh: Neighbors, start: Node, hops: seq<Hop>, i: nat, maxDepth: nat, h: Hop)
    requires Good(neigh, start, hops, i, maxDepth) && i <= |hops| && DepthAt(hops, i) < maxDepth
    requires HasEdge(neigh, NodeAt(start, hops, i), h.name) && !Seen(start, hops, h.name)
    requires h.depth == DepthAt(hops, i) + 1
    ensures Good(neigh, start, hops + [h], i, maxDepth)
  {
    DistinctNext(start, hops, h);
    LayeredNext(hops, i, maxDepth, h);
    ExpandedStays(neigh, start, hops, i, maxDepth, h);
    assert HasWalk(neigh, start, NodeAt(start, hops, i), DepthAt(hops, i));
    assert HasWalk(neigh, start, h.name, h.depth);
    SameBefore(start, hops, h);
  }

  lemma PrefixAt(start: Node, hops: seq<Hop>, more: seq<Hop>, i: nat)
    requires i <= |hops| <= |more| && more[..|hops|] == hops
    ensures NodeAt(start, more, i) == NodeAt(start, hops, i) && DepthAt(more, i) == DepthAt(hops, i)
  {
    assert i > 0 ==> more[i-1] == more[..|hops|][i-1];
  }

  /** Scanning the neighbours of node i keeps the search good. */
  lemma {:induction false} ScanGood(neigh: Neighbors, start: Node, hops: seq<Hop>, i: nat, maxDepth: nat,
                                    edges: seq<Edge>, cap: nat)
    requires Good(neigh, start, hops, i, maxDepth) && i <= |hops| && DepthAt(hops, i) < maxDepth
    requires forall e :: e in edges ==> HasEdge(neigh, NodeAt(start, hops, i), e.name)
    ensures Good(neigh, start, Scan(start, hops, edges, DepthAt(hops, i), cap), i, maxDepth)
    decreases |edges|
  {
    hide Good, HasEdge, Seen;
    if edges != [] && |hops| < cap {
      var e, h := edges[0], Hop(edges[0].name, edges[0].kind, edges[0].strength, DepthAt(hops, i) + 1);
      if Seen(start, hops, e.name) {
        ScanGood(neigh, start, hops, i, maxDepth, edges[1..], cap);
      } else {
        FindOne(neigh, start, hops, i, maxDepth, h);
        PrefixAt(start, hops, hops + [h], i);
        ScanGood(neigh, start, hops + [h], i, maxDepth, edges[1..], cap);
      }
    }
  }

  /** Unless room ran out, a scan leaves everything it went through seen. */
  lemma {:induction false} ScanSees(start: Node, hops: seq<Hop>, edges: seq<Edge>, depth: nat, cap: nat)
    requires |Scan(start, hops, edges, depth, cap)| < cap
    ensures forall e :: e in edges ==> Seen(start, Scan(start, hops, edges, depth, cap), e.name)
    decreases |edges|
  {
    hide Seen;
    if edges != [] {
      var e, h := edges[0], Hop(edges[0].name, edges[0].kind, edges[0].strength, depth + 1);
      var more := if Seen(start, hops, e.name) then hops else hops + [h];
      SeenLast(start, hops, h);
      ScanSees(start, more, edges[1..], depth, cap);
      SeenStays(start, more, Scan(start, more, edges[1..], depth, cap), e.name);
    }
  }

  lemma SeenLast(start: Node, hops: seq<Hop>, h: Hop)
    ensures Seen(start, hops + [h], h.name)
  {
    assert h in hops + [h];
  }

  lemma SeenStays(start: Node, hops: seq<Hop>, more: seq<Hop>, x: Node)
    requires |hops| <= |more| && more[..|hops|] == hops && Seen(start, hops, x)
    ensures Seen(start, more, x)
  {
    if h :| h in hops && h.name == x {
      var k :| 0 <= k < |hops| && hops[k] == h;
      assert more[k] == more[..|hops|][k];
    }
  }

  /** Node i is expanded, or is too deep to be: either way the first i + 1 now are. */
  lemma ExpandNext(neigh: Neighbors, start: Node, hops: seq<Hop>, i: nat, maxDepth: nat)
    requires Good(neigh, start, hops, i, maxDepth) && i <= |hops|
    requires DepthAt(hops, i) < maxDepth ==>
      forall y :: HasEdge(neigh, NodeAt(start, hops, i), y) ==> Seen(start, hops, y)
    ensures Good(neigh, start, hops, i + 1, maxDepth)
  {
    forall a, y | 0 <= a < i + 1 && a <= |hops| && DepthAt(hops, a) < maxDepth && HasEdge(neigh, NodeAt(start, hops, a), y)
      ensures FoundBy(start, hops, y, DepthAt(hops, a) + 1)
    {
      if a == i {
        SeenAt(start, hops, y);
        var b :| 0 <= b <= |hops| && NodeAt(start, hops, b) == y;
        assert DepthAt(hops, b) <= DepthAt(hops, i) + 1;
      }
    }
    if i + 1 <= |hops| {
      assert DepthAt(hops, i) <= DepthAt(hops, i + 1);
    }
  }

  lemma StartGood(neigh: Neighbors, start: Node, maxDepth: nat)
    ensures Good(neigh, start, [], 0, maxDepth)
  {
  }

  /** A search that ends is good up to some index, and ended for lack of room or of nodes. */
  ghost predicate Ended(neigh: Neighbors, start: Node, hops: seq<Hop>, maxDepth: nat, cap: nat) {
    && |hops| <= cap
    && exists i: nat :: Good(neigh, start, hops, i, maxDepth) && (i > |hops| || |hops| >= cap)
  }

  lemma {:induction false} SearchEnds(neigh: Neighbors, start: Node, hops: seq<Hop>, i: nat, maxDepth: nat, cap: nat)
    requires |hops| <= cap && Good(neigh, start, hops, i, maxDepth)
    requires Search(neigh, start, hops, i, maxDepth, cap).Some?
    ensures Ended(neigh, start, Search(neigh, start, hops, i, maxDepth, cap).value, maxDepth, cap)
    decreases cap + 1 - i
  {
    hide Good, HasWalk;
    if i > |hops| || |hops| >= cap {
    } else if DepthAt(hops, i) >= maxDepth {
      ExpandNext(neigh, start, hops, i, maxDepth);
      SearchEnds(neigh, start, hops, i + 1, maxDepth, cap);
    } else {
      var edges := neigh(NodeAt(start, hops, i)).value;
      var r := Scan(start, hops, edges, DepthAt(hops, i), cap);
      ScanGood(neigh, start, hops, i, maxDepth, edges, cap);
      PrefixAt(start, hops, r, i);
      if |r| < cap {
        ScanSees(start, hops, edges, DepthAt(hops, i), cap);
        ExpandNext(neigh, start, r, i, maxDepth);
        SearchEnds(neigh, start, r, i + 1, maxDepth, cap);
      } else {
        assert Search(neigh, start, r, i + 1, maxDepth, cap) == Some(r);
      }
    }
  }

  // ----- what it finds

  /** Whatever a walk of d edges reaches has been found by depth d, once everything nearer has been
      expanded. */
  lemma {:induction false} WalkFound(neigh: Neighbors, start: Node, hops: seq<Hop>, i: nat, maxDepth: nat, x: Node, d: nat)
    requires Good(neigh, start, hops, i, maxDepth) && HasWalk(neigh, start, x, d)
    requires d <= maxDepth && (i <= |hops| ==> d <= DepthAt(hops, i))
    ensures FoundBy(start, hops, x, d)
    decreases d
  {
    if d == 0 {
      assert NodeAt(start, hops, 0) == x && DepthAt(hops, 0) == 0;
    } else {
      var y :| HasWalk(neigh, start, y, d - 1) && HasEdge(neigh, y, x);
      assert i <= |hops| ==> forall b :: i <= b <= |hops| ==> DepthAt(hops, i) <= DepthAt(hops, b);
      WalkFound(neigh, start, hops, i, maxDepth, y, d - 1);
      var a :| 0 <= a <= |hops| && NodeAt(start, hops, a) == y && DepthAt(hops, a) <= d - 1;
      assert a < i;
      assert FoundBy(start, hops, x, DepthAt(hops, a) + 1);
    }
  }

  /** Every depth reported is the exact distance from the start. */
  lemma DepthsExact(neigh: Neighbors, start: Node, hops: seq<Hop>, maxDepth: nat, cap: nat, h: Hop)
    requires Ended(neigh, start, hops, maxDepth, cap) && h in hops
    ensures Distance(neigh, start, h.name, h.depth)
  {
    var i: nat :| Good(neigh, start, hops, i, maxDepth) && (i > |hops| || |hops| >= cap);
    var k :| 0 <= k < |hops| && hops[k] == h;
    var b := k + 1;
    assert NodeAt(start, hops, b) == h.name && DepthAt(hops, b) == h.depth;
    forall e: nat | e < h.depth ensures !HasWalk(neigh, start, h.name, e) {
      if HasWalk(neigh, start, h.name, e) {
        assert DepthAt(hops, b) <= maxDepth;
        assert i <= |hops| ==> DepthAt(hops, b) <= DepthAt(hops, i) + 1;
        WalkFound(neigh, start, hops, i, maxDepth, h.name, e);
      }
    }
  }

  /** With room to spare, everything within the depth is there; without, nothing left out is nearer
      than anything kept. */
  lemma NoneNearerLeftOut(neigh: Neighbors, start: Node, hops: seq<Hop>, maxDepth: nat, cap: nat, x: Node, d: nat)
    requires Ended(neigh, start, hops, maxDepth, cap) && HasWalk(neigh, start, x, d) && d <= maxDepth
    ensures |hops| < cap ==> Seen(start, hops, x)
    ensures Seen(start, hops, x) || forall h :: h in hops ==> h.depth <= d
  {
    var i: nat :| Good(neigh, start, hops, i, maxDepth) && (i > |hops| || |hops| >= cap);
    if i > |hops| || d <= DepthAt(hops, i) {
      WalkFound(neigh, start, hops, i, maxDepth, x, d);
      SeenAt(start, hops, x);
    } else {
      forall h | h in hops ensures h.depth <= d {
        var k :| 0 <= k < |hops| && hops[k] == h;
        assert DepthAt(hops, k + 1) <= DepthAt(hops, i) + 1;
      }
    }
  }

  /** Hops come nearest first, none twice, the start never, none past the depth. */
  lemma HopsOrdered(neigh: Neighbors, start: Node, hops: seq<Hop>, maxDepth: nat, cap: nat, a: nat, b: nat)
    requires Ended(neigh, start, hops, maxDepth, cap) && a < b < |hops|
    ensures hops[a].depth <= hops[b].depth <= maxDepth
    ensures hops[a].name != hops[b].name && hops[a].name != start && hops[b].name != start
  {
    var i: nat :| Good(neigh, start, hops, i, maxDepth) && (i > |hops| || |hops| >= cap);
    assert DepthAt(hops, a + 1) <= DepthAt(hops, b + 1) <= maxDepth;
    assert NodeAt(start, hops, a + 1) != NodeAt(start, hops, b + 1);
    assert NodeAt(start, hops, 0) != NodeAt(start, hops, a + 1);
    assert NodeAt(start, hops, 0) != NodeAt(start, hops, b + 1);
  }

  // ----- one order, whatever the cap

  lemma {:induction false} ScanCap(start: Node, hops: seq<Hop>, edges: seq<Edge>, depth: nat, small: nat, large: nat)
    requires |hops| <= small <= large
    ensures var s, l := Scan(start, hops, edges, depth, small), Scan(start, hops, edges, depth, large);
      && |s| <= |l| && l[..|s|] == s && (|s| < small ==> s == l)
    decreases |edges|
  {
    if edges == [] {
    } else if |hops| >= small {
      assert Scan(start, hops, edges, depth, large)[..|hops|] == hops;
    } else {
      var e := edges[0];
      ScanCap(start, if Seen(start, hops, e.name) then hops else hops + [Hop(e.name, e.kind, e.strength, depth + 1)],
              edges[1..], depth, small, large);
    }
  }

  lemma {:induction false} SearchGrows(neigh: Neighbors, start: Node, hops: seq<Hop>, i: nat, maxDepth: nat, cap: nat)
    requires |hops| <= cap && Search(neigh, start, hops, i, maxDepth, cap).Some?
    ensures var r := Search(neigh, start, hops, i, maxDepth, cap).value;
      |hops| <= |r| <= cap && r[..|hops|] == hops
    decreases cap + 1 - i
  {
    hide Scan;
    if i > |hops| || |hops| >= cap {
    } else if DepthAt(hops, i) >= maxDepth {
      SearchGrows(neigh, start, hops, i + 1, maxDepth, cap);
    } else {
      var r := Scan(start, hops, neigh(NodeAt(start, hops, i)).value, DepthAt(hops, i), cap);
      SearchGrows(neigh, start, r, i + 1, maxDepth, cap);
      var all := Search(neigh, start, r, i + 1, maxDepth, cap).value;
      assert all[..|hops|] == all[..|r|][..|hops|];
    }
  }

  /** A smaller cap gives a prefix of what a larger one gives, all of it when it does not bind. */
  lemma {:induction false} SearchCap(neigh: Neighbors, start: Node, hops: seq<Hop>, i: nat, maxDepth: nat, small: nat, large: nat)
    requires |hops| <= small <= large && Search(neigh, start, hops, i, maxDepth, large).Some?
    ensures Search(neigh, start, hops, i, maxDepth, small).Some?
    ensures var s, l := Search(neigh, start, hops, i, maxDepth, small).value, Search(neigh, start, hops, i, maxDepth, large).value;
      && |s| <= |l| && l[..|s|] == s && (|s| < small ==> s == l)
    decreases small + 1 - i
  {
    hide Scan;
    if i > |hops| || |hops| >= small {
      SearchGrows(neigh, start, hops, i, maxDepth, large);
    } else if DepthAt(hops, i) >= maxDepth {
      SearchCap(neigh, start, hops, i + 1, maxDepth, small, large);
    } else {
      var edges := neigh(NodeAt(start, hops, i)).value;
      ScanCap(start, hops, edges, DepthAt(hops, i), small, large);
      var s := Scan(start, hops, edges, DepthAt(hops, i), small);
      var l := Scan(start, hops, edges, DepthAt(hops, i), large);
      if |s| < small {
        SearchCap(neigh, start, s, i + 1, maxDepth, small, large);
      } else {
        SearchGrows(neigh, start, l, i + 1, maxDepth, large);
        var all := Search(neigh, start, l, i + 1, maxDepth, large).value;
        assert all[..|s|] == all[..|l|][..|s|];
      }
    }
  }

  lemma {:induction false} ScanFindsNone(start: Node, hops: seq<Hop>, edges: seq<Edge>, depth: nat, cap: nat)
    requires |hops| < cap
    ensures Scan(start, hops, edges, depth, cap) == hops <==> forall e :: e in edges ==> Seen(start, hops, e.name)
    decreases |edges|
  {
    hide Seen;
    if edges != [] {
      var e, rest := edges[0], edges[1..];
      if Seen(start, hops, e.name) {
        ScanFindsNone(start, hops, rest, depth, cap);
        assert forall f :: f in edges <==> f == e || f in rest;
      } else {
        assert e in edges;
      }
    }
  }

  /** A search that may keep one hop keeps none exactly when the start has no edge but to itself. */
  lemma OneHopAtMost(neigh: Neighbors, start: Node, hops: seq<Hop>, maxDepth: nat)
    requires maxDepth > 0 && Search(neigh, start, [], 0, maxDepth, 1) == Some(hops)
    ensures neigh(start).Some?
    ensures hops == [] <==> forall e :: e in neigh(start).value ==> e.name == start
  {
    hide Search, Scan;
    SearchStep(neigh, start, [], 0, maxDepth, 1);
    var edges := neigh(start).value;
    var found := Scan(start, [], edges, 0, 1);
    ScanFindsNone(start, [], edges, 0, 1);
    SearchDone(neigh, start, found, 1, maxDepth, 1);
  }

  // ----- breadth first, exactly

  lemma DepthsWithin(neigh: Neighbors, start: Node, hops: seq<Hop>, maxDepth: nat, cap: nat, h: Hop)
    requires Ended(neigh, start, hops, maxDepth, cap) && h in hops
    ensures h.depth <= maxDepth
  {
    var k :| 0 <= k < |hops| && hops[k] == h;
    assert DepthAt(hops, k + 1) == h.depth;
  }

  /** What the search returns is breadth-first, exactly. */
  lemma SearchIsBreadthFirst(neigh: Neighbors, start: Node, maxDepth: nat, cap: nat, hops: seq<Hop>)
    requires Search(neigh, start, [], 0, maxDepth, cap) == Some(hops)
    ensures forall h :: h in hops ==> h.depth <= maxDepth && Distance(neigh, start, h.name, h.depth)
    ensures forall x, d: nat :: HasWalk(neigh, start, x, d) && d <= maxDepth ==>
      Seen(start, hops, x) || (|hops| == cap && forall h :: h in hops ==> h.depth <= d)
    ensures forall a, b :: 0 <= a < b < |hops| ==> hops[a].depth <= hops[b].depth && hops[a].name != hops[b].name
  {
    StartGood(neigh, start, maxDepth);
    SearchEnds(neigh, start, [], 0, maxDepth, cap);
    forall h | h in hops ensures h.depth <= maxDepth && Distance(neigh, start, h.name, h.depth) {
      DepthsExact(neigh, start, hops, maxDepth, cap, h);
      DepthsWithin(neigh, start, hops, maxDepth, cap, h);
    }
    hide Ended, HasWalk, Seen;
    forall x, d: nat | HasWalk(neigh, start, x, d) && d <= maxDepth
      ensures Seen(start, hops, x) || (|hops| == cap && forall h :: h in hops ==> h.depth <= d)
    {
      SearchGrows(neigh, start, [], 0, maxDepth, cap);
      NoneNearerLeftOut(neigh, start, hops, maxDepth, cap, x, d);
    }
    forall a, b | 0 <= a < b < |hops| ensures hops[a].depth <= hops[b].depth && hops[a].name != hops[b].name {
      HopsOrdered(neigh, start, hops, maxDepth, cap, a, b);
    }
  }

  // ----- the order of discovery

  /** Hop k is the b-th edge of the a-th node, its target new, and every edge before that one, of
      this node and of all the nodes before it, leads to a node already found. */
  ghost predicate MetAt(neigh: Neighbors, start: Node, hops: seq<Hop>, k: nat, a: nat, b: nat) {
    && k < |hops| && a <= k
    && neigh(NodeAt(start, hops, a)).Some?
    && var edges := neigh(NodeAt(start, hops, a)).value;
    && b < |edges|
    && hops[k] == Hop(edges[b].name, edges[b].kind, edges[b].strength, DepthAt(hops, a) + 1)
    && !Seen(start, hops[..k], edges[b].name)
    && (forall j :: 0 <= j < b ==> Seen(start, hops[..k], edges[j].name))
    && AllMet(neigh, start, hops, a, hops[..k])
  }

  /** Every edge of the first a nodes leads to a node of `found`. */
  ghost predicate AllMet(neigh: Neighbors, start: Node, hops: seq<Hop>, a: nat, found: seq<Hop>) {
    a <= |hops| + 1 && forall c :: 0 <= c < a ==> Met(neigh, start, NodeAt(start, hops, c), found)
  }

  ghost predicate Met(neigh: Neighbors, start: Node, x: Node, found: seq<Hop>) {
    neigh(x).Some? && forall e :: e in neigh(x).value ==> Seen(start, found, e.name)
  }

  ghost predicate InOrder(neigh: Neighbors, start: Node, hops: seq<Hop>) {
    forall k: nat :: k < |hops| ==> Discovered(neigh, start, hops, k)
  }

  ghost predicate Discovered(neigh: Neighbors, start: Node, hops: seq<Hop>, k: nat) {
    exists a: nat, b: nat :: MetAt(neigh, start, hops, k, a, b)
  }

  lemma MetStays(neigh: Neighbors, start: Node, hops: seq<Hop>, more: seq<Hop>, a: nat, found: seq<Hop>, all: seq<Hop>)
    requires |hops| <= |more| && more[..|hops|] == hops && a <= |hops| + 1 && AllMet(neigh, start, hops, a, found)
    requires |found| <= |all| && all[..|found|] == found
    ensures AllMet(neigh, start, more, a, all)
  {
    forall c | 0 <= c < a ensures Met(neigh, start, NodeAt(start, more, c), all) {
      PrefixAt(start, hops, more, c);
      forall e | e in neigh(NodeAt(start, hops, c)).value ensures Seen(start, all, e.name) {
        SeenStays(start, found, all, e.name);
      }
    }
  }

  lemma MetAtStays(neigh: Neighbors, start: Node, hops: seq<Hop>, h: Hop, k: nat, a: nat, b: nat)
    requires MetAt(neigh, start, hops, k, a, b)
    ensures MetAt(neigh, start, hops + [h], k, a, b)
  {
    hide Seen, Met;
    PrefixAt(start, hops, hops + [h], a);
    assert (hops + [h])[..k] == hops[..k];
    forall c | 0 <= c < a ensures Met(neigh, start, NodeAt(start, hops + [h], c), hops[..k]) {
      PrefixAt(start, hops, hops + [h], c);
    }
  }

  lemma InOrderNext(neigh: Neighbors, start: Node, hops: seq<Hop>, i: nat, n: nat, h: Hop)
    requires InOrder(neigh, start, hops) && i <= |hops| && AllMet(neigh, start, hops, i, hops)
    requires neigh(NodeAt(start, hops, i)).Some? && n < |neigh(NodeAt(start, hops, i)).value|
    requires forall j :: 0 <= j < n ==> Seen(start, hops, neigh(NodeAt(start, hops, i)).value[j].name)
    requires var e := neigh(NodeAt(start, hops, i)).value[n];
      h == Hop(e.name, e.kind, e.strength, DepthAt(hops, i) + 1) && !Seen(start, hops, e.name)
    ensures InOrder(neigh, start, hops + [h])
  {
    hide Seen, Met;
    var more := hops + [h];
    PrefixAt(start, hops, more, i);
    assert more[..|hops|] == hops;
    forall c | 0 <= c < i ensures Met(neigh, start, NodeAt(start, more, c), hops) {
      PrefixAt(start, hops, more, c);
    }
    assert MetAt(neigh, start, more, |hops|, i, n);
    forall k: nat | k < |more| ensures Discovered(neigh, start, more, k) {
      if k < |hops| {
        assert Discovered(neigh, start, hops, k);
        var a: nat, b: nat :| MetAt(neigh, start, hops, k, a, b);
        MetAtStays(neigh, start, hops, h, k, a, b);
      }
    }
  }

  lemma {:induction false} ScanInOrder(neigh: Neighbors, start: Node, hops: seq<Hop>, i: nat, n: nat, cap: nat)
    requires InOrder(neigh, start, hops) && i <= |hops| && AllMet(neigh, start, hops, i, hops)
    requires neigh(NodeAt(start, hops, i)).Some? && n <= |neigh(NodeAt(start, hops, i)).value|
    requires forall j :: 0 <= j < n ==> Seen(start, hops, neigh(NodeAt(start, hops, i)).value[j].name)
    ensures InOrder(neigh, start, Scan(start, hops, neigh(NodeAt(start, hops, i)).value[n..], DepthAt(hops, i), cap))
    decreases |neigh(NodeAt(start, hops, i)).value| - n
  {
    hide InOrder, AllMet, Scan, Seen;
    var edges, depth := neigh(NodeAt(start, hops, i)).value, DepthAt(hops, i);
    if n == |edges| || |hops| >= cap {
      ScanDone(start, hops, edges[n..], depth, cap);
    } else {
      ScanStep(start, hops, edges, n, depth, cap);
      if Seen(start, hops, edges[n].name) {
        ScanInOrder(neigh, start, hops, i, n + 1, cap);
      } else {
        var h := Hop(edges[n].name, edges[n].kind, edges[n].strength, depth + 1);
        var more := hops + [h];
        InOrderNext(neigh, start, hops, i, n, h);
        PrefixAt(start, hops, more, i);
        assert more[..|hops|] == hops;
        MetStays(neigh, start, hops, more, i, hops, more);
        SeenLast(start, hops, h);
        forall j | 0 <= j < n ensures Seen(start, more, edges[j].name) {
          SeenStays(start, hops, more, edges[j].name);
        }
        ScanInOrder(neigh, start, more, i, n + 1, cap);
      }
    }
  }

  lemma MetNext(neigh: Neighbors, start: Node, hops: seq<Hop>, i: nat)
    requires AllMet(neigh, start, hops, i, hops) && i <= |hops| && Met(neigh, start, NodeAt(start, hops, i), hops)
    ensures AllMet(neigh, start, hops, i + 1, hops)
  {
    hide Met;
  }

  lemma {:induction false} SearchInOrder(neigh: Neighbors, start: Node, hops: seq<Hop>, i: nat, maxDepth: nat, cap: nat)
    requires |hops| <= cap && Good(neigh, start, hops, i, maxDepth) && InOrder(neigh, start, hops)
    requires i <= |hops| && DepthAt(hops, i) < maxDepth ==> AllMet(neigh, start, hops, i, hops)
    requires Search(neigh, start, hops, i, maxDepth, cap).Some?
    ensures InOrder(neigh, start, Search(neigh, start, hops, i, maxDepth, cap).value)
    decreases cap + 1 - i
  {
    hide InOrder, AllMet, HasWalk, Scan, Seen, Search, Good, Met;
    if i > |hops| || |hops| >= cap {
      SearchDone(neigh, start, hops, i, maxDepth, cap);
    } else {
      SearchStep(neigh, start, hops, i, maxDepth, cap);
      if DepthAt(hops, i) >= maxDepth {
        if i < |hops| {
          NextIsDeeper(neigh, start, hops, i, maxDepth);
        }
        ExpandNext(neigh, start, hops, i, maxDepth);
        SearchInOrder(neigh, start, hops, i + 1, maxDepth, cap);
      } else {
        var edges := neigh(NodeAt(start, hops, i)).value;
        var r := Scan(start, hops, edges, DepthAt(hops, i), cap);
        ScanGrows(start, hops, edges, DepthAt(hops, i), cap);
        EdgesAre(neigh, NodeAt(start, hops, i));
        ScanGood(neigh, start, hops, i, maxDepth, edges, cap);
        PrefixAt(start, hops, r, i);
        assert edges[0..] == edges;
        ScanInOrder(neigh, start, hops, i, 0, cap);
        if |r| < cap {
          ScanSees(start, hops, edges, DepthAt(hops, i), cap);
          MetStays(neigh, start, hops, r, i, hops, r);
          MetIs(neigh, start, NodeAt(start, r, i), r);
          MetNext(neigh, start, r, i);
          ExpandNext(neigh, start, r, i, maxDepth);
          SearchInOrder(neigh, start, r, i + 1, maxDepth, cap);
        } else {
          SearchDone(neigh, start, r, i + 1, maxDepth, cap);
        }
      }
    }
  }

  lemma ScanGrows(start: Node, hops: seq<Hop>, edges: seq<Edge>, depth: nat, cap: nat)
    requires |hops| <= cap
    ensures var r := Scan(start, hops, edges, depth, cap); |hops| <= |r| <= cap && r[..|hops|] == hops
  {
    hide Scan;
  }

  lemma EdgesAre(neigh: Neighbors, x: Node)
    requires neigh(x).Some?
    ensures forall e :: e in neigh(x).value ==> HasEdge(neigh, x, e.name)
    ensures forall y :: HasEdge(neigh, x, y) ==> exists e :: e in neigh(x).value && e.name == y
  {
  }

  lemma MetIs(neigh: Neighbors, start: Node, x: Node, found: seq<Hop>)
    requires neigh(x).Some? && forall e :: e in neigh(x).value ==> Seen(start, found, e.name)
    ensures Met(neigh, start, x, found)
  {
  }

  /** Past a node too deep to expand there are only such. */
  lemma NextIsDeeper(neigh: Neighbors, start: Node, hops: seq<Hop>, i: nat, maxDepth: nat)
    requires Good(neigh, start, hops, i, maxDepth) && i < |hops| && DepthAt(hops, i) >= maxDepth
    ensures DepthAt(hops, i + 1) >= maxDepth
  {
    hide HasWalk;
  }

  /** Each hop is the first edge, in the order of the nodes found and of what the query returned for
      each, that leads to a node not found yet. */
  lemma OrderOfDiscovery(neigh: Neighbors, start: Node, maxDepth: nat, cap: nat, hops: seq<Hop>)
    requires Search(neigh, start, [], 0, maxDepth, cap) == Some(hops)
    ensures InOrder(neigh, start, hops)
  {
    StartGood(neigh, start, maxDepth);
    SearchInOrder(neigh, start, [], 0, maxDepth, cap);
  }

  // ----- failing queries

  /** Nothing found and expanded had a query that fails. */
  ghost predicate Answered(neigh: Neighbors, start: Node, hops: seq<Hop>, i: nat, maxDepth: nat) {
    forall c :: 0 <= c < i && c <= |hops| && DepthAt(hops, c) < maxDepth ==> neigh(NodeAt(start, hops, c)).Some?
  }

  lemma AnsweredStays(neigh: Neighbors, start: Node, hops: seq<Hop>, more: seq<Hop>, i: nat, maxDepth: nat)
    requires Answered(neigh, start, hops, i, maxDepth) && i <= |hops| + 1 <= |more| + 1 && more[..|hops|] == hops
    ensures Answered(neigh, start, more, i, maxDepth)
  {
    forall c | 0 <= c < i && DepthAt(more, c) < maxDepth ensures neigh(NodeAt(start, more, c)).Some? {
      PrefixAt(start, hops, more, c);
    }
  }

  lemma {:induction false} SearchAnswered(neigh: Neighbors, start: Node, hops: seq<Hop>, i: nat, maxDepth: nat, cap: nat)
    requires |hops| <= cap && i <= |hops| + 1 && Answered(neigh, start, hops, i, maxDepth)
    requires Search(neigh, start, hops, i, maxDepth, cap).Some?
    ensures var r := Search(neigh, start, hops, i, maxDepth, cap).value;
      |r| < cap ==> Answered(neigh, start, r, |r| + 1, maxDepth)
    decreases cap + 1 - i
  {
    hide Search, Scan;
    if i > |hops| || |hops| >= cap {
      SearchDone(neigh, start, hops, i, maxDepth, cap);
    } else {
      SearchStep(neigh, start, hops, i, maxDepth, cap);
      if DepthAt(hops, i) >= maxDepth {
        SearchAnswered(neigh, start, hops, i + 1, maxDepth, cap);
      } else {
        var edges := neigh(NodeAt(start, hops, i)).value;
        var r := Scan(start, hops, edges, DepthAt(hops, i), cap);
        ScanGrows(start, hops, edges, DepthAt(hops, i), cap);
        AnsweredStays(neigh, start, hops, r, i, maxDepth);
        PrefixAt(start, hops, r, i);
        SearchAnswered(neigh, start, r, i + 1, maxDepth, cap);
      }
    }
  }

  /** A search fails on a node it has reached and would expand. */
  lemma {:induction false} SearchFails(neigh: Neighbors, start: Node, hops: seq<Hop>, i: nat, maxDepth: nat, cap: nat)
      returns (x: Node, d: nat)
    requires |hops| <= cap && Good(neigh, start, hops, i, maxDepth) && Search(neigh, start, hops, i, maxDepth, cap).None?
    ensures HasWalk(neigh, start, x, d) && d < maxDepth && neigh(x).None?
    decreases cap + 1 - i
  {
    hide Search, Scan, Good, HasWalk;
    if i > |hops| || |hops| >= cap {
      SearchDone(neigh, start, hops, i, maxDepth, cap);
      assert false;
    } else {
      SearchStep(neigh, start, hops, i, maxDepth, cap);
      if DepthAt(hops, i) >= maxDepth {
        ExpandNext(neigh, start, hops, i, maxDepth);
        x, d := SearchFails(neigh, start, hops, i + 1, maxDepth, cap);
      } else if neigh(NodeAt(start, hops, i)).None? {
        WalkTo(neigh, start, hops, i, maxDepth);
        x, d := NodeAt(start, hops, i), DepthAt(hops, i);
      } else {
        var edges := neigh(NodeAt(start, hops, i)).value;
        var r := Scan(start, hops, edges, DepthAt(hops, i), cap);
        ScanGrows(start, hops, edges, DepthAt(hops, i), cap);
        EdgesAre(neigh, NodeAt(start, hops, i));
        ScanGood(neigh, start, hops, i, maxDepth, edges, cap);
        PrefixAt(start, hops, r, i);
        if |r| >= cap {
          SearchDone(neigh, start, r, i + 1, maxDepth, cap);
          assert false;
        } else {
          ScanSees(start, hops, edges, DepthAt(hops, i), cap);
          ExpandNext(neigh, start, r, i, maxDepth);
          x, d := SearchFails(neigh, start, r, i + 1, maxDepth, cap);
        }
      }
    }
  }

  lemma WalkTo(neigh: Neighbors, start: Node, hops: seq<Hop>, i: nat, maxDepth: nat)
    requires Good(neigh, start, hops, i, maxDepth) && i <= |hops|
    ensures HasWalk(neigh, start, NodeAt(start, hops, i), DepthAt(hops, i))
  {
    hide HasWalk;
  }

  /** Unless the cap cut in, every node the search was to expand answered. */
  lemma ReachedAnswered(neigh: Neighbors, start: Node, maxDepth: nat, cap: nat, hops: seq<Hop>, x: Node, d: nat)
    requires Search(neigh, start, [], 0, maxDepth, cap) == Some(hops) && |hops| < cap
    requires HasWalk(neigh, start, x, d) && d < maxDepth
    ensures neigh(x).Some?
  {
    SearchAnswered(neigh, start, [], 0, maxDepth, cap);
    StartGood(neigh, start, maxDepth);
    SearchEnds(neigh, start, [], 0, maxDepth, cap);
    var i: nat :| Good(neigh, start, hops, i, maxDepth) && (i > |hops| || |hops| >= cap);
    WalkFound(neigh, start, hops, i, maxDepth, x, d);
  }

  // ----- the whole of it, for a depth as asked

  /** A node within the depth asked for, short of its last layer, whose query fails. */
  ghost predicate FailsWithin(neigh: Neighbors, start: Node, maxDepth: int) {
    exists x, d: nat :: HasWalk(neigh, start, x, d) && d < 5 && (d < maxDepth || d == 0) && neigh(x).None?
  }

  /** What a walk asked for `maxDepth` returns: exact distances, at most 5 and at most what was asked,
      or 1; everything as near as that, or what is nearest when `cap` cuts in; in the order of
      discovery. */
  ghost predicate BreadthFirstTo(neigh: Neighbors, start: Node, maxDepth: int, cap: nat, hops: seq<Hop>) {
    && |hops| <= cap
    && (forall h :: h in hops ==> h.depth <= 5 && (h.depth <= maxDepth || h.depth == 1) && Distance(neigh, start, h.name, h.depth))
    && (forall x, d: nat :: HasWalk(neigh, start, x, d) && d <= 5 && (d <= maxDepth || d == 1) ==>
          Seen(start, hops, x) || (|hops| == cap && forall h :: h in hops ==> h.depth <= d))
    && InOrder(neigh, start, hops)
    && (|hops| < cap ==> !FailsWithin(neigh, start, maxDepth))
  }

  lemma ClampedFails(neigh: Neighbors, start: Node, maxDepth: int, cap: nat)
    requires Search(neigh, start, [], 0, ClampDepth(maxDepth), cap).None?
    ensures FailsWithin(neigh, start, maxDepth)
  {
    StartGood(neigh, start, ClampDepth(maxDepth));
    var x, d := SearchFails(neigh, start, [], 0, ClampDepth(maxDepth), cap);
    hide HasWalk, Search;
  }

  lemma ClampedSearch(neigh: Neighbors, start: Node, maxDepth: int, cap: nat, hops: seq<Hop>)
    requires Search(neigh, start, [], 0, ClampDepth(maxDepth), cap) == Some(hops)
    ensures BreadthFirstTo(neigh, start, maxDepth, cap, hops)
  {
    SearchGrows(neigh, start, [], 0, ClampDepth(maxDepth), cap);
    SearchIsBreadthFirst(neigh, start, ClampDepth(maxDepth), cap, hops);
    OrderOfDiscovery(neigh, start, ClampDepth(maxDepth), cap, hops);
    hide Search, HasWalk, InOrder, Seen, Distance;
    forall h | h in hops ensures h.depth <= 5 && (h.depth <= maxDepth || h.depth == 1) {
      DepthPositive(neigh, start, maxDepth, cap, hops, h);
    }
    if |hops| < cap {
      forall x, d: nat | HasWalk(neigh, start, x, d) && d < 5 && (d < maxDepth || d == 0) ensures neigh(x).Some? {
        ReachedAnswered(neigh, start, ClampDepth(maxDepth), cap, hops, x, d);
      }
    }
  }

  lemma DepthPositive(neigh: Neighbors, start: Node, maxDepth: int, cap: nat, hops: seq<Hop>, h: Hop)
    requires InOrder(neigh, start, hops) && h in hops
    ensures h.depth > 0
  {
    var k :| 0 <= k < |hops| && hops[k] == h;
    assert Discovered(neigh, start, hops, k);
    var a: nat, b: nat :| MetAt(neigh, start, hops, k, a, b);
    hide Seen, AllMet;
  }
}
