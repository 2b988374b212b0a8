/** The two breadth-first walks over the graph engine: a queue with a cap on the hops, and layers
    with a limit. */
module GraphWalk {
  import opened Wrappers
  import opened GraphSearch

  // ----- the queue walk

  datatype RelPath = RelPath(nodes: seq<Node>, relations: seq<string>, strengths: seq<real>)

  datatype Frontier = Frontier(node: Node, depth: nat, path: RelPath)

  /** A path from start to x along edges the query returned, never through one node twice. */
  ghost predicate IsTrail(neigh: Neighbors, start: Node, p: RelPath, x: Node) {
    && |p.nodes| == |p.relations| + 1 == |p.strengths| + 1
    && p.nodes[0] == start && p.nodes[|p.nodes|-1] == x
    && (forall j :: 0 <= j < |p.relations| ==>
          neigh(p.nodes[j]).Some? && Edge(p.nodes[j+1], p.relations[j], p.strengths[j]) in neigh(p.nodes[j]).value)
    && (forall j, k :: 0 <= j < k < |p.nodes| ==> p.nodes[j] != p.nodes[k])
  }

  /** The trail recorded with a hop is as long as the hop is deep, and its last edge is the hop's. */
  ghost predicate TrailOf(neigh: Neighbors, start: Node, p: RelPath, h: Hop) {
    && IsTrail(neigh, start, p, h.name) && |p.relations| == h.depth > 0
    && p.relations[h.depth - 1] == h.relation && p.strengths[h.depth - 1] == h.strength
  }

  function FrontierAt(start: Node, hops: seq<Hop>, paths: seq<RelPath>, i: nat): Frontier
    requires i <= |hops| == |paths|
  {
    Frontier(NodeAt(start, hops, i), DepthAt(hops, i), if i == 0 then RelPath([start], [], []) else paths[i-1])
  }

  /** The queue is what has been found and not yet taken off it, the set is everything found, and
      every hop has its trail. */
  ghost predicate Queued(neigh: Neighbors, start: Node, hops: seq<Hop>, paths: seq<RelPath>, q: seq<Frontier>,
                         i: nat, seen: set<Node>) {
    && |paths| == |hops| && i <= |hops| + 1 && |q| == |hops| + 1 - i
    && (forall k :: 0 <= k < |q| ==> q[k] == FrontierAt(start, hops, paths, i + k))
    && (forall x :: x in seen <==> Seen(start, hops, x))
    && (forall k :: 0 <= k < |hops| ==> TrailOf(neigh, start, paths[k], hops[k]))
    && (forall k, x :: 0 <= k < |hops| && x in paths[k].nodes ==> Seen(start, hops, x))
  }

  function Extended(p: RelPath, e: Edge): RelPath {
    RelPath(p.nodes + [e.name], p.relations + [e.kind], p.strengths + [e.strength])
  }

  lemma TrailExtends(neigh: Neighbors, start: Node, p: RelPath, x: Node, e: Edge)
    requires IsTrail(neigh, start, p, x) && neigh(x).Some? && e in neigh(x).value && e.name !in p.nodes
    ensures IsTrail(neigh, start, Extended(p, e), e.name)
  {
    var r := Extended(p, e);
    forall j | 0 <= j < |r.relations|
      ensures neigh(r.nodes[j]).Some? && Edge(r.nodes[j+1], r.relations[j], r.strengths[j]) in neigh(r.nodes[j]).value
    {
      assert j == |p.relations| ==> r.nodes[j] == x;
    }
  }

  lemma FrontierTrail(neigh: Neighbors, start: Node, hops: seq<Hop>, paths: seq<RelPath>, q: seq<Frontier>,
                      i: nat, seen: set<Node>, a: nat)
    requires Queued(neigh, start, hops, paths, q, i, seen) && a <= |hops|
    ensures var f := FrontierAt(start, hops, paths, a);
      && IsTrail(neigh, start, f.path, f.node) && |f.path.relations| == f.depth
      && forall x :: x in f.path.nodes ==> x in seen
  {
    if a > 0 {
      assert TrailOf(neigh, start, paths[a-1], hops[a-1]);
    }
  }

  lemma SeenNext(start: Node, hops: seq<Hop>, h: Hop, x: Node)
    ensures Seen(start, hops + [h], x) <==> Seen(start, hops, x) || x == h.name
  {
    assert forall g :: g in hops + [h] <==> g in hops || g == h;
  }

  lemma QueuedNext(neigh: Neighbors, start: Node, hops: seq<Hop>, paths: seq<RelPath>, q: seq<Frontier>,
                   i: nat, seen: set<Node>, a: nat, e: Edge)
    requires Queued(neigh, start, hops, paths, q, i, seen) && a <= |hops| && e.name !in seen
    requires neigh(NodeAt(start, hops, a)).Some? && e in neigh(NodeAt(start, hops, a)).value
    ensures var f := FrontierAt(start, hops, paths, a);
      var p := Extended(f.path, e);
      Queued(neigh, start, hops + [Hop(e.name, e.kind, e.strength, f.depth + 1)], paths + [p],
             q + [Frontier(e.name, f.depth + 1, p)], i, seen + {e.name})
  {
    var f := FrontierAt(start, hops, paths, a);
    var h, p := Hop(e.name, e.kind, e.strength, f.depth + 1), Extended(f.path, e);
    FrontierTrail(neigh, start, hops, paths, q, i, seen, a);
    TrailExtends(neigh, start, f.path, f.node, e);
    hide IsTrail, HasEdge;
    assert TrailOf(neigh, start, p, h);
    forall x ensures Seen(start, hops + [h], x) <==> Seen(start, hops, x) || x == h.name {
      SeenNext(start, hops, h, x);
    }
    hide Seen;
    SameBefore(start, hops, h);
  }

  /** Puts the unseen neighbours of the node just taken off the queue on it. */
  method Enqueue(neigh: Neighbors, start: Node, hops0: seq<Hop>, paths0: seq<RelPath>, q0: seq<Frontier>,
                 ghost i: nat, seen0: set<Node>, f: Frontier, edges: seq<Edge>)
      returns (hops: seq<Hop>, paths: seq<RelPath>, q: seq<Frontier>, seen: set<Node>)
    requires 0 < i <= |hops0| + 1 && |hops0| < MAX_HOPS && Queued(neigh, start, hops0, paths0, q0, i, seen0)
    requires f == FrontierAt(start, hops0, paths0, i - 1) && neigh(f.node) == Some(edges)
    ensures hops == Scan(start, hops0, edges, f.depth, MAX_HOPS) && Queued(neigh, start, hops, paths, q, i, seen)
  {
    hide Queued, Seen, Scan;
    hops, paths, q, seen := hops0, paths0, q0, seen0;
    QueuedSeen(neigh, start, hops, paths, q, i, seen, start);
    for n := 0 to |edges|
      invariant i <= |hops| + 1 && |paths| == |hops| < MAX_HOPS && f == FrontierAt(start, hops, paths, i - 1)
      invariant Queued(neigh, start, hops, paths, q, i, seen)
      invariant Scan(start, hops0, edges, f.depth, MAX_HOPS) == Scan(start, hops, edges[n..], f.depth, MAX_HOPS)
    {
      var e := edges[n];
      ScanStep(start, hops, edges, n, f.depth, MAX_HOPS);
      QueuedSeen(neigh, start, hops, paths, q, i, seen, e.name);
      if e.name in seen {
        continue;
      }
      QueuedNext(neigh, start, hops, paths, q, i, seen, i - 1, e);
      seen := seen + {e.name};
      var path := Extended(f.path, e);
      hops := hops + [Hop(e.name, e.kind, e.strength, f.depth + 1)];
      paths := paths + [path];
      q := q + [Frontier(e.name, f.depth + 1, path)];
      if |hops| >= MAX_HOPS {
        ScanDone(start, hops, edges[n + 1..], f.depth, MAX_HOPS);
        return;
      }
    }
    ScanDone(start, hops, edges[|edges|..], f.depth, MAX_HOPS);
  }

  lemma QueuedSeen(neigh: Neighbors, start: Node, hops: seq<Hop>, paths: seq<RelPath>, q: seq<Frontier>,
                   i: nat, seen: set<Node>, x: Node)
    requires Queued(neigh, start, hops, paths, q, i, seen)
    ensures |paths| == |hops| && (x in seen <==> Seen(start, hops, x))
  {
  }

  lemma QueuedPop(neigh: Neighbors, start: Node, hops: seq<Hop>, paths: seq<RelPath>, q: seq<Frontier>,
                  i: nat, seen: set<Node>)
    requires Queued(neigh, start, hops, paths, q, i, seen) && q != []
    ensures |paths| == |hops| && i <= |hops| && q[0] == FrontierAt(start, hops, paths, i)
    ensures Queued(neigh, start, hops, paths, q[1..], i + 1, seen)
  {
    assert q[0] == FrontierAt(start, hops, paths, i + 0);
  }

  lemma QueuedTrails(neigh: Neighbors, start: Node, hops: seq<Hop>, paths: seq<RelPath>, q: seq<Frontier>,
                     i: nat, seen: set<Node>)
    requires Queued(neigh, start, hops, paths, q, i, seen)
    ensures |paths| == |hops| && |q| == |hops| + 1 - i
    ensures forall k :: 0 <= k < |hops| ==> TrailOf(neigh, start, paths[k], hops[k])
  {
  }

  lemma QueuedStart(neigh: Neighbors, start: Node)
    ensures Queued(neigh, start, [], [], [Frontier(start, 0, RelPath([start], [], []))], 0, {start})
  {
  }

  /** The hops are those of the reference search, each with a simple trail of its own length. */
  method WalkFalkor(neigh: Neighbors, start: Node, maxDepth: int) returns (r: Option<(seq<Hop>, seq<RelPath>)>)
    ensures r.None? <==> Search(neigh, start, [], 0, ClampDepth(maxDepth), MAX_HOPS).None?
    ensures r.Some? ==> var (hops, paths) := r.value;
      && Search(neigh, start, [], 0, ClampDepth(maxDepth), MAX_HOPS) == Some(hops)
      && |paths| == |hops| && forall k :: 0 <= k < |hops| ==> TrailOf(neigh, start, paths[k], hops[k])
    ensures r.Some? ==> BreadthFirstTo(neigh, start, maxDepth, 50, r.value.0)
    ensures r.None? ==> FailsWithin(neigh, start, maxDepth)
  {
    hide Queued, TrailOf, Scan, Search, Seen, BreadthFirstTo, FailsWithin;
    var depthLimit := ClampDepth(maxDepth);
    var hops, paths, seen := [], [], {start};
    var q := [Frontier(start, 0, RelPath([start], [], []))];
    ghost var i := 0;
    QueuedStart(neigh, start);
    while q != []
      invariant |hops| < MAX_HOPS && Queued(neigh, start, hops, paths, q, i, seen)
      invariant Search(neigh, start, [], 0, depthLimit, MAX_HOPS) == Search(neigh, start, hops, i, depthLimit, MAX_HOPS)
      decreases MAX_HOPS + 1 - i
    {
      QueuedPop(neigh, start, hops, paths, q, i, seen);
      SearchStep(neigh, start, hops, i, depthLimit, MAX_HOPS);
      var f := q[0];
      q, i := q[1..], i + 1;
      if f.depth >= depthLimit {
        continue;
      }
      var edges := neigh(f.node);
      if edges.None? {
        ClampedFails(neigh, start, maxDepth, MAX_HOPS);
        return None;
      }
      hops, paths, q, seen := Enqueue(neigh, start, hops, paths, q, i, seen, f, edges.value);
      if |hops| >= MAX_HOPS {
        break;
      }
    }
    QueuedTrails(neigh, start, hops, paths, q, i, seen);
    SearchDone(neigh, start, hops, i, depthLimit, MAX_HOPS);
    ClampedSearch(neigh, start, maxDepth, MAX_HOPS, hops);
    r := Some((hops, paths));
  }

  // ----- the layer walk

  const KINDS: set<string> := {"causes", "related_to", "depends_on"}

  function Kept(edges: seq<Edge>): seq<Edge> {
    if edges == [] then []
    else (if edges[0].kind in KINDS then [edges[0]] else []) + Kept(edges[1..])
  }

  lemma KeptNext(edges: seq<Edge>, n: nat)
    requires n < |edges|
    ensures if edges[n].kind in KINDS
            then Kept(edges[n..]) != [] && Kept(edges[n..])[0] == edges[n] && Kept(edges[n..])[1..] == Kept(edges[n+1..])
            else Kept(edges[n..]) == Kept(edges[n+1..])
  {
    assert edges[n..][1..] == edges[n+1..];
  }

  /** The neighbour query less the edges an explanation does not follow. */
  function Relevant(neigh: Neighbors): Neighbors {
    (x: Node) => match neigh(x) case None => None case Some(edges) => Some(Kept(edges))
  }

  /** An explanation follows the edges of three kinds. */
  lemma RelevantIs(neigh: Neighbors, x: Node)
    ensures Relevant(neigh)(x).Some? <==> neigh(x).Some?
    ensures neigh(x).Some? ==> forall e :: e in Relevant(neigh)(x).value <==>
      e in neigh(x).value && (e.kind == "causes" || e.kind == "related_to" || e.kind == "depends_on")
  {
    if neigh(x).Some? {
      KeptIs(neigh(x).value);
    }
  }

  lemma KeptHead(e: Edge, rest: seq<Edge>)
    ensures Kept([e] + rest) ==
      (if e.kind == "causes" || e.kind == "related_to" || e.kind == "depends_on" then [e] else []) + Kept(rest)
  {
    assert ([e] + rest)[1..] == rest;
  }

  /** Edges are kept one by one, in the order of the reply. */
  lemma {:induction false} KeptSplits(a: seq<Edge>, b: seq<Edge>)
    ensures Kept(a + b) == Kept(a) + Kept(b)
  {
    if a == [] {
      assert a + b == b;
    } else {
      var head, rest := a[0], a[1..];
      KeptSplits(rest, b);
      hide Kept;
      KeptHead(head, rest);
      KeptHead(head, rest + b);
      assert [head] + rest == a && [head] + (rest + b) == a + b;
    }
  }

  lemma {:induction false} KeptIs(edges: seq<Edge>)
    ensures forall e :: e in Kept(edges) <==>
      e in edges && (e.kind == "causes" || e.kind == "related_to" || e.kind == "depends_on")
  {
    if edges != [] {
      KeptIs(edges[1..]);
    }
  }

  function Names(hops: seq<Hop>): (r: seq<Node>)
    ensures |r| == |hops| && forall k :: 0 <= k < |r| ==> r[k] == hops[k].name
  {
    seq(|hops|, k requires 0 <= k < |hops| => hops[k].name)
  }

  /** The limit a run obeys: it is checked after a hop is kept, so 0 lets one through. */
  function Effective(limit: nat): nat {
    if limit == 0 then 1 else limit
  }

  /** What a layer has added so far: hops of its depth, their names in order, and the set of
      everything seen. */
  ghost predicate Grown(effect: Node, out0: seq<Hop>, next0: seq<Node>, out: seq<Hop>, seen: set<Node>, next: seq<Node>, depth: nat) {
    && |out0| <= |out| && out[..|out0|] == out0
    && next == next0 + Names(out[|out0|..])
    && (forall x :: x in seen <==> Seen(effect, out, x))
    && (forall h :: h in out[|out0|..] ==> h.depth == depth)
  }

  lemma GrownNext(effect: Node, out0: seq<Hop>, next0: seq<Node>, out: seq<Hop>, seen: set<Node>, next: seq<Node>, h: Hop)
    requires Grown(effect, out0, next0, out, seen, next, h.depth)
    ensures Grown(effect, out0, next0, out + [h], seen + {h.name}, next + [h.name], h.depth)
  {
    hide Names;
    SeenGrows(effect, out, h, seen);
    hide Seen;
    NamesNext(out, |out0|, h);
    assert next0 + (Names(out[|out0|..]) + [h.name]) == next + [h.name];
  }

  lemma GrownSeen(effect: Node, out0: seq<Hop>, next0: seq<Node>, out: seq<Hop>, seen: set<Node>, next: seq<Node>, depth: nat, x: Node)
    requires Grown(effect, out0, next0, out, seen, next, depth)
    ensures x in seen <==> Seen(effect, out, x)
  {
    hide Seen;
  }

  lemma NothingGrown(effect: Node, out: seq<Hop>, seen: set<Node>, next: seq<Node>, depth: nat)
    requires forall x :: x in seen <==> Seen(effect, out, x)
    ensures Grown(effect, out, next, out, seen, next, depth)
  {
    hide Seen;
    NamesNone(out);
    assert next + [] == next;
  }

  /** The neighbours of one node of a layer. */
  method ExplainNode(effect: Node, out0: seq<Hop>, seen0: set<Node>, next0: seq<Node>, edges: seq<Edge>, depth: nat, limit: nat)
      returns (out: seq<Hop>, seen: set<Node>, next: seq<Node>)
    requires depth > 0 && |out0| < Effective(limit) && forall x :: x in seen0 <==> Seen(effect, out0, x)
    ensures out == Scan(effect, out0, Kept(edges), depth - 1, Effective(limit))
    ensures Grown(effect, out0, next0, out, seen, next, depth)
  {
    hide Kept, Seen, Scan, Grown;
    out, seen, next := out0, seen0, next0;
    NothingGrown(effect, out, seen, next, depth);
    assert edges[0..] == edges;
    for n := 0 to |edges|
      invariant |out| < Effective(limit) && Grown(effect, out0, next0, out, seen, next, depth)
      invariant Scan(effect, out0, Kept(edges), depth - 1, Effective(limit)) ==
        Scan(effect, out, Kept(edges[n..]), depth - 1, Effective(limit))
    {
      var e := edges[n];
      KeptNext(edges, n);
      GrownSeen(effect, out0, next0, out, seen, next, depth, e.name);
      if e.kind in KINDS {
        ScanStep(effect, out, Kept(edges[n..]), 0, depth - 1, Effective(limit));
      }
      if e.kind !in KINDS || e.name in seen {
        continue;
      }
      GrownNext(effect, out0, next0, out, seen, next, Hop(e.name, e.kind, e.strength, depth));
      seen := seen + {e.name};
      out := out + [Hop(e.name, e.kind, e.strength, depth)];
      next := next + [e.name];
      if |out| >= limit {
        ScanDone(effect, out, Kept(edges[n + 1..]), depth - 1, Effective(limit));
        return;
      }
    }
    KeptNone(edges);
    ScanDone(effect, out, Kept(edges[|edges|..]), depth - 1, Effective(limit));
  }

  lemma SeenGrows(start: Node, hops: seq<Hop>, h: Hop, seen: set<Node>)
    requires forall x :: x in seen <==> Seen(start, hops, x)
    ensures forall x :: x in seen + {h.name} <==> Seen(start, hops + [h], x)
  {
    forall x ensures x in seen + {h.name} <==> Seen(start, hops + [h], x) {
      SeenNext(start, hops, h, x);
    }
  }

  lemma NamesNone(hops: seq<Hop>)
    ensures hops[|hops|..] == [] && Names(hops[|hops|..]) == []
  {
  }

  lemma KeptNone(edges: seq<Edge>)
    ensures Kept(edges[|edges|..]) == []
  {
  }

  lemma NamesNext(hops: seq<Hop>, k: nat, h: Hop)
    requires k <= |hops|
    ensures (hops + [h])[k..] == hops[k..] + [h] && (hops + [h])[..k] == hops[..k]
    ensures Names((hops + [h])[k..]) == Names(hops[k..]) + [h.name]
  {
    assert (hops + [h])[k..] == hops[k..] + [h];
  }

  /** The nodes of `layer` are those found from index `lo` on, all one level above `depth`. */
  ghost predicate IsLayer(effect: Node, hops: seq<Hop>, lo: nat, layer: seq<Node>, depth: nat) {
    && lo + |layer| <= |hops| + 1 && depth > 0
    && forall k :: 0 <= k < |layer| ==> NodeAt(effect, hops, lo + k) == layer[k] && DepthAt(hops, lo + k) == depth - 1
  }

  lemma FirstLayer(effect: Node)
    ensures IsLayer(effect, [], 0, [effect], 1)
  {
    var layer := [effect];
    forall k | 0 <= k < |layer| ensures NodeAt(effect, [], 0 + k) == layer[k] && DepthAt([], 0 + k) == 0 {
      assert k == 0;
    }
  }

  lemma LayerStays(effect: Node, hops: seq<Hop>, more: seq<Hop>, lo: nat, layer: seq<Node>, depth: nat)
    requires IsLayer(effect, hops, lo, layer, depth) && |hops| <= |more| && more[..|hops|] == hops
    ensures IsLayer(effect, more, lo, layer, depth)
  {
    assert forall k :: 0 <= k < |hops| ==> more[k] == more[..|hops|][k];
  }

  lemma NextIsLayer(effect: Node, hops: seq<Hop>, from: nat, depth: nat)
    requires from <= |hops| && forall h :: h in hops[from..] ==> h.depth == depth
    ensures IsLayer(effect, hops, from + 1, Names(hops[from..]), depth + 1)
  {
    var layer := Names(hops[from..]);
    forall k | 0 <= k < |layer|
      ensures NodeAt(effect, hops, from + 1 + k) == layer[k] && DepthAt(hops, from + 1 + k) == depth
    {
      assert hops[from..][k] in hops[from..] && hops[from..][k] == hops[from + k];
    }
  }

  /** One layer: None when a query failed; done when the limit was reached. */
  method ExplainLayer(neigh: Neighbors, effect: Node, out0: seq<Hop>, seen0: set<Node>, layer: seq<Node>,
                      depth: nat, limit: nat, ghost lo: nat, ghost maxDepth: nat)
      returns (r: Option<(seq<Hop>, set<Node>, seq<Node>, bool)>)
    requires |out0| < Effective(limit) && forall x :: x in seen0 <==> Seen(effect, out0, x)
    requires IsLayer(effect, out0, lo, layer, depth) && lo + |layer| == |out0| + 1 && depth <= maxDepth
    ensures r.None? ==> Search(Relevant(neigh), effect, out0, lo, maxDepth, Effective(limit)).None?
    ensures r.Some? && r.value.3 ==>
      Search(Relevant(neigh), effect, out0, lo, maxDepth, Effective(limit)) == Some(r.value.0)
    ensures r.Some? && !r.value.3 ==> var (out, seen, next, _) := r.value;
      && |out0| <= |out| < Effective(limit) && (forall x :: x in seen <==> Seen(effect, out, x))
      && IsLayer(effect, out, lo + |layer|, next, depth + 1) && lo + |layer| + |next| == |out| + 1
      && Search(Relevant(neigh), effect, out0, lo, maxDepth, Effective(limit)) ==
         Search(Relevant(neigh), effect, out, lo + |layer|, maxDepth, Effective(limit))
  {
    hide Kept, Seen, Scan, Names, Search;
    var out, seen, next := out0, seen0, [];
    NamesNone(out0);
    for k := 0 to |layer|
      invariant |out0| <= |out| < Effective(limit) && out[..|out0|] == out0
      invariant next == Names(out[|out0|..]) && forall h :: h in out[|out0|..] ==> h.depth == depth
      invariant forall x :: x in seen <==> Seen(effect, out, x)
      invariant Search(Relevant(neigh), effect, out0, lo, maxDepth, Effective(limit)) ==
        Search(Relevant(neigh), effect, out, lo + k, maxDepth, Effective(limit))
    {
      LayerStays(effect, out0, out, lo, layer, depth);
      SearchStep(Relevant(neigh), effect, out, lo + k, maxDepth, Effective(limit));
      var edges := neigh(layer[k]);
      if edges.None? {
        return None;
      }
      ghost var before := out;
      out, seen, next := ExplainNode(effect, out, seen, next, edges.value, depth, limit);
      Appended(out0, before, out, depth);
      if |out| >= Effective(limit) {
        SearchDone(Relevant(neigh), effect, out, lo + k + 1, maxDepth, Effective(limit));
        return Some((out, seen, next, true));
      }
    }
    NextIsLayer(effect, out, |out0|, depth);
    r := Some((out, seen, next, false));
  }

  lemma Appended(first: seq<Hop>, before: seq<Hop>, after: seq<Hop>, depth: nat)
    requires |first| <= |before| <= |after| && before[..|first|] == first && after[..|before|] == before
    requires forall h :: h in before[|first|..] ==> h.depth == depth
    requires forall h :: h in after[|before|..] ==> h.depth == depth
    ensures after[..|first|] == first && after[|first|..] == before[|first|..] + after[|before|..]
    ensures Names(after[|first|..]) == Names(before[|first|..]) + Names(after[|before|..])
    ensures forall h :: h in after[|first|..] ==> h.depth == depth
  {
    assert after == before + after[|before|..];
    assert after[|first|..] == before[|first|..] + after[|before|..];
  }

  /** Nothing at the last depth is expanded. */
  lemma {:induction false} TooDeep(neigh: Neighbors, start: Node, hops: seq<Hop>, i: nat, maxDepth: nat, cap: nat)
    requires |hops| <= cap && forall k :: i <= k <= |hops| ==> DepthAt(hops, k) >= maxDepth
    ensures Search(neigh, start, hops, i, maxDepth, cap) == Some(hops)
    decreases cap + 1 - i
  {
    if i <= |hops| && |hops| < cap {
      TooDeep(neigh, start, hops, i + 1, maxDepth, cap);
    }
  }

  /** The hops are those of the reference search over the relevant edges: the same order and depths
      as the queue walk would give, up to the limit. */
  method ExplainFalkor(neigh: Neighbors, effect: Node, maxDepth: int, limit: nat) returns (r: Option<seq<Hop>>)
    ensures r == Search(Relevant(neigh), effect, [], 0, ClampDepth(maxDepth), Effective(limit))
    ensures r.Some? ==> BreadthFirstTo(Relevant(neigh), effect, maxDepth, if limit == 0 then 1 else limit, r.value)
    ensures r.None? ==> FailsWithin(Relevant(neigh), effect, maxDepth)
  {
    hide Relevant, Search, BreadthFirstTo, FailsWithin;
    r := ExplainLayers(neigh, effect, maxDepth, limit);
    if r.Some? {
      ClampedSearch(Relevant(neigh), effect, maxDepth, Effective(limit), r.value);
    } else {
      ClampedFails(Relevant(neigh), effect, maxDepth, Effective(limit));
    }
  }

  /** The loop over the layers. */
  method ExplainLayers(neigh: Neighbors, effect: Node, maxDepth: int, limit: nat) returns (r: Option<seq<Hop>>)
    ensures r == Search(Relevant(neigh), effect, [], 0, ClampDepth(maxDepth), Effective(limit))
  {
    hide Relevant, Search;
    var depthLimit := ClampDepth(maxDepth);
    var out, seen, layer := [], {effect}, [effect];
    ghost var lo: nat := 0;
    FirstLayer(effect);
    for depth := 1 to depthLimit + 1
      invariant |out| < Effective(limit) && forall x :: x in seen <==> Seen(effect, out, x)
      invariant IsLayer(effect, out, lo, layer, depth) && lo + |layer| == |out| + 1
      invariant Search(Relevant(neigh), effect, [], 0, depthLimit, Effective(limit)) ==
        Search(Relevant(neigh), effect, out, lo, depthLimit, Effective(limit))
    {
      var step := ExplainLayer(neigh, effect, out, seen, layer, depth, limit, lo, depthLimit);
      if step.None? {
        return None;
      }
      lo := lo + |layer|;
      var done := step.value.3;
      out, seen, layer := step.value.0, step.value.1, step.value.2;
      if done {
        return Some(out);
      }
      if layer == [] {
        SearchDone(Relevant(neigh), effect, out, lo, depthLimit, Effective(limit));
        return Some(out);
      }
    }
    forall k | lo <= k <= |out| ensures DepthAt(out, k) >= depthLimit {
      assert NodeAt(effect, out, lo + (k - lo)) == layer[k - lo];
    }
    TooDeep(Relevant(neigh), effect, out, lo, depthLimit, Effective(limit));
    r := Some(out);
  }

  // ----- the limit

  /** A run keeps to its limit exactly when that is not 0, or there is nothing to find: the
      effect has no causal edge but to itself. */
  lemma LimitObeyedIff(neigh: Neighbors, effect: Node, maxDepth: int, limit: nat, hops: seq<Hop>)
    requires Search(Relevant(neigh), effect, [], 0, ClampDepth(maxDepth), Effective(limit)) == Some(hops)
    ensures Relevant(neigh)(effect).Some?
    ensures |hops| <= limit <==> limit > 0 || forall e :: e in Relevant(neigh)(effect).value ==> e.name == effect
  {
    hide Relevant;
    SearchGrows(Relevant(neigh), effect, [], 0, ClampDepth(maxDepth), Effective(limit));
    SearchStep(Relevant(neigh), effect, [], 0, ClampDepth(maxDepth), Effective(limit));
    if limit == 0 {
      OneHopAtMost(Relevant(neigh), effect, hops, ClampDepth(maxDepth));
    }
  }

  /** With limit 0 one cause is still returned. */
  lemma LimitZeroKeepsOne(effect: Node, cause: Node, strength: real, maxDepth: int)
    requires cause != effect
    ensures var neigh: Neighbors := (x: Node) => Some([Edge(cause, "causes", strength)]);
      Search(Relevant(neigh), effect, [], 0, ClampDepth(maxDepth), Effective(0))
        == Some([Hop(cause, "causes", strength, 1)])
  {
    var neigh: Neighbors := (x: Node) => Some([Edge(cause, "causes", strength)]);
    var e, h := Edge(cause, "causes", strength), Hop(cause, "causes", strength, 1);
    KeptNext([e], 0);
    assert Kept([e]) == [e];
    var causes := Relevant(neigh);
    assert causes(effect) == Some([e]);
    hide Relevant, Search, Kept;
    SearchStep(causes, effect, [], 0, ClampDepth(maxDepth), 1);
    ScanStep(effect, [], [e], 0, 0, 1);
    ScanDone(effect, [h], [e][1..], 0, 1);
    assert [e][0..] == [e] && [] + [h] == [h];
    SearchDone(causes, effect, [h], 1, ClampDepth(maxDepth), 1);
  }

  // ----- both walks

  /** Over the same edges the walk by queue and the walk by layers give the same hops in the same
      order, the one with the smaller cap a prefix of the other; where the one with the larger cap
      meets no failing query, neither does the other. */
  lemma WalksAgree(neigh: Neighbors, start: Node, maxDepth: nat, limit: nat)
    requires Search(Relevant(neigh), start, [], 0, maxDepth,
                    if Effective(limit) <= MAX_HOPS then MAX_HOPS else Effective(limit)).Some?
    ensures Search(Relevant(neigh), start, [], 0, maxDepth, MAX_HOPS).Some?
    ensures Search(Relevant(neigh), start, [], 0, maxDepth, Effective(limit)).Some?
    ensures var queue := Search(Relevant(neigh), start, [], 0, maxDepth, MAX_HOPS).value;
      var layers := Search(Relevant(neigh), start, [], 0, maxDepth, Effective(limit)).value;
      if Effective(limit) <= MAX_HOPS
      then layers <= queue && (|layers| < Effective(limit) ==> layers == queue)
      else queue <= layers && (|queue| < MAX_HOPS ==> queue == layers)
  {
    hide Relevant;
    if Effective(limit) <= MAX_HOPS {
      SearchCap(Relevant(neigh), start, [], 0, maxDepth, Effective(limit), MAX_HOPS);
    } else {
      SearchCap(Relevant(neigh), start, [], 0, maxDepth, MAX_HOPS, Effective(limit));
    }
  }
}
