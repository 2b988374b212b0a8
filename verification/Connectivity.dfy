/** Connectivity of the undirected graph spanned by a list of pairs: the mathematical
    notion the grouping of duplicate entities is measured against. */
module Connectivity {

  type Id = nat

  ghost predicate Linked(pairs: seq<(Id, Id)>, x: Id, y: Id) {
    (x, y) in pairs || (y, x) in pairs
  }

  ghost predicate IsPath(pairs: seq<(Id, Id)>, p: seq<Id>) {
    && p != []
    && forall k :: 0 < k < |p| ==> Linked(pairs, p[k-1], p[k])
  }

  /** x and y are the ends of some path; a single vertex is a path. */
  ghost predicate Connected(pairs: seq<(Id, Id)>, x: Id, y: Id) {
    exists p :: IsPath(pairs, p) && p[0] == x && p[|p|-1] == y
  }

  ghost function Mentioned(pairs: seq<(Id, Id)>): set<Id> {
    (set p | p in pairs :: p.0) + (set p | p in pairs :: p.1)
  }

  lemma ConnectedReflexive(pairs: seq<(Id, Id)>, x: Id)
    ensures Connected(pairs, x, x)
  {
    assert IsPath(pairs, [x]);
  }

  lemma ConnectedEdge(pairs: seq<(Id, Id)>, x: Id, y: Id)
    requires Linked(pairs, x, y)
    ensures Connected(pairs, x, y)
  {
    assert IsPath(pairs, [x, y]);
  }

  lemma ConnectedTransitive(pairs: seq<(Id, Id)>, x: Id, y: Id, z: Id)
    requires Connected(pairs, x, y) && Connected(pairs, y, z)
    ensures Connected(pairs, x, z)
  {
    var p :| IsPath(pairs, p) && p[0] == x && p[|p|-1] == y;
    var q :| IsPath(pairs, q) && q[0] == y && q[|q|-1] == z;
    var r := p + q[1..];
    forall k | 0 < k < |r| ensures Linked(pairs, r[k-1], r[k]) {
      if k < |p| {
      } else {
        assert r[k] == q[k - |p| + 1] && r[k-1] == q[k - |p|];
      }
    }
    assert IsPath(pairs, r);
  }

  lemma ConnectedSymmetric(pairs: seq<(Id, Id)>, x: Id, y: Id)
    requires Connected(pairs, x, y)
    ensures Connected(pairs, y, x)
  {
    var p :| IsPath(pairs, p) && p[0] == x && p[|p|-1] == y;
    var r := seq(|p|, i requires 0 <= i < |p| => p[|p|-1-i]);
    forall k | 0 < k < |r| ensures Linked(pairs, r[k-1], r[k]) {
      assert Linked(pairs, p[|p|-1-k], p[|p|-k]);
    }
    assert IsPath(pairs, r);
  }

  /** More links never disconnect, whatever the order or orientation they come in. */
  lemma ConnectedMonotone(pairs: seq<(Id, Id)>, more: seq<(Id, Id)>, x: Id, y: Id)
    requires forall u, v :: Linked(pairs, u, v) ==> Linked(more, u, v)
    requires Connected(pairs, x, y)
    ensures Connected(more, x, y)
  {
    var p :| IsPath(pairs, p) && p[0] == x && p[|p|-1] == y;
    assert IsPath(more, p);
  }

  lemma ConnectedAlone(pairs: seq<(Id, Id)>, x: Id, y: Id)
    requires x !in Mentioned(pairs)
    ensures Connected(pairs, x, y) <==> x == y
    ensures Connected(pairs, y, x) <==> x == y
  {
    if x == y {
      ConnectedReflexive(pairs, x);
    }
    if Connected(pairs, y, x) {
      ConnectedSymmetric(pairs, y, x);
    }
    if Connected(pairs, x, y) {
      var p :| IsPath(pairs, p) && p[0] == x && p[|p|-1] == y;
      assert |p| > 1 ==> Linked(pairs, p[0], p[1]);
    }
  }

  ghost predicate ConnectedThrough(pairs: seq<(Id, Id)>, a: Id, b: Id, x: Id, y: Id) {
    || Connected(pairs, x, y)
    || (Connected(pairs, x, a) && Connected(pairs, b, y))
    || (Connected(pairs, x, b) && Connected(pairs, a, y))
  }

  /** What one more pair does to connectivity. */
  lemma ConnectedAddPair(pairs: seq<(Id, Id)>, a: Id, b: Id, x: Id, y: Id)
    ensures Connected(pairs + [(a, b)], x, y) <==> ConnectedThrough(pairs, a, b, x, y)
  {
    var more := pairs + [(a, b)];
    if Connected(more, x, y) {
      var p :| IsPath(more, p) && p[0] == x && p[|p|-1] == y;
      PathThrough(pairs, a, b, p);
    }
    if ConnectedThrough(pairs, a, b, x, y) {
      forall u, v | Connected(pairs, u, v) ensures Connected(more, u, v) {
        ConnectedMonotone(pairs, more, u, v);
      }
      assert more[|pairs|] == (a, b);
      ConnectedEdge(more, a, b);
      ConnectedEdge(more, b, a);
      if Connected(pairs, x, y) {
      } else if Connected(pairs, x, a) && Connected(pairs, b, y) {
        ConnectedTransitive(more, x, a, b);
        ConnectedTransitive(more, x, b, y);
      } else {
        ConnectedTransitive(more, x, b, a);
        ConnectedTransitive(more, x, a, y);
      }
    }
  }

  lemma {:induction false} PathThrough(pairs: seq<(Id, Id)>, a: Id, b: Id, p: seq<Id>)
    requires IsPath(pairs + [(a, b)], p)
    ensures ConnectedThrough(pairs, a, b, p[0], p[|p|-1])
    decreases |p|
  {
    var x, y := p[0], p[|p|-1];
    ConnectedReflexive(pairs, x);
    if |p| > 1 {
      var rest := p[1..];
      forall k | 0 < k < |rest| ensures Linked(pairs + [(a, b)], rest[k-1], rest[k]) {
        assert Linked(pairs + [(a, b)], p[k], p[k+1]);
      }
      PathThrough(pairs, a, b, rest);
      assert Linked(pairs + [(a, b)], p[0], p[1]);
      StepThrough(pairs, a, b, x, p[1], y);
    }
  }

  lemma StepThrough(pairs: seq<(Id, Id)>, a: Id, b: Id, x: Id, u: Id, y: Id)
    requires Linked(pairs + [(a, b)], x, u) && ConnectedThrough(pairs, a, b, u, y)
    ensures ConnectedThrough(pairs, a, b, x, y)
  {
    ConnectedReflexive(pairs, a);
    ConnectedReflexive(pairs, b);
    if Linked(pairs, x, u) {
      ConnectedEdge(pairs, x, u);
      forall z | Connected(pairs, u, z) ensures Connected(pairs, x, z) {
        ConnectedTransitive(pairs, x, u, z);
      }
    } else {
      assert (x, u) == (a, b) || (u, x) == (a, b);
      // Walking the new pair twice comes back to where it started.
      if Connected(pairs, u, a) && Connected(pairs, b, y) && u == b {
        ConnectedSymmetric(pairs, b, a);
        ConnectedTransitive(pairs, a, b, y);
      }
      if Connected(pairs, u, b) && Connected(pairs, a, y) && u == a {
        ConnectedSymmetric(pairs, a, b);
        ConnectedTransitive(pairs, b, a, y);
      }
    }
  }
}
