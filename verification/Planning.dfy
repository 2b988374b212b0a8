/** The plan of a deduplication run, exact groups followed by judged groups, and its execution
    over the store. */
module Planning {
  import opened Connectivity
  import opened Grouping
  import opened Merging

  // ----- exact groups

  /** A primary key: no two rows share an id. */
  ghost predicate DistinctIds(s: seq<Entity>) {
    forall i, j :: 0 <= i < j < |s| ==> s[i].id != s[j].id
  }

  ghost function Class(entities: seq<Entity>, normalize: string -> string, key: string): set<Entity> {
    set e | e in entities && normalize(e.name) == key
  }

  ghost predicate IsExact(entities: seq<Entity>, normalize: string -> string, g: Group) {
    && StrictlySorted(Members(g))
    && g.losers != []
    && Elements(Members(g)) == Class(entities, normalize, normalize(g.winner.name))
  }

  lemma {:induction false} InsertDistinct(e: Entity, s: seq<Entity>)
    requires WeaklySorted(s) && DistinctIds(s) && forall x :: x in s ==> x.id != e.id
    ensures DistinctIds(Insert(e, s))
    decreases |s|
  {
    if s != [] && Before(s[0], e) {
      InsertDistinct(e, s[1..]);
      var rest := Insert(e, s[1..]);
      forall x | x in rest ensures x.id != s[0].id {
        assert x in Elements(s[1..]) + {e};
      }
    }
  }

  lemma {:induction false} SortDistinct(s: seq<Entity>)
    requires DistinctIds(s)
    ensures DistinctIds(Sort(s)) && StrictlySorted(Sort(s))
    decreases |s|
  {
    if s != [] {
      SortDistinct(s[1..]);
      forall x | x in Sort(s[1..]) ensures x.id != s[0].id {
        assert x in Elements(s[1..]);
      }
      InsertDistinct(s[0], Sort(s[1..]));
    }
  }

  ghost predicate ClassesBuilt(entities: seq<Entity>, normalize: string -> string, byKey: map<string, seq<Entity>>) {
    && (forall e :: e in entities ==> normalize(e.name) in byKey)
    && (forall k :: k in byKey ==> byKey[k] != [] && DistinctIds(byKey[k]))
    && (forall k :: k in byKey ==> Elements(byKey[k]) == Class(entities, normalize, k))
  }

  lemma ClassGrows(entities: seq<Entity>, normalize: string -> string, n: nat, k: string)
    requires n < |entities|
    ensures Class(entities[..n+1], normalize, k) == Class(entities[..n], normalize, k) +
      if normalize(entities[n].name) == k then {entities[n]} else {}
  {
    assert entities[..n+1] == entities[..n] + [entities[n]];
  }

  lemma ClassesGrow(entities: seq<Entity>, normalize: string -> string, n: nat, byKey: map<string, seq<Entity>>)
    requires n < |entities| && DistinctIds(entities) && ClassesBuilt(entities[..n], normalize, byKey)
    ensures var k := normalize(entities[n].name);
      ClassesBuilt(entities[..n+1], normalize, byKey[k := (if k in byKey then byKey[k] else []) + [entities[n]]])
  {
    var e := entities[n];
    var key := normalize(e.name);
    var held := if key in byKey then byKey[key] else [];
    assert entities[..n+1] == entities[..n] + [e];
    forall k ensures Class(entities[..n+1], normalize, k) ==
      Class(entities[..n], normalize, k) + if key == k then {e} else {}
    {
      ClassGrows(entities, normalize, n, k);
    }
    assert Elements(held) == Class(entities[..n], normalize, key) by {
      if key !in byKey {
        assert Class(entities[..n], normalize, key) == {};
      }
    }
    assert Elements(held + [e]) == Elements(held) + {e};
    assert DistinctIds(held + [e]) by {
      forall x | x in held ensures x.id != e.id {
        assert x in Elements(held);
      }
    }
  }

  /** Bucket the entities by normalised name; each bucket of two or more is a group, sorted. The
      buckets come out of the hash map in any order. */
  method ExactGroups(entities: seq<Entity>, normalize: string -> string) returns (exact: seq<Group>)
    requires DistinctIds(entities)
    ensures forall g :: g in exact <==> IsExact(entities, normalize, g)
    ensures forall i, j :: 0 <= i < j < |exact| ==> exact[i] != exact[j]
  {
    var byKey: map<string, seq<Entity>> := map[];
    for n := 0 to |entities|
      invariant ClassesBuilt(entities[..n], normalize, byKey)
    {
      ClassesGrow(entities, normalize, n, byKey);
      var k := normalize(entities[n].name);
      byKey := byKey[k := (if k in byKey then byKey[k] else []) + [entities[n]]];
    }
    assert entities[..|entities|] == entities;
    exact := GroupsOfBuckets(entities, normalize, byKey);
    forall g | IsExact(entities, normalize, g) ensures normalize(g.winner.name) in byKey {
      assert g.winner in Elements(Members(g));
    }
  }

  ghost predicate OfKey(entities: seq<Entity>, normalize: string -> string, keys: set<string>, g: Group) {
    IsExact(entities, normalize, g) && normalize(g.winner.name) in keys
  }

  lemma BucketGroup(entities: seq<Entity>, normalize: string -> string, byKey: map<string, seq<Entity>>, k: string, g: Group)
    requires ClassesBuilt(entities, normalize, byKey) && k in byKey
    ensures IsExact(entities, normalize, g) && normalize(g.winner.name) == k <==>
      |byKey[k]| > 1 && Members(g) == Sort(byKey[k])
  {
    SortDistinct(byKey[k]);
    var sorted := Sort(byKey[k]);
    SortLength(byKey[k]);
    if IsExact(entities, normalize, g) && normalize(g.winner.name) == k {
      SortedListingUnique(Members(g), sorted);
    }
    if |byKey[k]| > 1 && Members(g) == sorted {
      assert g.winner in Elements(sorted);
    }
  }

  lemma {:induction false} SortLength(s: seq<Entity>)
    ensures |Sort(s)| == |s|
    decreases |s|
  {
    if s != [] {
      SortLength(s[1..]);
      InsertLength(s[0], Sort(s[1..]));
    }
  }

  lemma {:induction false} InsertLength(e: Entity, s: seq<Entity>)
    requires WeaklySorted(s)
    ensures |Insert(e, s)| == |s| + 1
    decreases |s|
  {
    if s != [] && Before(s[0], e) {
      InsertLength(e, s[1..]);
    }
  }

  ghost predicate ExactOver(entities: seq<Entity>, normalize: string -> string, keys: set<string>, exact: seq<Group>) {
    && (forall g :: g in exact <==> OfKey(entities, normalize, keys, g))
    && (forall i, j :: 0 <= i < j < |exact| ==> exact[i] != exact[j])
  }

  lemma OfKeyNext(entities: seq<Entity>, normalize: string -> string, byKey: map<string, seq<Entity>>,
                  keys: set<string>, k: string, g: Group)
    requires ClassesBuilt(entities, normalize, byKey) && k in byKey && k !in keys && Sort(byKey[k]) != []
    ensures OfKey(entities, normalize, keys + {k}, g) <==>
      OfKey(entities, normalize, keys, g) || (|byKey[k]| > 1 && g == AsGroup(Sort(byKey[k])))
    ensures !OfKey(entities, normalize, keys, g) || !(|byKey[k]| > 1 && g == AsGroup(Sort(byKey[k])))
  {
    BucketGroup(entities, normalize, byKey, k, g);
    assert Members(g) == Sort(byKey[k]) <==> g == AsGroup(Sort(byKey[k]));
  }

  /** A list of exactly the T that satisfy P, each once, grows by one. */
  lemma ListNext<T(!new)>(s: seq<T>, p: T -> bool, x: T, q: T -> bool)
    requires (forall g :: g in s <==> p(g)) && forall i, j :: 0 <= i < j < |s| ==> s[i] != s[j]
    requires !p(x) && forall g :: q(g) <==> p(g) || g == x
    ensures (forall g :: g in s + [x] <==> q(g))
    ensures forall i, j :: 0 <= i < j < |s + [x]| ==> (s + [x])[i] != (s + [x])[j]
  {
    assert forall i :: 0 <= i < |s| ==> s[i] in s;
  }

  lemma ExactNext(entities: seq<Entity>, normalize: string -> string, byKey: map<string, seq<Entity>>,
                  keys: set<string>, k: string, exact: seq<Group>)
    requires ClassesBuilt(entities, normalize, byKey) && k in byKey && k !in keys
    requires ExactOver(entities, normalize, keys, exact) && Sort(byKey[k]) != []
    ensures ExactOver(entities, normalize, keys + {k},
              if |byKey[k]| > 1 then exact + [AsGroup(Sort(byKey[k]))] else exact)
  {
    var p := g => OfKey(entities, normalize, keys, g);
    var q := g => OfKey(entities, normalize, keys + {k}, g);
    var x := AsGroup(Sort(byKey[k]));
    forall g ensures q(g) <==> p(g) || (|byKey[k]| > 1 && g == x) {
      OfKeyNext(entities, normalize, byKey, keys, k, g);
    }
    OfKeyNext(entities, normalize, byKey, keys, k, x);
    if |byKey[k]| > 1 {
      ListNext(exact, p, x, q);
      assert forall g :: g in exact + [x] <==> q(g);
    } else {
      assert forall g :: g in exact <==> q(g);
    }
  }

  method GroupsOfBuckets(entities: seq<Entity>, normalize: string -> string, byKey: map<string, seq<Entity>>)
      returns (exact: seq<Group>)
    requires ClassesBuilt(entities, normalize, byKey)
    ensures ExactOver(entities, normalize, byKey.Keys, exact)
  {
    exact := [];
    var left := byKey.Keys;
    while left != {}
      invariant left <= byKey.Keys
      invariant ExactOver(entities, normalize, byKey.Keys - left, exact)
      decreases left
    {
      var k :| k in left;
      SortLength(byKey[k]);
      ExactNext(entities, normalize, byKey, byKey.Keys - left, k, exact);
      assert byKey.Keys - left + {k} == byKey.Keys - (left - {k});
      if |byKey[k]| > 1 {
        exact := exact + [AsGroup(Sort(byKey[k]))];
      }
      left := left - {k};
    }
    assert byKey.Keys - left == byKey.Keys;
  }

  // ----- the plan

  function MergesOf(g: Group): seq<Merge> {
    seq(|g.losers|, i requires 0 <= i < |g.losers| => Merge(g.losers[i], g.winner))
  }

  /** The merges of a run, in the order of its two nested loops. */
  function Plan(groups: seq<Group>): seq<Merge> {
    if groups == [] then []
    else Plan(groups[..|groups|-1]) + MergesOf(groups[|groups|-1])
  }

  /** Nobody is absorbed twice, and nobody is merged into after being absorbed. */
  ghost predicate WellFormed(plan: seq<Merge>) {
    && (forall i :: 0 <= i < |plan| ==> plan[i].loser.id != plan[i].winner.id)
    && (forall i, j :: 0 <= i < j < |plan| ==>
          plan[i].loser.id != plan[j].loser.id && plan[i].loser.id != plan[j].winner.id)
  }

  /** No member of a later group was absorbed in an earlier one. */
  ghost predicate Apart(groups: seq<Group>) {
    && (forall a :: 0 <= a < |groups| ==> DistinctIds(Members(groups[a])))
    && (forall a, b, x, y :: 0 <= a < b < |groups| && x in groups[a].losers && y in Members(groups[b]) ==> x.id != y.id)
  }

  lemma {:induction false} PlanFrom(groups: seq<Group>, m: Merge)
    requires m in Plan(groups)
    ensures exists a :: 0 <= a < |groups| && m.loser in groups[a].losers && m.winner == groups[a].winner
    decreases |groups|
  {
    var init, last := groups[..|groups|-1], groups[|groups|-1];
    if m in Plan(init) {
      PlanFrom(init, m);
      var a :| 0 <= a < |init| && m.loser in init[a].losers && m.winner == init[a].winner;
      assert groups[a] == init[a];
    } else {
      assert m in MergesOf(last);
    }
  }

  lemma LastStaysApart(groups: seq<Group>, m: Merge, n: Merge)
    requires groups != [] && Apart(groups)
    requires m in Plan(groups[..|groups|-1]) && n in MergesOf(groups[|groups|-1])
    ensures m.loser.id != n.loser.id && m.loser.id != n.winner.id
  {
    var init, last := groups[..|groups|-1], groups[|groups|-1];
    PlanFrom(init, m);
    hide Plan;
    var a :| 0 <= a < |init| && m.loser in init[a].losers && m.winner == init[a].winner;
    assert groups[a] == init[a] && n.loser in Members(last) && n.winner in Members(last);
  }

  lemma {:induction false} ApartPlanWellFormed(groups: seq<Group>)
    requires Apart(groups)
    ensures WellFormed(Plan(groups))
    decreases |groups|
  {
    if groups != [] {
      var init, last := groups[..|groups|-1], groups[|groups|-1];
      ApartPlanWellFormed(init);
      GroupWellFormed(last);
      forall m, n | m in Plan(init) && n in MergesOf(last)
        ensures m.loser.id != n.loser.id && m.loser.id != n.winner.id
      {
        LastStaysApart(groups, m, n);
      }
      hide Apart, WellFormed, MergesOf;
      WellFormedAppend(Plan(init), MergesOf(last));
    }
  }

  lemma GroupWellFormed(g: Group)
    requires DistinctIds(Members(g))
    ensures WellFormed(MergesOf(g))
  {
    var s, plan := Members(g), MergesOf(g);
    forall i | 0 <= i < |plan| ensures plan[i].loser.id != plan[i].winner.id {
      assert s[i+1] == g.losers[i] && s[0] == g.winner;
    }
    forall i, j | 0 <= i < j < |plan| ensures plan[i].loser.id != plan[j].loser.id {
      assert s[i+1] == g.losers[i] && s[j+1] == g.losers[j];
    }
  }

  lemma WellFormedAppend(p: seq<Merge>, q: seq<Merge>)
    requires WellFormed(p) && WellFormed(q)
    requires forall m, n :: m in p && n in q ==> m.loser.id != n.loser.id && m.loser.id != n.winner.id
    ensures WellFormed(p + q)
  {
  }

  lemma SortedDistinct(s: seq<Entity>)
    requires StrictlySorted(s) && Coherent(Elements(s))
    ensures DistinctIds(s)
  {
    forall i, j | 0 <= i < j < |s| ensures s[i].id != s[j].id {
      assert s[i] in Elements(s) && s[j] in Elements(s);
    }
  }

  /** The candidate pairs a judge sees: neither side absorbed by an exact group, both known. */
  ghost predicate IsLikely(entities: seq<Entity>, exact: seq<Group>, same: seq<(Entity, Entity)>) {
    forall e :: e in EntitiesIn(same) ==>
      e in entities && forall g, l :: g in exact && l in g.losers ==> l.id != e.id
  }

  lemma ExactApart(entities: seq<Entity>, normalize: string -> string, g: Group, h: Group, x: Entity)
    requires IsExact(entities, normalize, g) && IsExact(entities, normalize, h)
    requires x in Members(g) && x in Members(h)
    ensures g == h
  {
    assert x in Elements(Members(g)) && x in Elements(Members(h));
    assert g.winner in Elements(Members(g)) && h.winner in Elements(Members(h));
    SortedListingUnique(Members(g), Members(h));
    assert g == AsGroup(Members(g)) && h == AsGroup(Members(h));
  }

  /** What a run assembles before it merges anything. */
  ghost predicate RunGroups(entities: seq<Entity>, normalize: string -> string, exact: seq<Group>,
                            same: seq<(Entity, Entity)>, different: set<(Id, Id)>, judged: seq<Group>) {
    && (forall g :: g in exact ==> IsExact(entities, normalize, g))
    && (forall i, j :: 0 <= i < j < |exact| ==> exact[i] != exact[j])
    && IsLikely(entities, exact, same)
    && (forall g :: g in judged ==> IsReturned(same, different, g))
    && (forall i, j :: 0 <= i < j < |judged| ==> judged[i] != judged[j])
  }

  /** The same in terms of who is in which group only. */
  ghost predicate Separate(entities: seq<Entity>, groups: seq<Group>) {
    && (forall a, x :: 0 <= a < |groups| && x in Members(groups[a]) ==> x in entities)
    && (forall a :: 0 <= a < |groups| ==> DistinctIds(Members(groups[a])))
    && (forall a, b, x :: 0 <= a < b < |groups| && x in groups[a].losers ==> x !in Members(groups[b]))
  }

  lemma RunSeparate(entities: seq<Entity>, normalize: string -> string, exact: seq<Group>,
                    same: seq<(Entity, Entity)>, different: set<(Id, Id)>, judged: seq<Group>)
    requires DistinctIds(entities) && RunGroups(entities, normalize, exact, same, different, judged)
    ensures Separate(entities, exact + judged)
  {
    var groups := exact + judged;
    forall a | 0 <= a < |groups|
      ensures DistinctIds(Members(groups[a])) && forall x :: x in Members(groups[a]) ==> x in entities
    {
      assert groups[a] in exact || groups[a] in judged;
      KnownDistinct(entities, normalize, exact, same, different, groups[a]);
    }
    forall a, b, x | 0 <= a < b < |groups| && x in groups[a].losers ensures x !in Members(groups[b]) {
      GroupsApart(entities, normalize, exact, same, different, judged, a, b, x);
    }
  }

  lemma KnownDistinct(entities: seq<Entity>, normalize: string -> string, exact: seq<Group>,
                      same: seq<(Entity, Entity)>, different: set<(Id, Id)>, g: Group)
    requires DistinctIds(entities)
    requires IsExact(entities, normalize, g) || (IsLikely(entities, exact, same) && IsReturned(same, different, g))
    ensures DistinctIds(Members(g)) && forall x :: x in Members(g) ==> x in entities
  {
    forall x | x in Members(g) ensures x in entities {
      GroupKnown(entities, normalize, exact, same, different, g, x);
    }
    assert Coherent(Elements(Members(g)));
    SortedDistinct(Members(g));
  }

  lemma SeparateApart(entities: seq<Entity>, groups: seq<Group>)
    requires DistinctIds(entities) && Separate(entities, groups)
    ensures Apart(groups)
  {
    forall a, b, x, y | 0 <= a < b < |groups| && x in groups[a].losers && y in Members(groups[b])
      ensures x.id != y.id
    {
      assert x in Members(groups[a]);
      assert x in entities && y in entities;
      assert x.id == y.id ==> x == y;
    }
  }

  lemma SeparateKnown(entities: seq<Entity>, groups: seq<Group>, m: Merge)
    requires Separate(entities, groups) && m in Plan(groups)
    ensures m.loser in entities && m.winner in entities
  {
    PlanFrom(groups, m);
    var a :| 0 <= a < |groups| && m.loser in groups[a].losers && m.winner == groups[a].winner;
    assert m.loser in Members(groups[a]) && m.winner in Members(groups[a]);
  }

  /** Exact groups followed by the groups a judge's verdicts give: whatever the judge said, every
      entity is absorbed at most once and every winner is still there when it is merged into. */
  lemma RunPlanWellFormed(entities: seq<Entity>, normalize: string -> string, exact: seq<Group>,
                          same: seq<(Entity, Entity)>, different: set<(Id, Id)>, judged: seq<Group>)
    requires DistinctIds(entities) && RunGroups(entities, normalize, exact, same, different, judged)
    ensures WellFormed(Plan(exact + judged))
    ensures forall m :: m in Plan(exact + judged) ==> m.loser in entities && m.winner in entities
  {
    RunSeparate(entities, normalize, exact, same, different, judged);
    SeparateApart(entities, exact + judged);
    ApartPlanWellFormed(exact + judged);
    forall m | m in Plan(exact + judged) ensures m.loser in entities && m.winner in entities {
      SeparateKnown(entities, exact + judged, m);
    }
  }

  ghost predicate Proper(g: Group) {
    forall l :: l in g.losers ==> l.id != g.winner.id
  }

  lemma ProperGroups(entities: seq<Entity>, normalize: string -> string, exact: seq<Group>,
                     same: seq<(Entity, Entity)>, different: set<(Id, Id)>, judged: seq<Group>)
    requires DistinctIds(entities) && RunGroups(entities, normalize, exact, same, different, judged)
    ensures forall g :: g in exact + judged ==> Proper(g)
  {
    forall g | g in exact + judged ensures Proper(g) {
      hide IsExact, IsReturned;
      KnownDistinct(entities, normalize, exact, same, different, g);
      DistinctProper(g);
    }
  }

  lemma DistinctProper(g: Group)
    requires DistinctIds(Members(g))
    ensures Proper(g)
  {
    var s := Members(g);
    forall l | l in g.losers ensures l.id != g.winner.id {
      var i :| 0 <= i < |g.losers| && g.losers[i] == l;
      assert s[0] == g.winner && s[i+1] == l;
    }
  }

  lemma GroupKnown(entities: seq<Entity>, normalize: string -> string, exact: seq<Group>,
                   same: seq<(Entity, Entity)>, different: set<(Id, Id)>, g: Group, x: Entity)
    requires IsExact(entities, normalize, g) || (IsLikely(entities, exact, same) && IsReturned(same, different, g))
    requires x in Members(g)
    ensures x in entities
  {
    assert x in Elements(Members(g));
  }

  lemma JudgedNotAbsorbed(entities: seq<Entity>, exact: seq<Group>, same: seq<(Entity, Entity)>,
                          different: set<(Id, Id)>, g: Group, h: Group, x: Entity)
    requires IsLikely(entities, exact, same) && g in exact && x in g.losers && IsReturned(same, different, h)
    ensures x !in Members(h)
  {
    assert x in Members(h) ==> x in Elements(Members(h));
  }

  lemma GroupsApart(entities: seq<Entity>, normalize: string -> string, exact: seq<Group>,
                    same: seq<(Entity, Entity)>, different: set<(Id, Id)>, judged: seq<Group>,
                    a: nat, b: nat, x: Entity)
    requires RunGroups(entities, normalize, exact, same, different, judged)
    requires a < b < |exact + judged| && x in (exact + judged)[a].losers
    ensures x !in Members((exact + judged)[b])
  {
    var groups := exact + judged;
    assert x in Members(groups[a]);
    if x in Members(groups[b]) {
      if b < |exact| {
        ExactApart(entities, normalize, groups[a], groups[b], x);
      } else if a < |exact| {
        JudgedNotAbsorbed(entities, exact, same, different, groups[a], groups[b], x);
      } else {
        assert groups[a] == judged[a - |exact|] && groups[b] == judged[b - |exact|];
        ReturnedGroups(same, different, groups[a], groups[b], x);
      }
    }
  }
}
