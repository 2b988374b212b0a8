/** Grouping of the entities a judge called the same thing: union by relabelling over a map and
    a table kept in step, then one sorted group per component unless two of its members were
    called different. */
module Grouping {
  import opened Connectivity

  /** What the grouping reads of an entity: its id (ordered like a UUID), its name and the
      number of its observations. */
  datatype Entity = Entity(id: Id, name: string, obs: int)

  datatype Group = Group(winner: Entity, losers: seq<Entity>)

  function Members(g: Group): seq<Entity> {
    [g.winner] + g.losers
  }

  // ----- the order within a group

  /** More observations first, then the smaller id. */
  predicate Before(a: Entity, b: Entity) {
    a.obs > b.obs || (a.obs == b.obs && a.id < b.id)
  }

  predicate StrictlySorted(s: seq<Entity>) {
    forall i, j :: 0 <= i < j < |s| ==> Before(s[i], s[j])
  }

  predicate WeaklySorted(s: seq<Entity>) {
    forall i, j :: 0 <= i < j < |s| ==> !Before(s[j], s[i])
  }

  function Elements(s: seq<Entity>): set<Entity> {
    set e | e in s
  }

  /** Rows with one id are one row: the caller clones them out of a single table. */
  ghost predicate Coherent(s: set<Entity>) {
    forall e, f :: e in s && f in s && e.id == f.id ==> e == f
  }

  lemma ElementsCons(e: Entity, s: seq<Entity>)
    ensures Elements([e] + s) == {e} + Elements(s)
  {
    assert forall x :: x in [e] + s <==> x == e || x in s;
  }

  lemma SortedCons(e: Entity, s: seq<Entity>)
    requires WeaklySorted(s) && forall x :: x in Elements(s) ==> !Before(x, e)
    ensures WeaklySorted([e] + s)
  {
    assert forall k :: 0 <= k < |s| ==> s[k] in Elements(s);
  }

  function Insert(e: Entity, s: seq<Entity>): (r: seq<Entity>)
    requires WeaklySorted(s)
    ensures WeaklySorted(r) && Elements(r) == Elements(s) + {e}
  {
    if s == [] then [e]
    else if !Before(s[0], e) then
      ElementsCons(e, s);
      SortedCons(e, s);
      [e] + s
    else
      var rest := Insert(e, s[1..]);
      InsertedBehind(e, s, rest);
      [s[0]] + rest
  }

  lemma InsertedBehind(e: Entity, s: seq<Entity>, rest: seq<Entity>)
    requires s != [] && WeaklySorted(s) && Before(s[0], e)
    requires WeaklySorted(rest) && Elements(rest) == Elements(s[1..]) + {e}
    ensures WeaklySorted([s[0]] + rest) && Elements([s[0]] + rest) == Elements(s) + {e}
  {
    assert s == [s[0]] + s[1..];
    ElementsCons(s[0], s[1..]);
    ElementsCons(s[0], rest);
    forall x | x in Elements(rest) ensures !Before(x, s[0]) {
      if x != e {
        assert x in s[1..];
      }
    }
    SortedCons(s[0], rest);
  }

  /** The library sort of `sort_by`, of which only the order it leaves matters. */
  function Sort(s: seq<Entity>): (r: seq<Entity>)
    ensures WeaklySorted(r) && Elements(r) == Elements(s)
  {
    if s == [] then []
    else
      assert Elements(s) == {s[0]} + Elements(s[1..]);
      Insert(s[0], Sort(s[1..]))
  }

  /** `dedup_by_key`: of each run of one id, the first stays. */
  function Dedup(s: seq<Entity>): (r: seq<Entity>)
    ensures forall e :: e in r ==> e in s
    ensures s != [] ==> r != []
  {
    if |s| < 2 then s
    else
      var init := Dedup(s[..|s|-1]);
      if s[|s|-1].id == s[|s|-2].id then init else init + [s[|s|-1]]
  }

  function Canonical(s: seq<Entity>): seq<Entity> {
    Dedup(Sort(s))
  }

  lemma LastIsAfter(s: seq<Entity>, e: Entity)
    requires |s| >= 2 && WeaklySorted(s) && Coherent(Elements(s)) && s[|s|-1].id != s[|s|-2].id && e in s[..|s|-1]
    ensures Before(e, s[|s|-1])
  {
    var last := s[|s|-1];
    var k :| 0 <= k < |s| - 1 && s[k] == e;
    assert e in Elements(s) && last in Elements(s);
    assert !Before(last, s[k]) && !Before(s[|s|-2], s[k]) && !Before(last, s[|s|-2]);
  }

  lemma {:induction false} DedupSorted(s: seq<Entity>)
    requires WeaklySorted(s) && Coherent(Elements(s))
    ensures StrictlySorted(Dedup(s)) && Elements(Dedup(s)) == Elements(s)
    decreases |s|
  {
    if |s| >= 2 {
      var init, last := s[..|s|-1], s[|s|-1];
      assert Elements(s) == Elements(init) + {last};
      DedupSorted(init);
      hide WeaklySorted;
      if last.id == s[|s|-2].id {
        assert s[|s|-2] in Elements(s) && last in Elements(s);
        assert init[|init|-1] == last;
      } else {
        forall e | e in Dedup(init) ensures Before(e, last) {
          LastIsAfter(s, e);
        }
        hide Before;
        assert Elements(Dedup(s)) == Elements(Dedup(init)) + {last};
      }
    }
  }

  lemma CanonicalSorted(s: seq<Entity>)
    requires Coherent(Elements(s))
    ensures StrictlySorted(Canonical(s)) && Elements(Canonical(s)) == Elements(s)
  {
    DedupSorted(Sort(s));
  }

  /** A set of entities has one strictly sorted listing. */
  lemma {:induction false} SortedListingUnique(s: seq<Entity>, t: seq<Entity>)
    requires StrictlySorted(s) && StrictlySorted(t) && Elements(s) == Elements(t)
    ensures s == t
    decreases |s|
  {
    assert s != [] ==> s[0] in Elements(t);
    assert t != [] ==> t[0] in Elements(s);
    if s != [] {
      assert s[0] == t[0];
      TailElements(s);
      TailElements(t);
      SortedListingUnique(s[1..], t[1..]);
      assert s == [s[0]] + s[1..] && t == [t[0]] + t[1..];
    }
  }

  lemma TailElements(s: seq<Entity>)
    requires s != [] && StrictlySorted(s)
    ensures Elements(s[1..]) == Elements(s) - {s[0]}
  {
    assert forall j :: 0 < j < |s| ==> Before(s[0], s[j]);
  }

  // ----- what the grouping is for, as sets

  ghost function IdPairs(same: seq<(Entity, Entity)>): (r: seq<(Id, Id)>)
    ensures |r| == |same| && forall i :: 0 <= i < |r| ==> r[i] == (same[i].0.id, same[i].1.id)
  {
    seq(|same|, i requires 0 <= i < |same| => (same[i].0.id, same[i].1.id))
  }

  ghost function EntitiesIn(same: seq<(Entity, Entity)>): set<Entity> {
    (set p | p in same :: p.0) + (set p | p in same :: p.1)
  }

  ghost function ComponentOf(same: seq<(Entity, Entity)>, e: Entity): set<Entity> {
    set f | f in EntitiesIn(same) && Connected(IdPairs(same), e.id, f.id)
  }

  /** Two members were called different; `different` holds ordered keys. */
  ghost predicate Contradictory(s: set<Entity>, different: set<(Id, Id)>) {
    exists a, b :: a in s && b in s && a.id < b.id && (a.id, b.id) in different
  }

  ghost predicate IsComponent(same: seq<(Entity, Entity)>, s: set<Entity>) {
    exists e :: e in EntitiesIn(same) && s == ComponentOf(same, e)
  }

  ghost predicate IsReturned(same: seq<(Entity, Entity)>, different: set<(Id, Id)>, g: Group) {
    && StrictlySorted(Members(g))
    && IsComponent(same, Elements(Members(g)))
    && !Contradictory(Elements(Members(g)), different)
  }

  ghost predicate IsRefused(same: seq<(Entity, Entity)>, different: set<(Id, Id)>, s: seq<Entity>) {
    && StrictlySorted(s)
    && IsComponent(same, Elements(s))
    && Contradictory(Elements(s), different)
  }

  // ----- the algorithm

  ghost function Ids(s: seq<Entity>): set<Id> {
    set e | e in s :: e.id
  }

  /** Labels agree exactly on connected ids. */
  ghost predicate SameLabel(component: map<Id, nat>, x: Id, y: Id) {
    x == y || (x in component && y in component && component[x] == component[y])
  }

  ghost predicate LabelsConnectivity(pairs: seq<(Id, Id)>, component: map<Id, nat>) {
    && component.Keys == Mentioned(pairs)
    && forall x, y :: SameLabel(component, x, y) <==> Connected(pairs, x, y)
  }

  /** The map and the table say the same: id carries label i iff slot i holds it. */
  ghost predicate InStep(component: map<Id, nat>, members: seq<seq<Entity>>) {
    && (forall id :: id in component ==> component[id] < |members| && id in Ids(members[component[id]]))
    && (forall i, e :: 0 <= i < |members| && e in members[i] ==> e.id in component && component[e.id] == i)
  }

  ghost predicate DrawnFrom(members: seq<seq<Entity>>, s: set<Entity>) {
    forall i, e :: 0 <= i < |members| && e in members[i] ==> e in s
  }

  ghost predicate Tracks(same: seq<(Entity, Entity)>, component: map<Id, nat>, members: seq<seq<Entity>>) {
    && LabelsConnectivity(IdPairs(same), component)
    && InStep(component, members)
    && DrawnFrom(members, EntitiesIn(same))
  }

  /** `next` merges what a and b carried, and nothing else. */
  ghost predicate Unites(component: map<Id, nat>, a: Id, b: Id, next: map<Id, nat>) {
    && next.Keys == component.Keys + {a, b}
    && forall x, y :: SameLabel(next, x, y) <==>
      || SameLabel(component, x, y)
      || (SameLabel(component, x, a) && SameLabel(component, b, y))
      || (SameLabel(component, x, b) && SameLabel(component, a, y))
  }

  /** A new labelling that merges what a and b carried, and nothing else, labels the longer list. */
  lemma LabelsAddPair(pairs: seq<(Id, Id)>, component: map<Id, nat>, a: Id, b: Id, next: map<Id, nat>)
    requires LabelsConnectivity(pairs, component)
    requires Unites(component, a, b, next)
    ensures LabelsConnectivity(pairs + [(a, b)], next)
  {
    forall x, y ensures SameLabel(next, x, y) <==> Connected(pairs + [(a, b)], x, y) {
      ConnectedAddPair(pairs, a, b, x, y);
    }
    var more := pairs + [(a, b)];
    assert more[|pairs|] == (a, b);
    assert forall p :: p in more <==> p in pairs || p == (a, b);
  }

  /** The inner loop of a union: everything moved takes the label of the slot it moves to. */
  method Relabel(component: map<Id, nat>, moved: seq<Entity>, i: nat) returns (next: map<Id, nat>)
    ensures next.Keys == component.Keys + Ids(moved)
    ensures forall x :: x in next ==> next[x] == if x in Ids(moved) then i else component[x]
  {
    next := component;
    for n := 0 to |moved|
      invariant next.Keys == component.Keys + Ids(moved[..n])
      invariant forall x :: x in next ==> next[x] == if x in Ids(moved[..n]) then i else component[x]
    {
      assert moved[..n+1] == moved[..n] + [moved[n]];
      next := next[moved[n].id := i];
    }
    assert moved[..|moved|] == moved;
  }

  lemma PairsAppend(same: seq<(Entity, Entity)>, n: nat)
    requires n < |same|
    ensures same[..n+1] == same[..n] + [same[n]]
    ensures IdPairs(same[..n+1]) == IdPairs(same[..n]) + [(same[n].0.id, same[n].1.id)]
    ensures EntitiesIn(same[..n+1]) == EntitiesIn(same[..n]) + {same[n].0, same[n].1}
  {
    var s, t := same[..n], same[..n+1];
    assert t == s + [same[n]];
    assert forall p :: p in t <==> p in s || p == same[n];
  }

  lemma StepPair(same: seq<(Entity, Entity)>, n: nat, component: map<Id, nat>, members: seq<seq<Entity>>,
                 next: map<Id, nat>, slots: seq<seq<Entity>>)
    requires n < |same| && Tracks(same[..n], component, members)
    requires Unites(component, same[n].0.id, same[n].1.id, next)
    requires InStep(next, slots)
    requires DrawnFrom(slots, EntitiesIn(same[..n]) + {same[n].0, same[n].1})
    ensures Tracks(same[..n+1], next, slots)
  {
    PairsAppend(same, n);
    LabelsAddPair(IdPairs(same[..n]), component, same[n].0.id, same[n].1.id, next);
  }

  lemma NewSlotUnites(component: map<Id, nat>, a: Id, b: Id, slot: nat)
    requires a !in component && b !in component && slot !in component.Values
    ensures Unites(component, a, b, component[a := slot][b := slot])
  {
    assert forall x :: x in component ==> component[x] in component.Values;
  }

  lemma NewSlotInStep(component: map<Id, nat>, members: seq<seq<Entity>>, a: Entity, b: Entity)
    requires InStep(component, members) && a.id !in component && b.id !in component
    ensures InStep(component[a.id := |members|][b.id := |members|], members + [[a, b]])
  {
    var slots := members + [[a, b]];
    assert a in slots[|members|] && b in slots[|members|];
    assert forall i :: 0 <= i < |members| ==> slots[i] == members[i];
  }

  lemma JoinUnites(component: map<Id, nat>, known: Id, new_: Id)
    requires known in component && new_ !in component
    ensures Unites(component, known, new_, component[new_ := component[known]])
    ensures Unites(component, new_, known, component[new_ := component[known]])
  {
  }

  lemma JoinInStep(component: map<Id, nat>, members: seq<seq<Entity>>, i: nat, new_: Entity)
    requires InStep(component, members) && i < |members| && new_.id !in component
    ensures InStep(component[new_.id := i], members[i := members[i] + [new_]])
  {
    var slots := members[i := members[i] + [new_]];
    assert new_ in slots[i];
    assert forall k, e :: 0 <= k < |slots| && e in members[k] ==> e in slots[k];
  }

  /** `next` is `component` with label j renamed to i. */
  ghost predicate Renames(component: map<Id, nat>, j: nat, i: nat, next: map<Id, nat>) {
    && next.Keys == component.Keys
    && forall x :: x in component ==> next[x] == if component[x] == j then i else component[x]
  }

  lemma UnionUnites(component: map<Id, nat>, a: Id, b: Id, next: map<Id, nat>)
    requires a in component && b in component
    requires Renames(component, component[b], component[a], next)
    ensures Unites(component, a, b, next)
  {
  }

  lemma UnionInStep(component: map<Id, nat>, members: seq<seq<Entity>>, i: nat, j: nat, next: map<Id, nat>)
    requires InStep(component, members) && i != j && i < |members| && j < |members|
    requires Renames(component, j, i, next)
    ensures InStep(next, members[j := []][i := members[i] + members[j]])
  {
    var slots := members[j := []][i := members[i] + members[j]];
    assert forall e :: e in slots[i] <==> e in members[i] || e in members[j];
    assert forall k :: 0 <= k < |slots| && k != i && k != j ==> slots[k] == members[k];
  }

  lemma UnionDrawnFrom(members: seq<seq<Entity>>, i: nat, j: nat)
    requires i != j && i < |members| && j < |members|
    ensures forall s :: DrawnFrom(members, s) ==> DrawnFrom(members[j := []][i := members[i] + members[j]], s)
  {
    var slots := members[j := []][i := members[i] + members[j]];
    assert forall k, e :: 0 <= k < |slots| && e in slots[k] ==> e in members[k] || e in members[j];
  }

  /** A pair of two entities not seen before opens a slot. */
  method OpenSlot(component: map<Id, nat>, members: seq<seq<Entity>>, a: Entity, b: Entity)
      returns (next: map<Id, nat>, slots: seq<seq<Entity>>)
    requires InStep(component, members) && a.id !in component && b.id !in component
    ensures InStep(next, slots) && Unites(component, a.id, b.id, next)
    ensures forall s :: DrawnFrom(members, s) ==> DrawnFrom(slots, s + {a, b})
  {
    next := component[a.id := |members|];
    next := next[b.id := |members|];
    slots := members + [[a, b]];
    NewSlotUnites(component, a.id, b.id, |members|);
    NewSlotInStep(component, members, a, b);
  }

  /** A pair with one known side puts the other in the slot of that side. */
  method JoinSlot(component: map<Id, nat>, members: seq<seq<Entity>>, known: Entity, new_: Entity)
      returns (next: map<Id, nat>, slots: seq<seq<Entity>>)
    requires InStep(component, members) && known.id in component && new_.id !in component
    ensures InStep(next, slots)
    ensures Unites(component, known.id, new_.id, next) && Unites(component, new_.id, known.id, next)
    ensures forall s :: DrawnFrom(members, s) ==> DrawnFrom(slots, s + {known, new_})
  {
    var i := component[known.id];
    next := component[new_.id := i];
    slots := members[i := members[i] + [new_]];
    JoinUnites(component, known.id, new_.id);
    JoinInStep(component, members, i, new_);
  }

  /** A pair across two slots empties the second into the first. */
  method UniteSlots(component: map<Id, nat>, members: seq<seq<Entity>>, a: Entity, b: Entity)
      returns (next: map<Id, nat>, slots: seq<seq<Entity>>)
    requires InStep(component, members) && a.id in component && b.id in component
    requires component[a.id] != component[b.id]
    ensures InStep(next, slots) && Unites(component, a.id, b.id, next)
    ensures forall s :: DrawnFrom(members, s) ==> DrawnFrom(slots, s)
  {
    var i, j := component[a.id], component[b.id];
    var moved := members[j];
    slots := members[j := []];
    next := Relabel(component, moved, i);
    slots := slots[i := slots[i] + moved];
    RelabelRenames(component, members, i, j, next);
    UnionUnites(component, a.id, b.id, next);
    UnionInStep(component, members, i, j, next);
    UnionDrawnFrom(members, i, j);
  }

  lemma RelabelRenames(component: map<Id, nat>, members: seq<seq<Entity>>, i: nat, j: nat, next: map<Id, nat>)
    requires InStep(component, members) && j < |members|
    requires next.Keys == component.Keys + Ids(members[j])
    requires forall x :: x in next ==> next[x] == if x in Ids(members[j]) then i else component[x]
    ensures Renames(component, j, i, next)
  {
    assert forall x :: x in Ids(members[j]) <==> x in component && component[x] == j;
  }

  /** One turn of the first loop: the four cases of two look-ups. */
  method FilePair(component: map<Id, nat>, members: seq<seq<Entity>>, a: Entity, b: Entity)
      returns (next: map<Id, nat>, slots: seq<seq<Entity>>)
    requires InStep(component, members)
    ensures InStep(next, slots) && Unites(component, a.id, b.id, next)
    ensures forall s :: DrawnFrom(members, s) ==> DrawnFrom(slots, s + {a, b})
  {
    if a.id !in component && b.id !in component {
      next, slots := OpenSlot(component, members, a, b);
    } else if b.id !in component {
      next, slots := JoinSlot(component, members, a, b);
    } else if a.id !in component {
      next, slots := JoinSlot(component, members, b, a);
      assert {b, a} == {a, b};
    } else if component[a.id] != component[b.id] {
      next, slots := UniteSlots(component, members, a, b);
    } else {
      next, slots := component, members;
    }
  }

  /** The first loop: labels and slots end up at the connected components. */
  method UniteByRelabelling(same: seq<(Entity, Entity)>)
      returns (component: map<Id, nat>, members: seq<seq<Entity>>)
    ensures Tracks(same, component, members)
  {
    component, members := map[], [];
    NothingTracked(same);
    for n := 0 to |same|
      invariant Tracks(same[..n], component, members)
    {
      var next, slots := FilePair(component, members, same[n].0, same[n].1);
      StepPair(same, n, component, members, next, slots);
      component, members := next, slots;
    }
    assert same[..|same|] == same;
  }

  lemma NothingTracked(same: seq<(Entity, Entity)>)
    ensures Tracks(same[..0], map[], [])
  {
    forall x, y ensures SameLabel(map[], x, y) <==> Connected(IdPairs(same[..0]), x, y) {
      ConnectedAlone(IdPairs(same[..0]), x, y);
    }
  }

  // ----- from slots to groups

  /** The ordered key a "different" verdict is filed under. */
  function DifferentKey(a: Id, b: Id): (Id, Id) {
    if a < b then (a, b) else (b, a)
  }

  predicate Contradicted(group: seq<Entity>, different: set<(Id, Id)>) {
    exists i, j :: 0 <= i < j < |group| && DifferentKey(group[i].id, group[j].id) in different
  }

  function Names(s: seq<Entity>): (names: seq<string>)
    ensures |names| == |s| && forall i :: 0 <= i < |s| ==> names[i] == s[i].name
  {
    seq(|s|, i requires 0 <= i < |s| => s[i].name)
  }

  function AsGroup(s: seq<Entity>): (g: Group)
    requires s != []
    ensures Members(g) == s
  {
    Group(s[0], s[1..])
  }

  /** The pairwise check over a sorted group sees a contradiction exactly when the set has one. */
  lemma ContradictedIffContradictory(group: seq<Entity>, different: set<(Id, Id)>)
    requires StrictlySorted(group) && Coherent(Elements(group))
    ensures Contradicted(group, different) <==> Contradictory(Elements(group), different)
  {
    if Contradicted(group, different) {
      var i, j :| 0 <= i < j < |group| && DifferentKey(group[i].id, group[j].id) in different;
      assert Before(group[i], group[j]);
      assert group[i] in Elements(group) && group[j] in Elements(group);
    }
    if Contradictory(Elements(group), different) {
      var a, b :| a in Elements(group) && b in Elements(group) && a.id < b.id && (a.id, b.id) in different;
      var i :| 0 <= i < |group| && group[i] == a;
      var j :| 0 <= j < |group| && group[j] == b;
      assert DifferentKey(group[i].id, group[j].id) == DifferentKey(group[j].id, group[i].id) == (a.id, b.id);
    }
  }

  lemma SlotIsComponent(same: seq<(Entity, Entity)>, component: map<Id, nat>, members: seq<seq<Entity>>,
                        i: nat, e: Entity)
    requires Tracks(same, component, members) && Coherent(EntitiesIn(same))
    requires i < |members| && e in members[i]
    ensures Elements(members[i]) == ComponentOf(same, e)
  {
    forall f | f in ComponentOf(same, e) ensures f in members[i] {
      assert SameLabel(component, e.id, f.id);
      var g :| g in members[i] && g.id == f.id;
      assert g in EntitiesIn(same);
    }
    forall f | f in members[i] ensures f in ComponentOf(same, e) {
      assert SameLabel(component, e.id, f.id);
    }
  }

  lemma EverySlotted(same: seq<(Entity, Entity)>, component: map<Id, nat>, members: seq<seq<Entity>>, e: Entity)
    requires Tracks(same, component, members) && Coherent(EntitiesIn(same))
    requires e in EntitiesIn(same)
    ensures e.id in component && component[e.id] < |members| && e in members[component[e.id]]
  {
    EntitiesMentioned(same, e);
    var i := component[e.id];
    var g :| g in members[i] && g.id == e.id;
    assert g in EntitiesIn(same);
  }

  lemma EntitiesMentioned(same: seq<(Entity, Entity)>, e: Entity)
    requires e in EntitiesIn(same)
    ensures e.id in Mentioned(IdPairs(same))
  {
    var i :| 0 <= i < |same| && (same[i].0 == e || same[i].1 == e);
    assert IdPairs(same)[i] in IdPairs(same);
  }

  ghost predicate FromSlot(members: seq<seq<Entity>>, i: int, s: seq<Entity>) {
    0 <= i < |members| && members[i] != [] && Canonical(members[i]) == s
  }

  ghost predicate Listed(members: seq<seq<Entity>>, n: nat, s: seq<Entity>) {
    exists i :: 0 <= i < n && FromSlot(members, i, s)
  }

  ghost predicate OneSlotEach(members: seq<seq<Entity>>) {
    forall i, j, s :: FromSlot(members, i, s) && FromSlot(members, j, s) ==> i == j
  }

  ghost predicate GroupsUpTo(members: seq<seq<Entity>>, n: nat, different: set<(Id, Id)>, groups: seq<Group>) {
    && (forall g :: g in groups <==> Listed(members, n, Members(g)) && !Contradicted(Members(g), different))
    && (forall i, j :: 0 <= i < j < |groups| ==> groups[i] != groups[j])
  }

  ghost predicate RefusedUpTo(members: seq<seq<Entity>>, n: nat, different: set<(Id, Id)>, refused: seq<seq<Entity>>) {
    && (forall s :: s in refused <==> Listed(members, n, s) && Contradicted(s, different))
    && (forall i, j :: 0 <= i < j < |refused| ==> refused[i] != refused[j])
  }

  lemma ListedNext(members: seq<seq<Entity>>, n: nat, s: seq<Entity>)
    ensures Listed(members, n + 1, s) <==> Listed(members, n, s) || FromSlot(members, n, s)
  {
  }

  lemma GroupsNext(members: seq<seq<Entity>>, n: nat, different: set<(Id, Id)>, groups: seq<Group>)
    requires n < |members| && OneSlotEach(members) && GroupsUpTo(members, n, different, groups)
    ensures GroupsUpTo(members, n + 1, different,
              if members[n] != [] && !Contradicted(Canonical(members[n]), different)
              then groups + [AsGroup(Canonical(members[n]))] else groups)
  {
    forall s ensures Listed(members, n + 1, s) <==> Listed(members, n, s) || FromSlot(members, n, s) {
      ListedNext(members, n, s);
    }
    if members[n] != [] {
      var group := Canonical(members[n]);
      assert FromSlot(members, n, group);
      assert forall s :: FromSlot(members, n, s) <==> s == group;
      assert forall h :: Members(h) == group <==> h == AsGroup(group);
    }
  }

  lemma NotListedBefore(members: seq<seq<Entity>>, n: nat)
    requires n < |members| && OneSlotEach(members) && members[n] != []
    ensures !Listed(members, n, Canonical(members[n]))
    ensures forall s :: FromSlot(members, n, s) <==> s == Canonical(members[n])
  {
    hide Canonical;
    assert FromSlot(members, n, Canonical(members[n]));
  }

  lemma RefusedNext(members: seq<seq<Entity>>, n: nat, different: set<(Id, Id)>, refused: seq<seq<Entity>>)
    requires n < |members| && OneSlotEach(members) && RefusedUpTo(members, n, different, refused)
    ensures RefusedUpTo(members, n + 1, different,
              if members[n] != [] && Contradicted(Canonical(members[n]), different)
              then refused + [Canonical(members[n])] else refused)
  {
    forall s ensures Listed(members, n + 1, s) <==> Listed(members, n, s) || FromSlot(members, n, s) {
      ListedNext(members, n, s);
    }
    if members[n] == [] {
      assert forall s :: !FromSlot(members, n, s);
      hide Listed, FromSlot, Contradicted, Canonical, OneSlotEach;
    } else {
      NotListedBefore(members, n);
      hide Listed, FromSlot, Contradicted, Canonical, OneSlotEach;
      var group := Canonical(members[n]);
      if Contradicted(group, different) {
        assert group !in refused;
        NoneTwiceSnoc(refused, group);
      }
    }
  }

  lemma NoneTwiceSnoc(s: seq<seq<Entity>>, x: seq<Entity>)
    requires x !in s && forall i, j :: 0 <= i < j < |s| ==> s[i] != s[j]
    ensures forall i, j :: 0 <= i < j < |s + [x]| ==> (s + [x])[i] != (s + [x])[j]
    ensures forall y :: y in s + [x] <==> y in s || y == x
  {
  }

  /** The second loop: each slot left non-empty is sorted, stripped of repetitions and either
      returned as a group or reported by its names. */
  method CollectGroups(members: seq<seq<Entity>>, different: set<(Id, Id)>)
      returns (groups: seq<Group>, rejected: seq<seq<string>>, ghost refused: seq<seq<Entity>>)
    requires OneSlotEach(members)
    ensures GroupsUpTo(members, |members|, different, groups)
    ensures RefusedUpTo(members, |members|, different, refused)
    ensures |rejected| == |refused| && forall i :: 0 <= i < |refused| ==> rejected[i] == Names(refused[i])
  {
    groups, rejected, refused := [], [], [];
    for n := 0 to |members|
      invariant GroupsUpTo(members, n, different, groups)
      invariant RefusedUpTo(members, n, different, refused)
      invariant |rejected| == |refused|
      invariant forall i :: 0 <= i < |refused| ==> rejected[i] == Names(refused[i])
    {
      GroupsNext(members, n, different, groups);
      RefusedNext(members, n, different, refused);
      if members[n] != [] {
        var group := Canonical(members[n]);
        if Contradicted(group, different) {
          rejected, refused := rejected + [Names(group)], refused + [group];
        } else {
          groups := groups + [AsGroup(group)];
        }
      }
    }
  }

  lemma SlotsDistinct(same: seq<(Entity, Entity)>, component: map<Id, nat>, members: seq<seq<Entity>>)
    requires Tracks(same, component, members) && Coherent(EntitiesIn(same))
    ensures OneSlotEach(members)
  {
    forall i, j, s | FromSlot(members, i, s) && FromSlot(members, j, s) ensures i == j {
      SlotCoherent(same, members, i);
      SlotCoherent(same, members, j);
      assert members[i][0] in Elements(members[j]);
    }
  }

  lemma SlotCoherent(same: seq<(Entity, Entity)>, members: seq<seq<Entity>>, i: nat)
    requires DrawnFrom(members, EntitiesIn(same)) && Coherent(EntitiesIn(same)) && i < |members|
    ensures Coherent(Elements(members[i]))
    ensures StrictlySorted(Canonical(members[i])) && Elements(Canonical(members[i])) == Elements(members[i])
  {
    CanonicalSorted(members[i]);
  }

  /** The canonical listings of the slots are the sorted listings of the components. */
  lemma SlotsListComponents(same: seq<(Entity, Entity)>, component: map<Id, nat>, members: seq<seq<Entity>>,
                            s: seq<Entity>)
    requires Tracks(same, component, members) && Coherent(EntitiesIn(same))
    ensures Listed(members, |members|, s) <==> StrictlySorted(s) && IsComponent(same, Elements(s))
  {
    if i :| FromSlot(members, i, s) {
      SlotCoherent(same, members, i);
      SlotIsComponent(same, component, members, i, members[i][0]);
    }
    if StrictlySorted(s) && IsComponent(same, Elements(s)) {
      var e :| e in EntitiesIn(same) && Elements(s) == ComponentOf(same, e);
      EverySlotted(same, component, members, e);
      var i := component[e.id];
      SlotCoherent(same, members, i);
      SlotIsComponent(same, component, members, i, e);
      SortedListingUnique(Canonical(members[i]), s);
      assert FromSlot(members, i, s);
    }
  }

  /** Exactly the sorted listings of the components without a contradiction are returned, each
      once; exactly those with one are reported. */
  method GroupsWithoutContradictions(same: seq<(Entity, Entity)>, different: set<(Id, Id)>)
      returns (groups: seq<Group>, rejected: seq<seq<string>>, ghost refused: seq<seq<Entity>>)
    requires Coherent(EntitiesIn(same))
    ensures forall g :: g in groups <==> IsReturned(same, different, g)
    ensures forall s :: s in refused <==> IsRefused(same, different, s)
    ensures forall i, j :: 0 <= i < j < |groups| ==> groups[i] != groups[j]
    ensures forall i, j :: 0 <= i < j < |refused| ==> refused[i] != refused[j]
    ensures |rejected| == |refused| && forall i :: 0 <= i < |refused| ==> rejected[i] == Names(refused[i])
  {
    var component, members := UniteByRelabelling(same);
    SlotsDistinct(same, component, members);
    groups, rejected, refused := CollectGroups(members, different);
    forall s ensures
      Listed(members, |members|, s) <==> StrictlySorted(s) && IsComponent(same, Elements(s))
    {
      SlotsListComponents(same, component, members, s);
    }
    forall s | StrictlySorted(s) && IsComponent(same, Elements(s))
      ensures Contradicted(s, different) <==> Contradictory(Elements(s), different)
    {
      ContradictedIffContradictory(s, different);
    }
  }

  // ----- what the characterisation gives a caller

  /** Every entity of a pair is in exactly one component, and that component has a listing. */
  lemma ComponentsPartition(same: seq<(Entity, Entity)>, e: Entity, f: Entity)
    requires e in EntitiesIn(same) && f in EntitiesIn(same)
    ensures e in ComponentOf(same, e)
    ensures if Connected(IdPairs(same), e.id, f.id)
            then ComponentOf(same, e) == ComponentOf(same, f)
            else ComponentOf(same, e) !! ComponentOf(same, f)
  {
    var pairs := IdPairs(same);
    ConnectedReflexive(pairs, e.id);
    forall x: Id, y: Id, z: Id | Connected(pairs, x, y) && Connected(pairs, y, z) ensures Connected(pairs, x, z) {
      ConnectedTransitive(pairs, x, y, z);
    }
    forall x: Id, y: Id | Connected(pairs, x, y) ensures Connected(pairs, y, x) {
      ConnectedSymmetric(pairs, x, y);
    }
  }

  /** Same unordered pairs, in any order, orientation or multiplicity. */
  ghost predicate SamePairs(same: seq<(Entity, Entity)>, other: seq<(Entity, Entity)>) {
    && (forall p :: p in same ==> p in other || (p.1, p.0) in other)
    && (forall p :: p in other ==> p in same || (p.1, p.0) in same)
  }

  lemma LinkedFromPairs(same: seq<(Entity, Entity)>, other: seq<(Entity, Entity)>, x: Id, y: Id)
    requires forall p :: p in same ==> p in other || (p.1, p.0) in other
    requires Linked(IdPairs(same), x, y)
    ensures Linked(IdPairs(other), x, y)
  {
    var i :| 0 <= i < |same| && (IdPairs(same)[i] == (x, y) || IdPairs(same)[i] == (y, x));
    assert same[i] in same;
    var j :| 0 <= j < |other| && (other[j] == same[i] || other[j] == (same[i].1, same[i].0));
    assert IdPairs(other)[j] in IdPairs(other);
  }

  lemma ComponentsFromPairs(same: seq<(Entity, Entity)>, other: seq<(Entity, Entity)>)
    requires SamePairs(same, other)
    ensures EntitiesIn(same) == EntitiesIn(other)
    ensures forall e :: ComponentOf(same, e) == ComponentOf(other, e)
  {
    forall x, y ensures Linked(IdPairs(same), x, y) <==> Linked(IdPairs(other), x, y) {
      if Linked(IdPairs(same), x, y) { LinkedFromPairs(same, other, x, y); }
      if Linked(IdPairs(other), x, y) { LinkedFromPairs(other, same, x, y); }
    }
    forall x, y ensures Connected(IdPairs(same), x, y) <==> Connected(IdPairs(other), x, y) {
      if Connected(IdPairs(same), x, y) { ConnectedMonotone(IdPairs(same), IdPairs(other), x, y); }
      if Connected(IdPairs(other), x, y) { ConnectedMonotone(IdPairs(other), IdPairs(same), x, y); }
    }
  }

  /** The groups and the refusals do not depend on the order, orientation or repetition of the
      "same" verdicts: winner and loser sequence included. */
  lemma GroupingIgnoresOrder(same: seq<(Entity, Entity)>, other: seq<(Entity, Entity)>, different: set<(Id, Id)>)
    requires SamePairs(same, other)
    ensures forall g :: IsReturned(same, different, g) <==> IsReturned(other, different, g)
    ensures forall s :: IsRefused(same, different, s) <==> IsRefused(other, different, s)
  {
    ComponentsFromPairs(same, other);
    assert forall s :: IsComponent(same, s) <==> IsComponent(other, s);
  }

  /** The winner has the most observations and, among those, the smallest id; two returned
      groups that share a member are one group. */
  lemma ReturnedGroups(same: seq<(Entity, Entity)>, different: set<(Id, Id)>, g: Group, h: Group, e: Entity)
    requires IsReturned(same, different, g) && IsReturned(same, different, h)
    requires e in Members(g) && e in Members(h)
    ensures g == h
    ensures e == g.winner || g.winner.obs > e.obs || (g.winner.obs == e.obs && g.winner.id < e.id)
  {
    var x :| x in EntitiesIn(same) && Elements(Members(g)) == ComponentOf(same, x);
    var y :| y in EntitiesIn(same) && Elements(Members(h)) == ComponentOf(same, y);
    assert e in Elements(Members(g)) && e in Elements(Members(h));
    ComponentsPartition(same, x, y);
    SortedListingUnique(Members(g), Members(h));
    assert g == AsGroup(Members(g)) && h == AsGroup(Members(h));
  }

  /** Two refused listings that share a member are one, and none shares a member with a returned
      group. */
  lemma RefusedGroups(same: seq<(Entity, Entity)>, different: set<(Id, Id)>, s: seq<Entity>, e: Entity)
    requires IsRefused(same, different, s) && e in s
    ensures forall r :: IsRefused(same, different, r) && e in r ==> r == s
    ensures forall g :: IsReturned(same, different, g) ==> e !in Members(g)
  {
    assert e in Elements(s);
    forall r | IsRefused(same, different, r) && e in r ensures r == s {
      assert e in Elements(r);
      SharedComponent(same, Elements(s), Elements(r), e);
      SortedListingUnique(s, r);
    }
    forall g | IsReturned(same, different, g) ensures e !in Members(g) {
      if e in Members(g) {
        assert e in Elements(Members(g));
        SharedComponent(same, Elements(s), Elements(Members(g)), e);
      }
    }
  }

  lemma SharedComponent(same: seq<(Entity, Entity)>, s: set<Entity>, t: set<Entity>, e: Entity)
    requires IsComponent(same, s) && IsComponent(same, t) && e in s && e in t
    ensures s == t
  {
    var x :| x in EntitiesIn(same) && s == ComponentOf(same, x);
    var y :| y in EntitiesIn(same) && t == ComponentOf(same, y);
    ComponentsPartition(same, x, y);
  }

  /** No entity is lost: one of its component's two fates is realised. */
  lemma NoneLost(same: seq<(Entity, Entity)>, different: set<(Id, Id)>,
                 groups: seq<Group>, refused: seq<seq<Entity>>, e: Entity)
    requires Coherent(EntitiesIn(same)) && e in EntitiesIn(same)
    requires forall g :: g in groups <==> IsReturned(same, different, g)
    requires forall s :: s in refused <==> IsRefused(same, different, s)
    ensures if Contradictory(ComponentOf(same, e), different)
            then exists s :: s in refused && e in s
            else exists g :: g in groups && e in Members(g)
  {
    var s := ListingOf(ComponentOf(same, e));
    ComponentsPartition(same, e, e);
    assert e in Elements(s);
    if !Contradictory(ComponentOf(same, e), different) {
      assert AsGroup(s) in groups;
    } else {
      assert s in refused;
    }
  }

  /** A finite coherent set has a strictly sorted listing. */
  lemma {:induction false} ListingOf(s: set<Entity>) returns (r: seq<Entity>)
    requires Coherent(s)
    ensures StrictlySorted(r) && Elements(r) == s
  {
    var listed := AnyListing(s);
    CanonicalSorted(listed);
    r := Canonical(listed);
  }

  lemma AnyListing(s: set<Entity>) returns (r: seq<Entity>)
    ensures Elements(r) == s
  {
    if s == {} {
      r := [];
    } else {
      var e :| e in s;
      var rest := AnyListing(s - {e});
      r := [e] + rest;
      assert Elements(r) == {e} + Elements(rest);
    }
  }
}
