/** A deduplication run from the rows it reads to the store it leaves: exact groups, candidate
    pairs, verdicts, groups without contradictions, merges. */
module Dedupe {
  import opened Wrappers
  import opened Connectivity
  import opened Grouping
  import opened Merging
  import opened Planning
  import opened Execution

  /** What becomes of a judge's answer: confident enough to merge; the same but not confidently
      so, or no answer at all; anything else, an unreadable answer included. */
  datatype Verdict = Same | Unsure | Different

  function Find(entities: seq<Entity>, id: Id): (r: Option<Entity>)
    ensures r.Some? ==> r.value in entities && r.value.id == id
    ensures r.None? ==> forall e :: e in entities ==> e.id != id
  {
    if entities == [] then None
    else if entities[0].id == id then Some(entities[0])
    else Find(entities[1..], id)
  }

  /** What a run reads: the entities, the rows of the similarity query, the judge, and whether it is
      asked. */
  datatype Input = Input(entities: seq<Entity>, normalize: string -> string, rows: seq<(Id, Id)>,
                         judge: (Entity, Entity) -> Verdict, judged: bool)

  predicate LosesIn(groups: seq<Group>, id: Id) {
    exists g :: g in groups && exists l :: l in g.losers && l.id == id
  }

  ghost predicate AbsorbedExactly(input: Input, id: Id) {
    exists g :: IsExact(input.entities, input.normalize, g) && exists l :: l in g.losers && l.id == id
  }

  /** A pair of the query that no exact group settles. */
  ghost predicate IsCandidate(input: Input, p: (Entity, Entity)) {
    && (p.0.id, p.1.id) in input.rows && p.0 in input.entities && p.1 in input.entities
    && !AbsorbedExactly(input, p.0.id) && !AbsorbedExactly(input, p.1.id)
    && input.normalize(p.0.name) != input.normalize(p.1.name)
  }

  method LikelyPairs(input: Input, exact: seq<Group>) returns (likely: seq<(Entity, Entity)>)
    requires DistinctIds(input.entities)
    requires forall g :: g in exact <==> IsExact(input.entities, input.normalize, g)
    ensures forall p :: p in likely <==> IsCandidate(input, p)
  {
    likely := [];
    var rows := input.rows;
    for n := 0 to |rows|
      invariant forall p :: p in likely <==> IsCandidate(input.(rows := rows[..n]), p)
    {
      var (a, b) := rows[n];
      LosesExactly(input, exact, a);
      LosesExactly(input, exact, b);
      RowsNext(input, n);
      if !LosesIn(exact, a) && !LosesIn(exact, b) {
        var ea, eb := Find(input.entities, a), Find(input.entities, b);
        if ea.Some? && eb.Some? && input.normalize(ea.value.name) != input.normalize(eb.value.name) {
          likely := likely + [(ea.value, eb.value)];
        }
      }
    }
    assert rows[..|rows|] == rows && input.(rows := rows) == input;
  }

  lemma LosesExactly(input: Input, exact: seq<Group>, id: Id)
    requires forall g :: g in exact <==> IsExact(input.entities, input.normalize, g)
    ensures LosesIn(exact, id) <==> AbsorbedExactly(input, id)
  {
    hide IsExact;
  }

  lemma RowsNext(input: Input, n: nat)
    requires n < |input.rows|
    ensures forall p :: IsCandidate(input.(rows := input.rows[..n+1]), p) <==>
      IsCandidate(input.(rows := input.rows[..n]), p) || ((p.0.id, p.1.id) == input.rows[n] && IsCandidate(input, p))
  {
    hide IsExact;
    var more, fewer := input.(rows := input.rows[..n+1]), input.(rows := input.rows[..n]);
    assert more.rows == fewer.rows + [input.rows[n]];
    forall id ensures AbsorbedExactly(more, id) <==> AbsorbedExactly(input, id) {}
    forall id ensures AbsorbedExactly(fewer, id) <==> AbsorbedExactly(input, id) {}
  }

  /** Of the pairs put to the judge, p was called the same, in the orientation the run files it
      under. */
  ghost predicate CalledSame(likely: seq<(Entity, Entity)>, judge: (Entity, Entity) -> Verdict, p: (Entity, Entity)) {
    exists q :: q in likely && judge(q.0, q.1).Same? && p == Oriented(q)
  }

  ghost predicate CalledDifferent(likely: seq<(Entity, Entity)>, judge: (Entity, Entity) -> Verdict, k: (Id, Id)) {
    exists q :: q in likely && judge(q.0, q.1).Different? && k == DifferentKey(q.0.id, q.1.id)
  }

  function Oriented(p: (Entity, Entity)): (Entity, Entity) {
    if p.0.obs >= p.1.obs then p else (p.1, p.0)
  }

  /** Every pair called the same is filed, the side with at least as many observations first, and
      nothing else is. */
  ghost predicate SameFiled(likely: seq<(Entity, Entity)>, judge: (Entity, Entity) -> Verdict, same: seq<(Entity, Entity)>) {
    && (forall q :: q in likely && judge(q.0, q.1).Same? ==>
          if q.0.obs >= q.1.obs then q in same else (q.1, q.0) in same)
    && (forall p :: p in same ==>
          && p.0.obs >= p.1.obs
          && ((p in likely && judge(p.0, p.1).Same?) || ((p.1, p.0) in likely && judge(p.1, p.0).Same?)))
  }

  /** Every pair called different is filed, the smaller id first, and nothing else is. */
  ghost predicate DifferentFiled(likely: seq<(Entity, Entity)>, judge: (Entity, Entity) -> Verdict, different: set<(Id, Id)>) {
    && (forall q :: q in likely && judge(q.0, q.1).Different? ==>
          if q.0.id < q.1.id then (q.0.id, q.1.id) in different else (q.1.id, q.0.id) in different)
    && (forall k :: k in different ==>
          k.0 <= k.1 && exists q :: q in likely && AreSides(q, k) && judge(q.0, q.1).Different?)
  }

  predicate AreSides(q: (Entity, Entity), k: (Id, Id)) {
    k == (q.0.id, q.1.id) || k == (q.1.id, q.0.id)
  }

  method Verdicts(likely: seq<(Entity, Entity)>, judge: (Entity, Entity) -> Verdict)
      returns (same: seq<(Entity, Entity)>, different: set<(Id, Id)>)
    ensures forall p :: p in same <==> CalledSame(likely, judge, p)
    ensures forall k :: k in different <==> CalledDifferent(likely, judge, k)
    ensures SameFiled(likely, judge, same)
    ensures DifferentFiled(likely, judge, different)
  {
    same, different := [], {};
    for n := 0 to |likely|
      invariant forall p :: p in same <==> CalledSame(likely[..n], judge, p)
      invariant forall k :: k in different <==> CalledDifferent(likely[..n], judge, k)
    {
      VerdictNext(likely, judge, n);
      var (a, b) := likely[n];
      match judge(a, b) {
        case Same => same := same + [Oriented((a, b))];
        case Unsure =>
        case Different => different := different + {DifferentKey(a.id, b.id)};
      }
    }
    assert likely[..|likely|] == likely;
    SameIs(likely, judge, same);
    DifferentIs(likely, judge, different);
  }

  lemma SameIs(likely: seq<(Entity, Entity)>, judge: (Entity, Entity) -> Verdict, same: seq<(Entity, Entity)>)
    requires forall p :: p in same <==> CalledSame(likely, judge, p)
    ensures SameFiled(likely, judge, same)
  {
    forall q | q in likely && judge(q.0, q.1).Same?
      ensures if q.0.obs >= q.1.obs then q in same else (q.1, q.0) in same
    {
      assert CalledSame(likely, judge, Oriented(q));
    }
  }

  lemma DifferentIs(likely: seq<(Entity, Entity)>, judge: (Entity, Entity) -> Verdict, different: set<(Id, Id)>)
    requires forall k :: k in different <==> CalledDifferent(likely, judge, k)
    ensures DifferentFiled(likely, judge, different)
  {
    forall q | q in likely && judge(q.0, q.1).Different?
      ensures if q.0.id < q.1.id then (q.0.id, q.1.id) in different else (q.1.id, q.0.id) in different
    {
      assert CalledDifferent(likely, judge, DifferentKey(q.0.id, q.1.id));
    }
  }

  lemma VerdictNext(likely: seq<(Entity, Entity)>, judge: (Entity, Entity) -> Verdict, n: nat)
    requires n < |likely|
    ensures forall p :: CalledSame(likely[..n+1], judge, p) <==>
      CalledSame(likely[..n], judge, p) || (judge(likely[n].0, likely[n].1).Same? && p == Oriented(likely[n]))
    ensures forall k :: CalledDifferent(likely[..n+1], judge, k) <==>
      CalledDifferent(likely[..n], judge, k) ||
      (judge(likely[n].0, likely[n].1).Different? && k == DifferentKey(likely[n].0.id, likely[n].1.id))
  {
    var more, last := likely[..n+1], likely[n];
    assert more == likely[..n] + [last];
    assert last in more;
    forall p ensures CalledSame(more, judge, p) <==>
      CalledSame(likely[..n], judge, p) || (judge(last.0, last.1).Same? && p == Oriented(last))
    {
      if CalledSame(likely[..n], judge, p) {
        var q :| q in likely[..n] && judge(q.0, q.1).Same? && p == Oriented(q);
        assert q in more;
      }
    }
    forall k ensures CalledDifferent(more, judge, k) <==>
      CalledDifferent(likely[..n], judge, k) || (judge(last.0, last.1).Different? && k == DifferentKey(last.0.id, last.1.id))
    {
      if CalledDifferent(likely[..n], judge, k) {
        var q :| q in likely[..n] && judge(q.0, q.1).Different? && k == DifferentKey(q.0.id, q.1.id);
        assert q in more;
      }
    }
  }

  // ----- what a run decides before it touches the store

  ghost predicate JudgedSame(input: Input, p: (Entity, Entity)) {
    exists q :: IsCandidate(input, q) && input.judge(q.0, q.1).Same? && p == Oriented(q)
  }

  ghost predicate JudgedDifferent(input: Input, k: (Id, Id)) {
    exists q :: IsCandidate(input, q) && input.judge(q.0, q.1).Different? && k == DifferentKey(q.0.id, q.1.id)
  }

  ghost predicate NoneTwice(groups: seq<Group>) {
    forall i, j :: 0 <= i < j < |groups| ==> groups[i] != groups[j]
  }

  ghost predicate DecidedAs(input: Input, groups: seq<Group>, exact: seq<Group>, agreed: seq<Group>,
                            same: seq<(Entity, Entity)>, different: set<(Id, Id)>) {
    && groups == exact + agreed && NoneTwice(exact) && NoneTwice(agreed)
    && (forall g :: g in exact <==> IsExact(input.entities, input.normalize, g))
    && (forall p :: p in same <==> input.judged && JudgedSame(input, p))
    && (forall k :: k in different <==> input.judged && JudgedDifferent(input, k))
    && (forall g :: g in agreed <==> input.judged && IsReturned(same, different, g))
  }

  /** The exact groups, then, when the judge is asked, the contradiction-free components of what it
      called the same. */
  ghost predicate Decided(input: Input, groups: seq<Group>) {
    exists exact, agreed, same, different :: DecidedAs(input, groups, exact, agreed, same, different)
  }

  lemma DecidedRunGroups(input: Input, groups: seq<Group>, exact: seq<Group>, agreed: seq<Group>,
                         same: seq<(Entity, Entity)>, different: set<(Id, Id)>)
    requires DecidedAs(input, groups, exact, agreed, same, different)
    ensures RunGroups(input.entities, input.normalize, exact, same, different, agreed)
  {
    hide IsExact, IsReturned;
    forall e | e in EntitiesIn(same)
      ensures e in input.entities && forall g, l :: g in exact && l in g.losers ==> l.id != e.id
    {
      var p :| p in same && (p.0 == e || p.1 == e);
      assert JudgedSame(input, p);
      assert e in input.entities && !AbsorbedExactly(input, e.id);
    }
  }

  /** Decisions of one input hold the same groups: neither the order of the rows, nor of the map
      that gathers exact names, nor of the verdicts shows in them. */
  lemma DecisionIsDetermined(input: Input, groups: seq<Group>, others: seq<Group>)
    requires Decided(input, groups) && Decided(input, others)
    ensures forall g :: g in groups <==> g in others
  {
    var exact, agreed, same, different :| DecidedAs(input, groups, exact, agreed, same, different);
    var exact', agreed', same', different' :| DecidedAs(input, others, exact', agreed', same', different');
    hide IsExact, JudgedSame, JudgedDifferent;
    assert different == different';
    GroupingIgnoresOrder(same, same', different);
    hide IsReturned;
    forall g ensures g in groups <==> g in others {
      assert g in groups <==> g in exact || g in agreed;
      assert g in others <==> g in exact' || g in agreed';
    }
  }

  /** Whatever the judge says, what is decided amounts to a well-formed plan over known entities. */
  lemma DecidedPlan(input: Input, groups: seq<Group>)
    requires DistinctIds(input.entities) && Decided(input, groups)
    ensures WellFormed(Plan(groups)) && forall g :: g in groups ==> Proper(g)
    ensures forall m :: m in Plan(groups) ==> m.loser in input.entities && m.winner in input.entities
  {
    var exact, agreed, same, different :| DecidedAs(input, groups, exact, agreed, same, different);
    DecidedRunGroups(input, groups, exact, agreed, same, different);
    RunPlanWellFormed(input.entities, input.normalize, exact, same, different, agreed);
    ProperGroups(input.entities, input.normalize, exact, same, different, agreed);
  }

  /** A pair the judge called the same ends in one agreed group, with both sides, unless the judge
      contradicted himself about what it is connected to; one side without the other never does. */
  lemma CalledSameStayTogether(input: Input, groups: seq<Group>, exact: seq<Group>, agreed: seq<Group>,
                               same: seq<(Entity, Entity)>, different: set<(Id, Id)>, q: (Entity, Entity))
    requires DistinctIds(input.entities) && DecidedAs(input, groups, exact, agreed, same, different)
    requires input.judged && IsCandidate(input, q) && input.judge(q.0, q.1).Same?
    ensures forall g :: g in agreed ==> (q.0 in Members(g) <==> q.1 in Members(g))
    ensures Contradictory(ComponentOf(same, q.0), different) || exists g :: g in agreed && q.0 in Members(g) && q.1 in Members(g)
  {
    assert JudgedSame(input, Oriented(q));
    SidesConnected(same, Oriented(q));
    assert q.0 in EntitiesIn(same) && q.1 in EntitiesIn(same) && ComponentOf(same, q.0) == ComponentOf(same, q.1);
    SameCoherent(input, same);
    hide IsExact, IsCandidate, JudgedSame, JudgedDifferent, DistinctIds;
    forall g | g in agreed ensures q.0 in Members(g) <==> q.1 in Members(g) {
      ComponentsHoldBoth(same, Elements(Members(g)), q.0, q.1);
      assert q.0 in Members(g) <==> q.0 in Elements(Members(g));
      assert q.1 in Members(g) <==> q.1 in Elements(Members(g));
    }
    if !Contradictory(ComponentOf(same, q.0), different) {
      var g := ReturnedFor(same, different, q.0);
      assert g in agreed;
      assert q.0 in Members(g);
    }
  }

  lemma SidesConnected(same: seq<(Entity, Entity)>, p: (Entity, Entity))
    requires p in same
    ensures p.0 in EntitiesIn(same) && p.1 in EntitiesIn(same) && ComponentOf(same, p.0) == ComponentOf(same, p.1)
  {
    var i :| 0 <= i < |same| && same[i] == p;
    assert IdPairs(same)[i] == (p.0.id, p.1.id);
    ConnectedEdge(IdPairs(same), p.0.id, p.1.id);
    ComponentsPartition(same, p.0, p.1);
  }

  lemma ComponentsHoldBoth(same: seq<(Entity, Entity)>, s: set<Entity>, a: Entity, b: Entity)
    requires IsComponent(same, s) && a in EntitiesIn(same) && b in EntitiesIn(same)
    requires ComponentOf(same, a) == ComponentOf(same, b)
    ensures a in s <==> b in s
  {
    ComponentsPartition(same, a, a);
    ComponentsPartition(same, b, b);
    if a in s {
      SharedComponent(same, s, ComponentOf(same, a), a);
    }
    if b in s {
      SharedComponent(same, s, ComponentOf(same, b), b);
    }
  }

  lemma ReturnedFor(same: seq<(Entity, Entity)>, different: set<(Id, Id)>, e: Entity) returns (g: Group)
    requires Coherent(EntitiesIn(same)) && e in EntitiesIn(same) && !Contradictory(ComponentOf(same, e), different)
    ensures IsReturned(same, different, g) && e in Members(g)
  {
    var s := ListingOf(ComponentOf(same, e));
    ComponentsPartition(same, e, e);
    assert e in Elements(s);
    g := AsGroup(s);
  }

  /** No agreed group holds both sides of a pair the judge called different. */
  lemma CalledDifferentStayApart(input: Input, groups: seq<Group>, exact: seq<Group>, agreed: seq<Group>,
                                 same: seq<(Entity, Entity)>, different: set<(Id, Id)>, q: (Entity, Entity), g: Group)
    requires DecidedAs(input, groups, exact, agreed, same, different) && g in agreed
    requires IsCandidate(input, q) && input.judge(q.0, q.1).Different? && q.0.id != q.1.id
    ensures q.0 !in Members(g) || q.1 !in Members(g)
  {
    assert JudgedDifferent(input, DifferentKey(q.0.id, q.1.id));
    hide IsExact, IsCandidate, JudgedSame, IsComponent, Contradictory;
    if q.0 in Members(g) && q.1 in Members(g) {
      BothContradict(Elements(Members(g)), different, q);
    }
  }

  lemma BothContradict(s: set<Entity>, different: set<(Id, Id)>, q: (Entity, Entity))
    requires q.0 in s && q.1 in s && q.0.id != q.1.id && DifferentKey(q.0.id, q.1.id) in different
    ensures Contradictory(s, different)
  {
  }

  // ----- a run that stops half way

  /** Three entities, two of one name, and a judge that calls the richest of all the same as the
      richer namesake. */
  function NamesakeInput(keeper: Entity, namesake: Entity, other: Entity, normalize: string -> string): Input {
    Input([keeper, namesake, other], normalize, [(keeper.id, other.id)], (a, b) => Same, true)
  }

  ghost predicate Namesakes(keeper: Entity, namesake: Entity, other: Entity, normalize: string -> string) {
    && keeper.id < other.id && namesake.id !in {keeper.id, other.id}
    && keeper.name == namesake.name && normalize(other.name) != normalize(keeper.name)
    && Before(keeper, namesake) && other.obs > keeper.obs
  }

  lemma PairListing(a: Entity, b: Entity, g: Group)
    requires Before(a, b) && StrictlySorted(Members(g)) && Elements(Members(g)) == {a, b}
    ensures g == Group(a, [b])
  {
    assert Elements([a, b]) == {a, b};
    SortedListingUnique(Members(g), [a, b]);
    assert g == AsGroup(Members(g)) && [a, b][1..] == [b];
  }

  lemma NamesakesAreExact(keeper: Entity, namesake: Entity, other: Entity, normalize: string -> string, g: Group)
    requires Namesakes(keeper, namesake, other, normalize)
    ensures IsExact([keeper, namesake, other], normalize, g) <==> g == Group(keeper, [namesake])
  {
    var entities := [keeper, namesake, other];
    assert Class(entities, normalize, normalize(keeper.name)) == {keeper, namesake};
    assert Class(entities, normalize, normalize(other.name)) == {other};
    if IsExact(entities, normalize, g) {
      assert g.winner in Elements(Members(g)) && g.losers[0] in Elements(Members(g));
      assert g.winner != g.losers[0] by {
        assert Before(Members(g)[0], Members(g)[1]);
      }
      PairListing(keeper, namesake, g);
    }
    assert Elements(Members(Group(keeper, [namesake]))) == {keeper, namesake};
  }

  lemma OtherIsReturned(keeper: Entity, other: Entity, same: seq<(Entity, Entity)>, g: Group)
    requires other.obs > keeper.obs && keeper.id != other.id
    requires forall p :: p in same <==> p == (other, keeper)
    ensures IsReturned(same, {}, g) <==> g == Group(other, [keeper])
  {
    assert (other, keeper) in same;
    assert EntitiesIn(same) == {keeper, other};
    ConnectedEdge(IdPairs(same), other.id, keeper.id);
    ConnectedSymmetric(IdPairs(same), other.id, keeper.id);
    ConnectedReflexive(IdPairs(same), other.id);
    ConnectedReflexive(IdPairs(same), keeper.id);
    assert ComponentOf(same, other) == {keeper, other} && ComponentOf(same, keeper) == {keeper, other};
    if IsReturned(same, {}, g) {
      PairListing(other, keeper, g);
    }
    assert Elements(Members(Group(other, [keeper]))) == {keeper, other};
  }

  lemma OneCandidate(keeper: Entity, namesake: Entity, other: Entity, normalize: string -> string, q: (Entity, Entity))
    requires Namesakes(keeper, namesake, other, normalize)
    ensures IsCandidate(NamesakeInput(keeper, namesake, other, normalize), q) <==> q == (keeper, other)
  {
    var input := NamesakeInput(keeper, namesake, other, normalize);
    forall g ensures IsExact(input.entities, normalize, g) <==> g == Group(keeper, [namesake]) {
      NamesakesAreExact(keeper, namesake, other, normalize, g);
    }
    hide IsExact;
    assert !AbsorbedExactly(input, keeper.id) && !AbsorbedExactly(input, other.id);
    assert input.rows == [(keeper.id, other.id)];
  }

  lemma OneVerdict(keeper: Entity, namesake: Entity, other: Entity, normalize: string -> string)
    requires Namesakes(keeper, namesake, other, normalize)
    ensures forall p :: JudgedSame(NamesakeInput(keeper, namesake, other, normalize), p) <==> p == (other, keeper)
    ensures forall k :: !JudgedDifferent(NamesakeInput(keeper, namesake, other, normalize), k)
  {
    var input := NamesakeInput(keeper, namesake, other, normalize);
    forall q ensures IsCandidate(input, q) <==> q == (keeper, other) {
      OneCandidate(keeper, namesake, other, normalize, q);
    }
    hide IsCandidate;
    assert IsCandidate(input, (keeper, other)) && Oriented((keeper, other)) == (other, keeper);
  }

  lemma OnlyOne(groups: seq<Group>, g: Group)
    requires NoneTwice(groups) && forall h :: h in groups <==> h == g
    ensures groups == [g]
  {
    forall j | 0 <= j < |groups| ensures groups[j] == g && j == 0 {
      assert groups[0] in groups && groups[j] in groups;
    }
    assert g in groups;
    assert groups[|groups| - 1] == g;
  }

  /** What is decided there, and that alone, is to merge the namesake into its keeper and the keeper
      into the other. Over a store without aliases the second merge fails. */
  lemma NamesakeRunStops(keeper: Entity, namesake: Entity, other: Entity, normalize: string -> string, groups: seq<Group>)
    requires Namesakes(keeper, namesake, other, normalize)
    ensures Decided(NamesakeInput(keeper, namesake, other, normalize), groups) <==>
      groups == [Group(keeper, [namesake]), Group(other, [keeper])]
    ensures Decided(NamesakeInput(keeper, namesake, other, normalize), groups) ==>
      Plan(groups) == [Merge(namesake, keeper), Merge(keeper, other)] && !NamesApart({}, Plan(groups))
  {
    var input, first, second := NamesakeInput(keeper, namesake, other, normalize), Group(keeper, [namesake]), Group(other, [keeper]);
    OneVerdict(keeper, namesake, other, normalize);
    forall g ensures IsExact(input.entities, normalize, g) <==> g == first {
      NamesakesAreExact(keeper, namesake, other, normalize, g);
    }
    hide IsExact, IsReturned, JudgedSame, JudgedDifferent, NamesApart;
    if Decided(input, groups) {
      var exact, agreed, same, different :| DecidedAs(input, groups, exact, agreed, same, different);
      assert different == {};
      forall g ensures IsReturned(same, different, g) <==> g == second {
        OtherIsReturned(keeper, other, same, g);
      }
      OnlyOne(exact, first);
      OnlyOne(agreed, second);
    }
    var same := [(other, keeper)];
    forall g ensures IsReturned(same, {}, g) <==> g == second {
      OtherIsReturned(keeper, other, same, g);
    }
    assert [first] + [second] == [first, second];
    assert DecidedAs(input, [first, second], [first], [second], same, {});
    PlanOfTwo(first, second);
    NamesakeChainFails(keeper, namesake, other);
  }

  lemma PlanOfTwo(first: Group, second: Group)
    ensures Plan([first, second]) == MergesOf(first) + MergesOf(second)
  {
    var groups := [first, second];
    assert groups[..1] == [first] && [first][..0] == [];
    assert Plan([first]) == [] + MergesOf(first);
  }

  lemma AsJudged(input: Input, likely: seq<(Entity, Entity)>, same: seq<(Entity, Entity)>, different: set<(Id, Id)>)
    requires forall p :: p in likely <==> IsCandidate(input, p)
    requires forall p :: p in same <==> CalledSame(likely, input.judge, p)
    requires forall k :: k in different <==> CalledDifferent(likely, input.judge, k)
    ensures forall p :: p in same <==> JudgedSame(input, p)
    ensures forall k :: k in different <==> JudgedDifferent(input, k)
  {
    hide IsCandidate;
  }

  lemma AsDecided(input: Input, exact: seq<Group>, agreed: seq<Group>, same: seq<(Entity, Entity)>, different: set<(Id, Id)>)
    requires NoneTwice(exact) && NoneTwice(agreed)
    requires forall g :: g in exact <==> IsExact(input.entities, input.normalize, g)
    requires forall p :: p in same <==> input.judged && JudgedSame(input, p)
    requires forall k :: k in different <==> input.judged && JudgedDifferent(input, k)
    requires forall g :: g in agreed <==> input.judged && IsReturned(same, different, g)
    ensures Decided(input, exact + agreed)
  {
    hide IsExact, IsReturned, JudgedSame, JudgedDifferent, NoneTwice;
    assert DecidedAs(input, exact + agreed, exact, agreed, same, different);
  }

  method Assemble(input: Input) returns (groups: seq<Group>)
    requires DistinctIds(input.entities)
    ensures Decided(input, groups)
  {
    hide IsExact, IsReturned, IsCandidate, JudgedSame, JudgedDifferent, CalledSame, CalledDifferent, SameFiled, DifferentFiled, Decided;
    var exact := ExactGroups(input.entities, input.normalize);
    var likely := LikelyPairs(input, exact);
    var agreed: seq<Group> := [];
    var same: seq<(Entity, Entity)>, different: set<(Id, Id)> := [], {};
    if input.judged {
      same, different := Verdicts(likely, input.judge);
      AsJudged(input, likely, same, different);
      SameCoherent(input, same);
      var rejected;
      ghost var refused;
      agreed, rejected, refused := GroupsWithoutContradictions(same, different);
    }
    groups := exact + agreed;
    AsDecided(input, exact, agreed, same, different);
  }

  lemma SameCoherent(input: Input, same: seq<(Entity, Entity)>)
    requires DistinctIds(input.entities) && forall p :: p in same <==> JudgedSame(input, p)
    ensures Coherent(EntitiesIn(same))
  {
    forall e | e in EntitiesIn(same) ensures e in input.entities {
      var p :| p in same && (p.0 == e || p.1 == e);
      assert JudgedSame(input, p);
    }
  }

  /** A run. Dry, it changes nothing. Applied, it leaves the store after a prefix of the plan it
      decided, and after all of it exactly when the names on that plan stay apart. */
  method Run(store: Store, input: Input, apply: bool) returns (ok: bool, merged: nat, groups: seq<Group>)
    requires DistinctIds(input.entities)
    requires forall e :: e in input.entities ==> e.id in store.db.entities
    modifies store
    ensures Decided(input, groups) && WellFormed(Plan(groups)) && merged <= |Plan(groups)|
    ensures store.db == After(old(store.db), Plan(groups)[..merged])
    ensures if apply then ok <==> merged == |Plan(groups)| else ok && merged == 0
    ensures apply ==> (ok <==> NamesApart(old(store.db).aliases, Plan(groups)))
    ensures merged > 0 ==> Quotient(old(store.db), store.db, Along(Plan(groups)[..merged]))
  {
    hide Decided, Quotient, NamesApart;
    groups := Assemble(input);
    DecidedPlan(input, groups);
    ghost var before, plan := store.db, Plan(groups);
    if !apply {
      AfterNothing(before);
      assert plan[..0] == [];
      return true, 0, groups;
    }
    ok, merged := ApplyPlan(store, groups);
    WentThrough(before, plan, merged);
    AfterRan(before, plan[..merged]);
  }
}
