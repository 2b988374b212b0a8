/** Running a plan of merges over the store, and what the store is afterwards: the quotient of
    what it was by the composed loser-to-winner map. */
module Execution {
  import opened Connectivity
  import opened Grouping
  import opened Merging
  import opened Planning

  // ----- the composed map

  /** Where an id ends after the merges of a plan. */
  function Final(plan: seq<Merge>, x: Id): Id {
    if plan == [] then x
    else
      var m := plan[|plan|-1];
      Move(m.loser.id, m.winner.id, Final(plan[..|plan|-1], x))
  }

  function Along(plan: seq<Merge>): Id -> Id {
    (x: Id) => Final(plan, x)
  }

  ghost function Absorbed(plan: seq<Merge>): set<Id> {
    set m | m in plan :: m.loser.id
  }

  lemma Prefix(plan: seq<Merge>)
    requires WellFormed(plan) && plan != []
    ensures var init, m := plan[..|plan|-1], plan[|plan|-1];
      && WellFormed(init) && m.loser.id != m.winner.id
      && m.loser.id !in Absorbed(init) && m.winner.id !in Absorbed(init)
      && Absorbed(plan) == Absorbed(init) + {m.loser.id}
  {
    var init, m := plan[..|plan|-1], plan[|plan|-1];
    assert plan == init + [m];
  }

  /** Every chain of a well-formed plan ends at somebody nobody absorbed, and whoever was not
      absorbed stays put. */
  lemma {:induction false} FinalSurvives(plan: seq<Merge>, x: Id)
    requires WellFormed(plan)
    ensures Final(plan, x) !in Absorbed(plan)
    ensures x !in Absorbed(plan) ==> Final(plan, x) == x
    decreases |plan|
  {
    if plan != [] {
      Prefix(plan);
      FinalSurvives(plan[..|plan|-1], x);
    }
  }

  /** An end of a chain is a survivor of the store. */
  lemma {:induction false} FinalKnown(plan: seq<Merge>, x: Id, ids: set<Id>)
    requires x in ids && forall m :: m in plan ==> m.winner.id in ids
    ensures Final(plan, x) in ids
    decreases |plan|
  {
    if plan != [] {
      FinalKnown(plan[..|plan|-1], x, ids);
    }
  }

  // ----- aliases

  function AliasesAfter(aliases: set<(Id, string)>, plan: seq<Merge>): set<(Id, string)> {
    if plan == [] then aliases
    else AliasesMerged(AliasesAfter(aliases, plan[..|plan|-1]), plan[|plan|-1])
  }

  /** The old aliases under the composed map, and each absorbed name at the end of its chain. */
  ghost function AliasesFollowed(aliases: set<(Id, string)>, plan: seq<Merge>, s: Id -> Id): set<(Id, string)> {
    (set a | a in aliases :: (s(a.0), a.1)) + (set m | m in plan :: (s(m.loser.id), m.loser.name))
  }

  lemma {:induction false} AliasesFollowChains(aliases: set<(Id, string)>, plan: seq<Merge>)
    requires WellFormed(plan)
    ensures AliasesAfter(aliases, plan) == AliasesFollowed(aliases, plan, Along(plan))
    decreases |plan|
  {
    if plan == [] {
      AliasesFollowNone(aliases);
    } else {
      var init, m := plan[..|plan|-1], plan[|plan|-1];
      Prefix(plan);
      AliasesFollowChains(aliases, init);
      FinalSurvives(init, m.loser.id);
      assert plan == init + [m];
      AliasesFollowStep(aliases, init, m);
    }
  }

  lemma AliasesFollowNone(aliases: set<(Id, string)>)
    ensures AliasesFollowed(aliases, [], Along([])) == aliases
  {
    forall a | a in aliases ensures a in AliasesFollowed(aliases, [], Along([])) {
      assert a == (Along([])(a.0), a.1);
    }
  }

  lemma AliasesFollowStep(aliases: set<(Id, string)>, init: seq<Merge>, m: Merge)
    requires Final(init, m.loser.id) == m.loser.id
    ensures AliasesMerged(AliasesFollowed(aliases, init, Along(init)), m) ==
      AliasesFollowed(aliases, init + [m], Along(init + [m]))
  {
    var plan := init + [m];
    assert plan[..|plan|-1] == init;
    assert forall x :: Along(plan)(x) == Move(m.loser.id, m.winner.id, Along(init)(x));
    var before, after := AliasesFollowed(aliases, init, Along(init)), AliasesFollowed(aliases, plan, Along(plan));
    forall b | b in AliasesMerged(before, m) ensures b in after {
      if b == (m.winner.id, m.loser.name) {
        assert m in plan && b == (Along(plan)(m.loser.id), m.loser.name);
      } else {
        var a :| a in before && b == (Move(m.loser.id, m.winner.id, a.0), a.1);
        if c :| c in aliases && a == (Along(init)(c.0), c.1) {
          assert b == (Along(plan)(c.0), c.1);
        } else {
          var n :| n in init && a == (Along(init)(n.loser.id), n.loser.name);
          assert n in plan && b == (Along(plan)(n.loser.id), n.loser.name);
        }
      }
    }
    forall b | b in after ensures b in AliasesMerged(before, m) {
      if c :| c in aliases && b == (Along(plan)(c.0), c.1) {
        assert (Along(init)(c.0), c.1) in before;
      } else {
        var n :| n in plan && b == (Along(plan)(n.loser.id), n.loser.name);
        if n != m {
          assert (Along(init)(n.loser.id), n.loser.name) in before;
        }
      }
    }
  }

  // ----- running the plan

  /** The state after the merges of `plan`, all of which went through. */
  ghost predicate Ran(before: Tables, plan: seq<Merge>, after: Tables) {
    && after.entities == before.entities - Absorbed(plan)
    && after.metrics == before.metrics - Absorbed(plan)
    && after.aliases == AliasesAfter(before.aliases, plan)
    && if plan == [] then after == before else Quotient(before, after, Along(plan))
  }

  lemma PlanNext(plan: seq<Merge>, m: Merge)
    ensures Absorbed(plan + [m]) == Absorbed(plan) + {m.loser.id}
    ensures forall x :: Along(plan + [m])(x) == Mover(m.loser.id, m.winner.id)(Along(plan)(x))
    ensures forall aliases :: AliasesAfter(aliases, plan + [m]) == AliasesMerged(AliasesAfter(aliases, plan), m)
  {
    var more := plan + [m];
    assert more[..|more|-1] == plan;
    assert forall n :: n in more <==> n in plan || n == m;
  }

  lemma RanNext(before: Tables, plan: seq<Merge>, middle: Tables, m: Merge, after: Tables)
    requires Ran(before, plan, middle) && Merged(middle, after, m)
    ensures Ran(before, plan + [m], after)
  {
    PlanNext(plan, m);
    QuotientNext(before, plan, middle, m, after);
  }

  lemma QuotientNext(before: Tables, plan: seq<Merge>, middle: Tables, m: Merge, after: Tables)
    requires if plan == [] then middle == before else Quotient(before, middle, Along(plan))
    requires Quotient(middle, after, Mover(m.loser.id, m.winner.id))
    ensures Quotient(before, after, Along(plan + [m]))
  {
    PlanNext(plan, m);
    if plan == [] {
      QuotientSameMap(before, after, Mover(m.loser.id, m.winner.id), Along(plan + [m]));
    } else {
      QuotientCompose(before, middle, after, Along(plan), Mover(m.loser.id, m.winner.id), Along(plan + [m]));
    }
  }

  lemma QuotientSameMap(before: Tables, after: Tables, s: Id -> Id, t: Id -> Id)
    requires Quotient(before, after, s) && forall x :: s(x) == t(x)
    ensures Quotient(before, after, t)
  {
    assert QuotientTriples(Triples(before.relations), s) == QuotientTriples(Triples(before.relations), t);
  }

  /** The tables after merges that meet no error. */
  function After(t: Tables, plan: seq<Merge>): Tables {
    if plan == [] then t
    else StatementsRun(After(t, plan[..|plan|-1]), plan[|plan|-1])
  }

  /** Every merge of the plan goes through when its turn comes. */
  ghost predicate AllFit(t: Tables, plan: seq<Merge>) {
    plan == [] || (AllFit(t, plan[..|plan|-1]) && Fits(After(t, plan[..|plan|-1]), plan[|plan|-1]))
  }

  /** Whatever a run got through is the quotient by the composed map of what it got through. */
  lemma {:induction false} AfterRan(t: Tables, plan: seq<Merge>)
    requires forall m :: m in plan ==> m.loser.id != m.winner.id
    ensures Ran(t, plan, After(t, plan))
    decreases |plan|
  {
    hide StatementsRun;
    if plan == [] {
    } else {
      var init, m := plan[..|plan|-1], plan[|plan|-1];
      AfterRan(t, init);
      StatementsMerge(After(t, init), m);
      RanNext(t, init, After(t, init), m, After(t, plan));
      assert init + [m] == plan;
    }
  }

  lemma AfterNothing(t: Tables)
    ensures After(t, []) == t && AllFit(t, [])
  {
  }

  lemma AfterNext(t: Tables, plan: seq<Merge>, m: Merge)
    requires AllFit(t, plan) && Fits(After(t, plan), m)
    ensures After(t, plan + [m]) == StatementsRun(After(t, plan), m)
    ensures AllFit(t, plan + [m])
  {
    hide StatementsRun;
    assert (plan + [m])[..|plan + [m]|-1] == plan;
  }

  /** The inner loop: the losers of one group, in order. */
  method ApplyGroup(store: Store, g: Group, ghost before: Tables, ghost plan: seq<Merge>)
      returns (ok: bool, merged: nat)
    requires store.db == After(before, plan) && AllFit(before, plan)
    requires Proper(g)
    modifies store
    ensures merged <= |g.losers| && store.db == After(before, plan + MergesOf(g)[..merged])
    ensures AllFit(before, plan + MergesOf(g)[..merged])
    ensures ok <==> merged == |g.losers|
    ensures !ok ==> !Fits(store.db, MergesOf(g)[merged])
  {
    hide StatementsRun, Fits, Valid, After, AllFit;
    merged := 0;
    ghost var ran := plan;
    while merged < |g.losers|
      invariant merged <= |g.losers| && ran == plan + MergesOf(g)[..merged]
      invariant store.db == After(before, ran) && AllFit(before, ran)
    {
      ghost var m := Merge(g.losers[merged], g.winner);
      assert MergesOf(g)[merged] == m && MergesOf(g)[..merged+1] == MergesOf(g)[..merged] + [m];
      var done := store.MergeEntity(g.losers[merged], g.winner);
      if !done {
        return false, merged;
      }
      AfterNext(before, ran, m);
      ran := ran + [m];
      merged := merged + 1;
    }
    ok := true;
  }

  /** The two nested loops of a run. A merge that fails ends the run; the merges before it stay. */
  method ApplyPlan(store: Store, groups: seq<Group>) returns (ok: bool, merged: nat)
    requires forall g :: g in groups ==> Proper(g)
    modifies store
    ensures merged <= |Plan(groups)| && store.db == After(old(store.db), Plan(groups)[..merged])
    ensures AllFit(old(store.db), Plan(groups)[..merged])
    ensures ok <==> merged == |Plan(groups)|
    ensures !ok ==> !Fits(store.db, Plan(groups)[merged])
  {
    hide StatementsRun, Fits, Valid, After, AllFit;
    merged := 0;
    ghost var before, plan := store.db, [];
    AfterNothing(before);
    for g := 0 to |groups|
      invariant plan == Plan(groups[..g]) && merged == |plan|
      invariant store.db == After(before, plan) && AllFit(before, plan)
    {
      var done, n := ApplyGroup(store, groups[g], before, plan);
      PlanGrows(groups, g, n);
      plan := plan + MergesOf(groups[g])[..n];
      merged := merged + n;
      if !done {
        return false, merged;
      }
    }
    assert groups[..|groups|] == groups;
    assert plan[..merged] == plan;
    ok := true;
  }

  lemma PlanSnoc(groups: seq<Group>, g: nat)
    requires g < |groups|
    ensures Plan(groups[..g+1]) == Plan(groups[..g]) + MergesOf(groups[g])
  {
    assert groups[..g+1][..g] == groups[..g];
  }

  lemma {:induction false} PlanPrefix(groups: seq<Group>, g: nat)
    requires g <= |groups|
    ensures Plan(groups[..g]) <= Plan(groups)
    decreases |groups| - g
  {
    if g == |groups| {
      assert groups[..g] == groups;
    } else {
      PlanSnoc(groups, g);
      PlanPrefix(groups, g + 1);
    }
  }

  /** The plan up to and into group g. */
  lemma PlanGrows(groups: seq<Group>, g: nat, n: nat)
    requires g < |groups| && n <= |groups[g].losers|
    ensures n == |groups[g].losers| ==> Plan(groups[..g+1]) == Plan(groups[..g]) + MergesOf(groups[g])[..n]
    ensures |Plan(groups[..g])| + n <= |Plan(groups)|
    ensures Plan(groups)[..|Plan(groups[..g])| + n] == Plan(groups[..g]) + MergesOf(groups[g])[..n]
    ensures n < |groups[g].losers| ==>
      |Plan(groups[..g])| + n < |Plan(groups)| && Plan(groups)[|Plan(groups[..g])| + n] == MergesOf(groups[g])[n]
  {
    PlanSnoc(groups, g);
    PlanPrefix(groups, g + 1);
    assert n == |groups[g].losers| ==> MergesOf(groups[g])[..n] == MergesOf(groups[g]);
  }

  // ----- what a run leaves

  ghost predicate WinnersKnown(t: Tables, plan: seq<Merge>) {
    forall m :: m in plan ==> m.winner.id in t.entities
  }

  /** A well-formed plan that ran: every reference sits with a survivor, none was lost, every
      name and alias resolves to the end of its chain. */
  lemma RunLeavesSurvivors(t: Tables, plan: seq<Merge>)
    requires WellFormed(plan) && WinnersKnown(t, plan)
    ensures After(t, plan).entities.Keys == t.entities.Keys - Absorbed(plan)
    ensures forall x :: x in t.entities ==> Final(plan, x) in After(t, plan).entities
    ensures After(t, plan).aliases == AliasesFollowed(t.aliases, plan, Along(plan))
    ensures After(t, plan).observations.Keys == t.observations.Keys
    ensures forall r :: r in t.observations ==> After(t, plan).observations[r] == Final(plan, t.observations[r])
  {
    hide StatementsRun;
    AfterRan(t, plan);
    AliasesFollowChains(t.aliases, plan);
    forall x | x in t.entities ensures Final(plan, x) in After(t, plan).entities {
      FinalSurvives(plan, x);
      FinalKnown(plan, x, t.entities.Keys);
    }
  }

  ghost predicate Loopless(t: Tables) {
    forall e :: e in Triples(t.relations) ==> e.0 != e.1
  }

  /** The edges become the quotient by the composed map exactly when something is merged or there
      is no loop to keep: one merge already deletes every loop of the whole graph. */
  lemma RunIsQuotient(t: Tables, plan: seq<Merge>)
    requires WellFormed(plan)
    ensures Triples(After(t, plan).relations) == QuotientTriples(Triples(t.relations), Along(plan)) <==>
      plan != [] || Loopless(t)
  {
    hide StatementsRun;
    AfterRan(t, plan);
    if plan == [] {
      var all := Triples(t.relations);
      forall e | e in all && e.0 != e.1 ensures e in QuotientTriples(all, Along([])) {
        assert e == (Along([])(e.0), Along([])(e.1), e.2);
      }
    }
  }

  /** What a caller can look at before running anything: no merge meets the text of an alias, or
      the name, that its winner already carries by then. */
  ghost predicate NamesApart(aliases: set<(Id, string)>, plan: seq<Merge>) {
    plan == [] ||
    var earlier := plan[..|plan|-1];
    NamesApart(aliases, earlier) && ApartAfter(aliases, earlier, plan[|plan|-1])
  }

  ghost predicate ApartAfter(aliases: set<(Id, string)>, earlier: seq<Merge>, m: Merge) {
    !AliasClash(AliasesFollowed(aliases, earlier, Along(earlier)), m)
  }

  lemma WinnerStillThere(t: Tables, plan: seq<Merge>)
    requires WellFormed(plan) && WinnersKnown(t, plan) && plan != []
    ensures plan[|plan|-1].winner.id in After(t, plan[..|plan|-1]).entities
  {
    hide StatementsRun;
    Prefix(plan);
    var init := plan[..|plan|-1];
    assert forall m :: m in init ==> m in plan;
    RunLeavesSurvivors(t, init);
  }

  /** All the merges of a well-formed plan go through exactly when the names stay apart. */
  lemma {:induction false} AllFitIffNamesApart(t: Tables, plan: seq<Merge>)
    requires WellFormed(plan) && WinnersKnown(t, plan)
    ensures AllFit(t, plan) <==> NamesApart(t.aliases, plan)
    decreases |plan|
  {
    hide StatementsRun;
    if plan != [] {
      var init, m := plan[..|plan|-1], plan[|plan|-1];
      Prefix(plan);
      assert forall n :: n in init ==> n in plan;
      AllFitIffNamesApart(t, init);
      WinnerStillThere(t, plan);
      RunLeavesSurvivors(t, init);
    }
  }

  /** The condition can fail within one run over a store without aliases: an exact group absorbs a
      namesake from another project, then a judged group absorbs its winner. */
  lemma NamesakeChainFails(keeper: Entity, namesake: Entity, other: Entity)
    requires keeper.id != namesake.id && other.id !in {keeper.id, namesake.id}
    requires keeper.name == namesake.name
    ensures var plan := [Merge(namesake, keeper), Merge(keeper, other)];
      WellFormed(plan) && !NamesApart({}, plan)
  {
    var plan := [Merge(namesake, keeper), Merge(keeper, other)];
    var first := plan[..1];
    assert first == [] + [Merge(namesake, keeper)];
    PlanNext([], Merge(namesake, keeper));
    assert Along(first)(namesake.id) == keeper.id;
    assert plan[0] in first;
    assert (keeper.id, namesake.name) == (Along(first)(plan[0].loser.id), plan[0].loser.name);
    var carried := AliasesFollowed({}, plan[..1], Along(plan[..1]));
    assert (keeper.id, namesake.name) in carried;
    assert AliasClash(carried, plan[1]);
    assert !ApartAfter({}, plan[..1], plan[1]);
  }

  lemma {:induction false} AllFitPrefix(t: Tables, plan: seq<Merge>, n: nat)
    requires n < |plan| && AllFit(t, plan)
    ensures Fits(After(t, plan[..n]), plan[n])
    decreases |plan|
  {
    hide StatementsRun, Fits;
    var init := plan[..|plan|-1];
    if n < |init| {
      AllFitPrefix(t, init, n);
      assert init[..n] == plan[..n];
    }
  }

  /** How far a run got says whether the names of the whole plan stay apart. */
  lemma WentThrough(t: Tables, plan: seq<Merge>, merged: nat)
    requires WellFormed(plan) && WinnersKnown(t, plan) && merged <= |plan|
    requires AllFit(t, plan[..merged])
    requires merged < |plan| ==> !Fits(After(t, plan[..merged]), plan[merged])
    ensures merged == |plan| <==> NamesApart(t.aliases, plan)
  {
    hide StatementsRun, Fits, NamesApart;
    AllFitIffNamesApart(t, plan);
    assert plan[..|plan|] == plan;
    if merged < |plan| && AllFit(t, plan) {
      AllFitPrefix(t, plan, merged);
    }
  }
}
