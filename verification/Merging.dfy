/** The relational store a merge rewrites, statement by statement, and the plan of merges run
    over it. Merging is a quotient of the graph: every reference follows the loser to its winner,
    parallel edges collapse, loops go. */
module Merging {
  import opened Wrappers
  import opened Connectivity
  import opened Grouping

  type RowId = nat

  datatype Relation = Relation(from: Id, to: Id, kind: string, strength: real)

  /** The tables that refer to an entity. `facts` may refer to none; an alias is a pair of an
      entity and a text, unique as a pair; every reference cascades on delete. */
  datatype Tables = Tables(
    entities: map<Id, string>,
    observations: map<RowId, Id>,
    episodes: map<RowId, Id>,
    facts: map<RowId, Option<Id>>,
    relations: map<RowId, Relation>,
    metrics: set<Id>,
    aliases: set<(Id, string)>)

  // ----- what the schema guarantees

  predicate SameKey(a: Relation, b: Relation) {
    a.from == b.from && a.to == b.to && a.kind == b.kind
  }

  ghost predicate UniqueKeys(relations: map<RowId, Relation>) {
    forall q, r :: q in relations && r in relations && SameKey(relations[q], relations[r]) ==> q == r
  }

  ghost predicate Valid(t: Tables) {
    && t.observations.Values <= t.entities.Keys
    && t.episodes.Values <= t.entities.Keys
    && (forall r :: r in t.facts && t.facts[r].Some? ==> t.facts[r].value in t.entities)
    && (forall r :: r in t.relations ==> t.relations[r].from in t.entities && t.relations[r].to in t.entities)
    && UniqueKeys(t.relations)
    && t.metrics <= t.entities.Keys
    && (forall a :: a in t.aliases ==> a.0 in t.entities)
  }

  /** What the database holds between transactions. */
  type ValidTables = t: Tables | Valid(t) ghost witness Tables(map[], map[], map[], map[], map[], {}, {})

  // ----- the statements of one merge

  function Move(loser: Id, winner: Id, x: Id): Id {
    if x == loser then winner else x
  }

  /** One merge as a map on ids. */
  function Mover(loser: Id, winner: Id): Id -> Id {
    (x: Id) => Move(loser, winner, x)
  }

  /** The rows of the loser given to the winner. */
  function Repoint(rows: map<RowId, Id>, loser: Id, winner: Id): map<RowId, Id> {
    map r | r in rows :: if rows[r] == loser then winner else rows[r]
  }

  function RepointOptional(rows: map<RowId, Option<Id>>, loser: Id, winner: Id): map<RowId, Option<Id>> {
    map r | r in rows :: if rows[r] == Some(loser) then Some(winner) else rows[r]
  }

  datatype Column = FromEntity | ToEntity

  function At(row: Relation, col: Column): Id {
    match col
    case FromEntity => row.from
    case ToEntity => row.to
  }

  function Put(row: Relation, col: Column, x: Id): Relation {
    match col
    case FromEntity => row.(from := x)
    case ToEntity => row.(to := x)
  }

  /** The guard of the redirecting UPDATE, judged on the rows as the statement found them. */
  predicate Redirects(relations: map<RowId, Relation>, r: RowId, col: Column, loser: Id, winner: Id)
    requires r in relations
  {
    && At(relations[r], col) == loser
    && !exists q :: q in relations && q != r && SameKey(relations[q], Put(relations[r], col, winner))
  }

  /** The redirecting UPDATE when it has reached the rows of `done`. */
  function RedirectRows(relations: map<RowId, Relation>, done: set<RowId>, col: Column, loser: Id, winner: Id)
    : map<RowId, Relation>
  {
    map r | r in relations ::
      if r in done && Redirects(relations, r, col, loser, winner)
      then Put(relations[r], col, winner) else relations[r]
  }

  function Redirect(relations: map<RowId, Relation>, col: Column, loser: Id, winner: Id): map<RowId, Relation> {
    RedirectRows(relations, relations.Keys, col, loser, winner)
  }

  /** The edges left at the loser, either end, deleted. */
  function DropIncident(relations: map<RowId, Relation>, loser: Id): map<RowId, Relation> {
    map r | r in relations && relations[r].from != loser && relations[r].to != loser :: relations[r]
  }

  /** The edges from an entity to itself deleted. */
  function DropLoops(relations: map<RowId, Relation>): map<RowId, Relation> {
    map r | r in relations && relations[r].from != relations[r].to :: relations[r]
  }

  function RepointAliases(aliases: set<(Id, string)>, loser: Id, winner: Id): set<(Id, string)> {
    set a | a in aliases :: (Move(loser, winner, a.0), a.1)
  }

  /** The entity deleted, with the cascade the schema attaches to it. */
  function DeleteEntity(t: Tables, x: Id): Tables {
    Tables(
      t.entities - {x},
      map r | r in t.observations && t.observations[r] != x :: t.observations[r],
      map r | r in t.episodes && t.episodes[r] != x :: t.episodes[r],
      map r | r in t.facts && t.facts[r] != Some(x) :: t.facts[r],
      DropIncident(t.relations, x),
      t.metrics - {x},
      set a | a in t.aliases && a.0 != x)
  }

  // ----- the quotient

  ghost function Triples(relations: map<RowId, Relation>): set<(Id, Id, string)> {
    set r | r in relations :: (relations[r].from, relations[r].to, relations[r].kind)
  }

  ghost function QuotientTriples(triples: set<(Id, Id, string)>, s: Id -> Id): set<(Id, Id, string)> {
    set e | e in triples && s(e.0) != s(e.1) :: (s(e.0), s(e.1), e.2)
  }

  ghost predicate Follows(before: map<RowId, Id>, after: map<RowId, Id>, s: Id -> Id) {
    && after.Keys == before.Keys
    && forall r :: r in before ==> after[r] == s(before[r])
  }

  ghost predicate FollowsOptional(before: map<RowId, Option<Id>>, after: map<RowId, Option<Id>>, s: Id -> Id) {
    && after.Keys == before.Keys
    && forall r :: r in before ==>
         after[r] == match before[r] { case None => None case Some(x) => Some(s(x)) }
  }

  /** Rows kept are rows that were there, with nothing but their ends moved. */
  ghost predicate KeepsRows(before: map<RowId, Relation>, after: map<RowId, Relation>, s: Id -> Id) {
    forall r :: r in after ==>
      r in before && after[r] == before[r].(from := s(before[r].from), to := s(before[r].to))
  }

  ghost predicate Quotient(before: Tables, after: Tables, s: Id -> Id) {
    && Follows(before.observations, after.observations, s)
    && Follows(before.episodes, after.episodes, s)
    && FollowsOptional(before.facts, after.facts, s)
    && KeepsRows(before.relations, after.relations, s)
    && Triples(after.relations) == QuotientTriples(Triples(before.relations), s)
  }

  /** Whatever rows an UPDATE has reached so far, no two rows share a key. */
  lemma RedirectKeepsKeysUnique(relations: map<RowId, Relation>, done: set<RowId>, col: Column, loser: Id, winner: Id)
    requires UniqueKeys(relations)
    ensures UniqueKeys(RedirectRows(relations, done, col, loser, winner))
  {
    var after := RedirectRows(relations, done, col, loser, winner);
    forall q, r | q in after && r in after && SameKey(after[q], after[r]) ensures q == r {
      assert SameKey(relations[q], relations[r]) || q == r;
    }
  }

  /** A row whose column names the loser ends with its target key present, moved or not. */
  lemma RedirectReaches(relations: map<RowId, Relation>, r: RowId, col: Column, loser: Id, winner: Id)
    requires r in relations && loser != winner && At(relations[r], col) == loser
    ensures var after := Redirect(relations, col, loser, winner);
      exists q :: q in after && SameKey(after[q], Put(relations[r], col, winner))
  {
    var after := Redirect(relations, col, loser, winner);
    if Redirects(relations, r, col, loser, winner) {
      assert r in after && SameKey(after[r], Put(relations[r], col, winner));
    } else {
      var q :| q in relations && q != r && SameKey(relations[q], Put(relations[r], col, winner));
      assert q in after && after[q] == relations[q];
    }
  }

  function RelationsMerged(relations: map<RowId, Relation>, loser: Id, winner: Id): map<RowId, Relation> {
    DropLoops(DropIncident(Redirect(Redirect(relations, FromEntity, loser, winner), ToEntity, loser, winner), loser))
  }

  lemma MergedRowsKept(relations: map<RowId, Relation>, loser: Id, winner: Id)
    requires loser != winner
    ensures KeepsRows(relations, RelationsMerged(relations, loser, winner), Mover(loser, winner))
    ensures forall r :: r in RelationsMerged(relations, loser, winner) ==>
      RelationsMerged(relations, loser, winner)[r].from != RelationsMerged(relations, loser, winner)[r].to
  {
    var first := Redirect(relations, FromEntity, loser, winner);
    var second := Redirect(first, ToEntity, loser, winner);
    forall r | r in RelationsMerged(relations, loser, winner)
      ensures second[r] == relations[r].(from := Move(loser, winner, relations[r].from),
                                         to := Move(loser, winner, relations[r].to))
    {
      assert r in second && second[r].from != loser && second[r].to != loser;
    }
  }

  /** Every edge that does not become a loop is present after the merge, under its new ends. */
  lemma MergedEdgesPresent(relations: map<RowId, Relation>, loser: Id, winner: Id, r: RowId)
    requires loser != winner && r in relations
    requires Move(loser, winner, relations[r].from) != Move(loser, winner, relations[r].to)
    ensures (Move(loser, winner, relations[r].from), Move(loser, winner, relations[r].to), relations[r].kind)
      in Triples(RelationsMerged(relations, loser, winner))
  {
    var first := Redirect(relations, FromEntity, loser, winner);
    var second := Redirect(first, ToEntity, loser, winner);
    var f := Move(loser, winner, relations[r].from);
    var q := r;
    if relations[r].from == loser {
      RedirectReaches(relations, r, FromEntity, loser, winner);
      q :| q in first && SameKey(first[q], Put(relations[r], FromEntity, winner));
    }
    assert q in first && SameKey(first[q], relations[r].(from := f));
    var p := q;
    if relations[r].to == loser {
      RedirectReaches(first, q, ToEntity, loser, winner);
      p :| p in second && SameKey(second[p], Put(first[q], ToEntity, winner));
    }
    assert p in RelationsMerged(relations, loser, winner);
  }

  lemma MergedTriples(relations: map<RowId, Relation>, loser: Id, winner: Id)
    requires loser != winner
    ensures Triples(RelationsMerged(relations, loser, winner)) ==
      QuotientTriples(Triples(relations), Mover(loser, winner))
  {
    var after := RelationsMerged(relations, loser, winner);
    var s := Mover(loser, winner);
    MergedRowsKept(relations, loser, winner);
    forall e | e in Triples(after) ensures e in QuotientTriples(Triples(relations), s) {
      var r :| r in after && e == (after[r].from, after[r].to, after[r].kind);
      var d := (relations[r].from, relations[r].to, relations[r].kind);
      assert d in Triples(relations) && s(d.0) != s(d.1) && e == (s(d.0), s(d.1), d.2);
    }
    forall e | e in QuotientTriples(Triples(relations), s) ensures e in Triples(after) {
      var d :| d in Triples(relations) && s(d.0) != s(d.1) && e == (s(d.0), s(d.1), d.2);
      var r :| r in relations && d == (relations[r].from, relations[r].to, relations[r].kind);
      MergedEdgesPresent(relations, loser, winner, r);
    }
  }

  lemma TriplesCompose(before: set<(Id, Id, string)>, s: Id -> Id, t: Id -> Id, u: Id -> Id)
    requires forall x :: u(x) == t(s(x))
    ensures QuotientTriples(QuotientTriples(before, s), t) == QuotientTriples(before, u)
  {
    var middle, after := QuotientTriples(before, s), QuotientTriples(before, u);
    forall e | e in QuotientTriples(middle, t) ensures e in after {
      var d :| d in middle && t(d.0) != t(d.1) && e == (t(d.0), t(d.1), d.2);
      var f :| f in before && s(f.0) != s(f.1) && d == (s(f.0), s(f.1), f.2);
      assert u(f.0) != u(f.1) && e == (u(f.0), u(f.1), f.2);
    }
    forall e | e in after ensures e in QuotientTriples(middle, t) {
      var f :| f in before && u(f.0) != u(f.1) && e == (u(f.0), u(f.1), f.2);
      var d := (s(f.0), s(f.1), f.2);
      assert d in middle && t(d.0) != t(d.1) && e == (t(d.0), t(d.1), d.2);
    }
  }

  /** Merging in two steps is merging along the composed map. */
  lemma QuotientCompose(a: Tables, b: Tables, c: Tables, s: Id -> Id, t: Id -> Id, u: Id -> Id)
    requires Quotient(a, b, s) && Quotient(b, c, t)
    requires forall x :: u(x) == t(s(x))
    ensures Quotient(a, c, u)
  {
    TriplesCompose(Triples(a.relations), s, t, u);
    KeepsRowsCompose(a.relations, b.relations, c.relations, s, t, u);
    FollowsCompose(a.observations, b.observations, c.observations, s, t, u);
    FollowsCompose(a.episodes, b.episodes, c.episodes, s, t, u);
    FollowsOptionalCompose(a.facts, b.facts, c.facts, s, t, u);
  }

  lemma KeepsRowsCompose(a: map<RowId, Relation>, b: map<RowId, Relation>, c: map<RowId, Relation>,
                         s: Id -> Id, t: Id -> Id, u: Id -> Id)
    requires KeepsRows(a, b, s) && KeepsRows(b, c, t) && forall x :: u(x) == t(s(x))
    ensures KeepsRows(a, c, u)
  {
  }

  lemma FollowsCompose(a: map<RowId, Id>, b: map<RowId, Id>, c: map<RowId, Id>, s: Id -> Id, t: Id -> Id, u: Id -> Id)
    requires Follows(a, b, s) && Follows(b, c, t) && forall x :: u(x) == t(s(x))
    ensures Follows(a, c, u)
  {
  }

  lemma FollowsOptionalCompose(a: map<RowId, Option<Id>>, b: map<RowId, Option<Id>>, c: map<RowId, Option<Id>>,
                               s: Id -> Id, t: Id -> Id, u: Id -> Id)
    requires FollowsOptional(a, b, s) && FollowsOptional(b, c, t) && forall x :: u(x) == t(s(x))
    ensures FollowsOptional(a, c, u)
  {
  }

  // ----- one merge

  datatype Merge = Merge(loser: Entity, winner: Entity)

  /** The loser carries a text the winner already has, or its own name as an alias of itself:
      moving its aliases then breaks their unique key. */
  predicate AliasClash(aliases: set<(Id, string)>, m: Merge) {
    exists a :: a in aliases && a.0 == m.loser.id && ((m.winner.id, a.1) in aliases || a.1 == m.loser.name)
  }

  predicate Fits(t: Tables, m: Merge) {
    m.winner.id in t.entities && !AliasClash(t.aliases, m)
  }

  function AliasesMerged(aliases: set<(Id, string)>, m: Merge): set<(Id, string)> {
    (set a | a in aliases :: (Move(m.loser.id, m.winner.id, a.0), a.1)) + {(m.winner.id, m.loser.name)}
  }

  /** What one merge that goes through does to everything. */
  ghost predicate Merged(before: Tables, after: Tables, m: Merge) {
    && Quotient(before, after, Mover(m.loser.id, m.winner.id))
    && after.entities == before.entities - {m.loser.id}
    && after.metrics == before.metrics - {m.loser.id}
    && after.aliases == AliasesMerged(before.aliases, m)
  }

  /** The tables after all statements of a merge that meets no error. */
  function StatementsRun(t: Tables, m: Merge): Tables {
    var l, w := m.loser.id, m.winner.id;
    DeleteEntity(
      Tables(
        t.entities,
        Repoint(t.observations, l, w),
        Repoint(t.episodes, l, w),
        RepointOptional(t.facts, l, w),
        RelationsMerged(t.relations, l, w),
        t.metrics - {l},
        RepointAliases(t.aliases + {(w, m.loser.name)}, l, w)),
      l)
  }

  lemma NothingCascades(t: Tables, m: Merge)
    requires m.loser.id != m.winner.id
    ensures var l, w, after := m.loser.id, m.winner.id, StatementsRun(t, m);
      && after.observations == Repoint(t.observations, l, w)
      && after.episodes == Repoint(t.episodes, l, w)
      && after.facts == RepointOptional(t.facts, l, w)
      && after.relations == RelationsMerged(t.relations, l, w)
      && after.aliases == RepointAliases(t.aliases + {(w, m.loser.name)}, l, w)
  {
  }

  lemma AliasesMoved(aliases: set<(Id, string)>, m: Merge)
    requires m.loser.id != m.winner.id
    ensures RepointAliases(aliases + {(m.winner.id, m.loser.name)}, m.loser.id, m.winner.id) == AliasesMerged(aliases, m)
  {
  }

  /** The statements of a merge amount to the quotient by it, and the cascade takes nothing. */
  lemma StatementsMerge(t: Tables, m: Merge)
    requires m.loser.id != m.winner.id
    ensures Merged(t, StatementsRun(t, m), m)
  {
    NothingCascades(t, m);
    AliasesMoved(t.aliases, m);
    MergedTriples(t.relations, m.loser.id, m.winner.id);
    MergedRowsKept(t.relations, m.loser.id, m.winner.id);
  }

  lemma RelationsMergedUnique(relations: map<RowId, Relation>, loser: Id, winner: Id)
    requires UniqueKeys(relations)
    ensures UniqueKeys(RelationsMerged(relations, loser, winner))
  {
    var first := Redirect(relations, FromEntity, loser, winner);
    RedirectKeepsKeysUnique(relations, relations.Keys, FromEntity, loser, winner);
    RedirectKeepsKeysUnique(first, first.Keys, ToEntity, loser, winner);
  }

  lemma FollowsStays(before: map<RowId, Id>, after: map<RowId, Id>, m: Merge, ids: set<Id>)
    requires Follows(before, after, Mover(m.loser.id, m.winner.id)) && before.Values <= ids
    requires m.loser.id != m.winner.id && m.winner.id in ids
    ensures after.Values <= ids - {m.loser.id}
  {
    assert forall r :: r in before ==> before[r] in before.Values;
  }

  lemma FactsStay(before: map<RowId, Option<Id>>, after: map<RowId, Option<Id>>, m: Merge, ids: set<Id>)
    requires FollowsOptional(before, after, Mover(m.loser.id, m.winner.id))
    requires m.loser.id != m.winner.id && m.winner.id in ids
    requires forall r :: r in before && before[r].Some? ==> before[r].value in ids
    ensures forall r :: r in after && after[r].Some? ==> after[r].value in ids - {m.loser.id}
  {
  }

  lemma RelationsStay(before: map<RowId, Relation>, after: map<RowId, Relation>, m: Merge, ids: set<Id>)
    requires KeepsRows(before, after, Mover(m.loser.id, m.winner.id))
    requires m.loser.id != m.winner.id && m.winner.id in ids
    requires forall r :: r in before ==> before[r].from in ids && before[r].to in ids
    ensures forall r :: r in after ==> after[r].from in ids - {m.loser.id} && after[r].to in ids - {m.loser.id}
  {
  }

  lemma AliasesStay(before: set<(Id, string)>, after: set<(Id, string)>, m: Merge, ids: set<Id>)
    requires after == AliasesMerged(before, m) && m.loser.id != m.winner.id && m.winner.id in ids
    requires forall a :: a in before ==> a.0 in ids
    ensures forall a :: a in after ==> a.0 in ids - {m.loser.id}
  {
  }

  /** No reference dangles after the loser is gone. */
  lemma MergedKeepsValid(before: Tables, after: Tables, m: Merge)
    requires Valid(before) && m.loser.id != m.winner.id && m.winner.id in before.entities
    requires Merged(before, after, m) && UniqueKeys(after.relations)
    ensures Valid(after)
  {
    FollowsStays(before.observations, after.observations, m, before.entities.Keys);
    FollowsStays(before.episodes, after.episodes, m, before.entities.Keys);
    FactsStay(before.facts, after.facts, m, before.entities.Keys);
    RelationsStay(before.relations, after.relations, m, before.entities.Keys);
    AliasesStay(before.aliases, after.aliases, m, before.entities.Keys);
  }

  lemma StatementsKeepValid(t: Tables, m: Merge)
    requires Valid(t) && m.loser.id != m.winner.id && m.winner.id in t.entities
    ensures Valid(StatementsRun(t, m))
  {
    StatementsMerge(t, m);
    RelationsMergedUnique(t.relations, m.loser.id, m.winner.id);
    NothingCascades(t, m);
    MergedKeepsValid(t, StatementsRun(t, m), m);
  }

  lemma ClashSeen(aliases: set<(Id, string)>, m: Merge)
    requires m.loser.id != m.winner.id
    ensures var with := aliases + {(m.winner.id, m.loser.name)};
      AliasClash(aliases, m) <==> exists a :: a in with && a.0 == m.loser.id && (m.winner.id, a.1) in with
  {
    var with := aliases + {(m.winner.id, m.loser.name)};
    if AliasClash(aliases, m) {
      var a :| a in aliases && a.0 == m.loser.id && ((m.winner.id, a.1) in aliases || a.1 == m.loser.name);
      assert a in with && (m.winner.id, a.1) in with;
    }
  }

  /** The store behind the connection pool. A transaction works on a copy; dropping the copy is
      the rollback, assigning it back the commit. */
  class Store {
    var db: ValidTables

    constructor (db: ValidTables)
      ensures this.db == db
    {
      this.db := db;
    }

    /** Goes through exactly when the winner exists and no alias clashes; otherwise nothing
        changes. */
    method MergeEntity(loser: Entity, winner: Entity) returns (ok: bool)
      requires loser.id != winner.id
      modifies this
      ensures ok <==> Fits(old(db), Merge(loser, winner))
      ensures db == if ok then StatementsRun(old(db), Merge(loser, winner)) else old(db)
    {
      var tx: Tables := db;
      if winner.id !in tx.entities {
        // A foreign key refuses the first row given to it, the alias below at the latest.
        return false;
      }
      tx := tx.(observations := Repoint(tx.observations, loser.id, winner.id));
      tx := tx.(episodes := Repoint(tx.episodes, loser.id, winner.id));
      tx := tx.(facts := RepointOptional(tx.facts, loser.id, winner.id));
      tx := tx.(relations := Redirect(tx.relations, FromEntity, loser.id, winner.id));
      tx := tx.(relations := Redirect(tx.relations, ToEntity, loser.id, winner.id));
      tx := tx.(relations := DropIncident(tx.relations, loser.id));
      tx := tx.(relations := DropLoops(tx.relations));
      tx := tx.(metrics := tx.metrics - {loser.id});
      tx := tx.(aliases := tx.aliases + {(winner.id, loser.name)});
      ClashSeen(db.aliases, Merge(loser, winner));
      if exists a :: a in tx.aliases && a.0 == loser.id && (winner.id, a.1) in tx.aliases {
        // The unique key refuses the move; the error is dropped, but the transaction is
        // aborted and the next statement reports it.
        return false;
      }
      tx := tx.(aliases := RepointAliases(tx.aliases, loser.id, winner.id));
      tx := DeleteEntity(tx, loser.id);
      assert tx == StatementsRun(db, Merge(loser, winner));
      StatementsKeepValid(db, Merge(loser, winner));
      db := tx;
      ok := true;
    }
  }
}
