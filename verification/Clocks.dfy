/** Last writer wins over (actor, counter) clocks. */
module Clocks {

  datatype Clock = Clock(actor: string, counter: int)

  /** Lexicographic, as strings compare. */
  predicate AtMost(a: string, b: string) {
    a == "" || (b != "" && (a[0] < b[0] || (a[0] == b[0] && AtMost(a[1..], b[1..]))))
  }

  predicate Dominates(self: Clock, other: Clock) {
    (self.actor == other.actor && self.counter >= other.counter)
    || (self.counter > other.counter && (self.actor != other.actor || self.counter > other.counter))
  }

  predicate HappensBeforeOrEq(self: Clock, other: Clock) {
    if self.counter < other.counter then true
    else if self.counter > other.counter then false
    else AtMost(self.actor, other.actor)
  }

  datatype MergePick = KeepLocal | TakeIncoming | Concurrent

  function PickLww(local: Clock, incoming: Clock): MergePick {
    if local.actor == incoming.actor then
      if incoming.counter > local.counter then TakeIncoming else KeepLocal
    else if incoming.counter > local.counter then TakeIncoming
    else if incoming.counter < local.counter then KeepLocal
    else if !AtMost(incoming.actor, local.actor) then TakeIncoming
    else if !AtMost(local.actor, incoming.actor) then KeepLocal
    else Concurrent
  }

  function PickObservationContent(local: Clock, incoming: Clock): MergePick {
    var p := PickLww(local, incoming);
    if p == KeepLocal && local.counter == incoming.counter && local.actor != incoming.actor then Concurrent
    else if local.counter == incoming.counter && local.actor != incoming.actor then Concurrent
    else p
  }

  // ----- the orders

  lemma {:induction false} AtMostIsTotal(a: string, b: string)
    ensures AtMost(a, a)
    ensures AtMost(a, b) || AtMost(b, a)
    ensures AtMost(a, b) && AtMost(b, a) ==> a == b
  {
    if a != "" {
      AtMostIsTotal(a[1..], if b == "" then "" else b[1..]);
      if b != "" {
        assert a == [a[0]] + a[1..] && b == [b[0]] + b[1..];
      }
    }
  }

  lemma {:induction false} AtMostIsTransitive(a: string, b: string, c: string)
    requires AtMost(a, b) && AtMost(b, c)
    ensures AtMost(a, c)
  {
    if a != "" && a[0] == b[0] == c[0] {
      AtMostIsTransitive(a[1..], b[1..], c[1..]);
    }
  }

  /** Every two clocks are ordered, and only equal ones both ways. */
  lemma HappensBeforeOrEqIsTotal(a: Clock, b: Clock)
    ensures HappensBeforeOrEq(a, b) || HappensBeforeOrEq(b, a)
    ensures HappensBeforeOrEq(a, b) && HappensBeforeOrEq(b, a) <==> a == b
  {
    AtMostIsTotal(a.actor, b.actor);
  }

  lemma HappensBeforeOrEqIsTransitive(a: Clock, b: Clock, c: Clock)
    requires HappensBeforeOrEq(a, b) && HappensBeforeOrEq(b, c)
    ensures HappensBeforeOrEq(a, c)
  {
    if a.counter == b.counter == c.counter {
      AtMostIsTransitive(a.actor, b.actor, c.actor);
    }
  }

  /** Dominance is the part of that order two actors can agree on without comparing their names:
      what it leaves open are equal counters of different actors. */
  lemma OrderExtendsDominance(a: Clock, b: Clock)
    ensures HappensBeforeOrEq(b, a) <==>
      Dominates(a, b) || (a.counter == b.counter && a.actor != b.actor && AtMost(b.actor, a.actor))
  {
    AtMostIsTotal(a.actor, b.actor);
  }

  /** The write taken is the later one in that order, and the pick is always made. */
  lemma PickIsTheOrder(local: Clock, incoming: Clock)
    ensures PickLww(local, incoming) != Concurrent
    ensures PickLww(local, incoming) == TakeIncoming <==> !HappensBeforeOrEq(incoming, local)
  {
    AtMostIsTotal(local.actor, incoming.actor);
  }

  /** Where a and b first differ, and a has the smaller character there. */
  ghost predicate LessAt(a: string, b: string, k: int) {
    0 <= k < |a| && k < |b| && a[..k] == b[..k] && a[k] < b[k]
  }

  lemma {:induction false} AtMostIs(a: string, b: string)
    ensures AtMost(a, b) <==> a <= b || exists k :: LessAt(a, b, k)
  {
    if a != "" && b != "" && a[0] == b[0] {
      var s, t := a[1..], b[1..];
      AtMostIs(s, t);
      assert a == [a[0]] + s && b == [b[0]] + t;
      forall k | LessAt(s, t, k) ensures LessAt(a, b, k + 1) {
        assert a[..k + 1] == [a[0]] + s[..k] && b[..k + 1] == [b[0]] + t[..k];
      }
      forall k | LessAt(a, b, k) ensures LessAt(s, t, k - 1) {
        assert s[..k - 1] == a[1..k] && t[..k - 1] == b[1..k];
        assert a[1..k] == a[..k][1..] && b[1..k] == b[..k][1..];
      }
    } else if a != "" && b != "" && a[0] < b[0] {
      assert LessAt(a, b, 0);
    }
  }

  /** Which write is taken: the one with the higher counter, and of two with the same counter the
      one whose actor has the greater character where the names first differ, or goes on where the
      other ends. Nothing but a write that must win replaces what is there. */
  lemma TakenIff(local: Clock, incoming: Clock)
    ensures PickLww(local, incoming) == TakeIncoming <==>
      || incoming.counter > local.counter
      || (incoming.counter == local.counter &&
          (local.actor < incoming.actor || exists k :: LessAt(local.actor, incoming.actor, k)))
    ensures PickLww(local, incoming) in {TakeIncoming, KeepLocal}
    ensures PickObservationContent(local, incoming) ==
      if incoming.counter == local.counter && incoming.actor != local.actor then Concurrent
      else if incoming.counter > local.counter then TakeIncoming
      else KeepLocal
  {
    var (a, b) := (local.actor, incoming.actor);
    AtMostIs(a, b);
    AtMostIsTotal(a, b);
    assert forall k :: LessAt(a, b, k) ==> a != b;
  }

  /** Both contents are kept exactly when neither clock dominates; otherwise the dominating one stays. */
  lemma ConcurrentIffNeitherDominates(local: Clock, incoming: Clock)
    ensures PickObservationContent(local, incoming) == Concurrent <==> !Dominates(local, incoming) && !Dominates(incoming, local)
    ensures PickObservationContent(local, incoming) == KeepLocal <==> Dominates(local, incoming)
    ensures PickObservationContent(local, incoming) == TakeIncoming <==> Dominates(incoming, local) && local != incoming
  {
    PickIsTheOrder(local, incoming);
    OrderExtendsDominance(local, incoming);
    OrderExtendsDominance(incoming, local);
  }

  // ----- replicas

  /** How a replica came by its clock: by its own write, or by merging another's into it. */
  datatype Replica = Written(clock: Clock) | Merged(local: Replica, incoming: Replica)

  function Current(r: Replica): Clock {
    match r
    case Written(clock) => clock
    case Merged(local, incoming) =>
      if PickLww(Current(local), Current(incoming)) == TakeIncoming then Current(incoming) else Current(local)
  }

  function Writes(r: Replica): set<Clock> {
    match r
    case Written(clock) => {clock}
    case Merged(local, incoming) => Writes(local) + Writes(incoming)
  }

  /** A replica shows the latest of the writes that reached it. */
  lemma {:induction false} CurrentIsLatest(r: Replica)
    ensures Current(r) in Writes(r)
    ensures forall w :: w in Writes(r) ==> HappensBeforeOrEq(w, Current(r))
  {
    match r
    case Written(clock) => HappensBeforeOrEqIsTotal(clock, clock);
    case Merged(local, incoming) =>
      var a, b := Current(local), Current(incoming);
      CurrentIsLatest(local);
      CurrentIsLatest(incoming);
      PickIsTheOrder(a, b);
      HappensBeforeOrEqIsTotal(a, b);
      forall w | w in Writes(r) ensures HappensBeforeOrEq(w, Current(r)) {
        if w in Writes(local) && Current(r) == b {
          HappensBeforeOrEqIsTransitive(w, a, b);
        } else if w in Writes(incoming) && Current(r) == a {
          HappensBeforeOrEqIsTransitive(w, b, a);
        }
      }
  }

  /** Replicas the same writes reached, in whatever order, however often and through whichever
      others, agree. */
  lemma ReplicasConverge(r: Replica, s: Replica)
    requires Writes(r) == Writes(s)
    ensures Current(r) == Current(s)
  {
    CurrentIsLatest(r);
    CurrentIsLatest(s);
    HappensBeforeOrEqIsTotal(Current(r), Current(s));
  }

  /** One replica taking writes in one after the other. */
  function Replay(first: Clock, writes: seq<Clock>): Replica {
    if writes == [] then Written(first)
    else Merged(Replay(first, writes[..|writes| - 1]), Written(writes[|writes| - 1]))
  }

  lemma {:induction false} WritesOfReplay(first: Clock, writes: seq<Clock>)
    ensures Writes(Replay(first, writes)) == {first} + (set w | w in writes)
  {
    if writes != [] {
      var k := |writes| - 1;
      WritesOfReplay(first, writes[..k]);
      assert writes == writes[..k] + [writes[k]];
    }
  }

  /** Folding the same writes in any order and with any repetition ends at the same clock. */
  lemma FoldsConverge(first: Clock, writes: seq<Clock>, first': Clock, writes': seq<Clock>)
    requires {first} + (set w | w in writes) == {first'} + (set w | w in writes')
    ensures Current(Replay(first, writes)) == Current(Replay(first', writes'))
  {
    WritesOfReplay(first, writes);
    WritesOfReplay(first', writes');
    ReplicasConverge(Replay(first, writes), Replay(first', writes'));
  }
}
