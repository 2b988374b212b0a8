/** The responder's rate limiter: a swept cache of an answer history, measured against the history
    itself. Instants and windows are nanoseconds of a monotone clock. */
module Beacon {
  import opened Sets

  type Instant = nat

  /** An address, V4 or V6, as its number. */
  datatype Origin = V4(bits: nat) | V6(bits: nat)

  datatype Answer = Answer(origin: Origin, at: Instant)

  const PER_ORIGIN: nat := 4
  const PER_ORIGIN_WINDOW: nat := 10 * GLOBAL_WINDOW
  const GLOBAL: nat := 50
  const GLOBAL_WINDOW: nat := 1_000_000_000
  const SWEEP_AT: nat := 1024

  // ----- windows over a history

  predicate Sorted(times: seq<Instant>) {
    forall i, j :: 0 <= i < j < |times| ==> times[i] <= times[j]
  }

  /** `now.saturating_duration_since(t) >= window` */
  predicate Stale(t: Instant, now: Instant, window: nat) {
    (if now >= t then now - t else 0) >= window
  }

  /** How many of `times` lie in the half-open window of length `window` that ends at `now`. */
  function Count(times: seq<Instant>, now: Instant, window: nat): nat {
    if times == [] then 0
    else
      var last := times[|times|-1];
      Count(times[..|times|-1], now, window) + if last <= now && now - last < window then 1 else 0
  }

  lemma CountSnoc(times: seq<Instant>, t: Instant, now: Instant, window: nat)
    ensures Count(times + [t], now, window) == Count(times, now, window) + if t <= now && now - t < window then 1 else 0
  {
    assert (times + [t])[..|times|] == times;
  }

  /** Over times up to now, dropping a stale prefix leaves exactly the window. */
  lemma {:induction false} CountSuffix(times: seq<Instant>, k: nat, now: Instant, window: nat)
    requires k <= |times|
    requires forall i :: 0 <= i < |times| ==> times[i] <= now
    requires forall i :: 0 <= i < k ==> now - times[i] >= window
    requires forall i :: k <= i < |times| ==> now - times[i] < window
    ensures Count(times, now, window) == |times| - k
    decreases |times|
  {
    if times != [] {
      var init := times[..|times|-1];
      CountSuffix(init, if k <= |init| then k else |init|, now, window);
    }
  }

  /** What `kept` must be to stand for `full`: what is missing is a prefix that is stale by now. */
  ghost predicate StandsFor(kept: seq<Instant>, full: seq<Instant>, now: Instant, window: nat) {
    && |kept| <= |full|
    && kept == full[|full| - |kept|..]
    && forall i :: 0 <= i < |full| - |kept| ==> full[i] <= now && now - full[i] >= window
  }

  // ----- the queue

  /** `rest` is `times` after popping every stale instant off its front, and no other. */
  ghost predicate Forgotten(times: seq<Instant>, now: Instant, window: nat, rest: seq<Instant>) {
    && |rest| <= |times| && rest == times[|times| - |rest|..]
    && (forall i :: 0 <= i < |times| - |rest| ==> Stale(times[i], now, window))
    && (rest != [] ==> !Stale(rest[0], now, window))
  }

  method ForgetBefore(times: seq<Instant>, now: Instant, window: nat) returns (rest: seq<Instant>)
    ensures Forgotten(times, now, window, rest)
  {
    rest := times;
    while rest != [] && Stale(rest[0], now, window)
      invariant |rest| <= |times| && rest == times[|times| - |rest|..]
      invariant forall i :: 0 <= i < |times| - |rest| ==> Stale(times[i], now, window)
    {
      rest := rest[1..];
    }
  }

  /** After forgetting, the length of the queue is the count over the whole history. */
  lemma ForgottenCounts(full: seq<Instant>, kept: seq<Instant>, before: Instant, now: Instant, window: nat, rest: seq<Instant>)
    requires window > 0 && Sorted(full) && before <= now && forall i :: 0 <= i < |full| ==> full[i] <= before
    requires StandsFor(kept, full, before, window) && Forgotten(kept, now, window, rest)
    ensures StandsFor(rest, full, now, window)
    ensures |rest| == Count(full, now, window)
  {
    var k := |full| - |rest|;
    forall i | 0 <= i < k ensures now - full[i] >= window {
      if i >= |full| - |kept| {
        assert full[i] == kept[i - (|full| - |kept|)];
      }
    }
    forall i | k <= i < |full| ensures now - full[i] < window {
      assert full[k] == rest[0] && full[k] <= full[i];
    }
    CountSuffix(full, k, now, window);
  }

  lemma StandsForLater(kept: seq<Instant>, full: seq<Instant>, before: Instant, now: Instant, window: nat)
    requires StandsFor(kept, full, before, window) && before <= now
    ensures StandsFor(kept, full, now, window)
  {
  }

  lemma StandsForSnoc(kept: seq<Instant>, full: seq<Instant>, now: Instant, window: nat, t: Instant)
    requires StandsFor(kept, full, now, window)
    ensures StandsFor(kept + [t], full + [t], now, window)
  {
  }

  // ----- pace

  /** No window of this length, wherever it ends, holds more than `limit`. */
  ghost predicate Paced(times: seq<Instant>, limit: nat, window: nat) {
    forall t :: Count(times, t, window) <= limit
  }

  /** Past the last of them, a later window only loses times. */
  lemma {:induction false} CountShrinks(times: seq<Instant>, t: Instant, u: Instant, window: nat)
    requires t <= u && forall i :: 0 <= i < |times| ==> times[i] <= t
    ensures Count(times, u, window) <= Count(times, t, window)
    decreases |times|
  {
    if times != [] {
      CountShrinks(times[..|times|-1], t, u, window);
    }
  }

  lemma PacedSnoc(times: seq<Instant>, t: Instant, limit: nat, window: nat)
    requires Paced(times, limit, window) && forall i :: 0 <= i < |times| ==> times[i] <= t
    requires Count(times, t, window) < limit
    ensures Paced(times + [t], limit, window)
  {
    forall u ensures Count(times + [t], u, window) <= limit {
      CountSnoc(times, t, u, window);
      if t <= u {
        CountShrinks(times, t, u, window);
      }
    }
  }

  /** A window of n + 1 lengths is one length and, before it, a window of n. */
  lemma {:induction false} CountSplits(times: seq<Instant>, now: Instant, first: nat, second: nat)
    ensures Count(times, now, first + second) ==
      Count(times, now, first) + if first <= now then Count(times, now - first, second) else 0
    decreases |times|
  {
    if times != [] {
      CountSplits(times[..|times|-1], now, first, second);
    }
  }

  lemma {:induction false} PacedLonger(times: seq<Instant>, now: Instant, limit: nat, window: nat, n: nat)
    requires Paced(times, limit, window)
    ensures Count(times, now, n * window) <= n * limit
    decreases n
  {
    if n == 0 {
      CountNone(times, now);
    } else {
      CountSplits(times, now, window, (n - 1) * window);
      assert n * window == window + (n - 1) * window;
      if window <= now {
        PacedLonger(times, now - window, limit, window, n - 1);
      }
      assert n * limit == limit + (n - 1) * limit;
    }
  }

  lemma {:induction false} CountNone(times: seq<Instant>, now: Instant)
    ensures Count(times, now, 0) == 0
    decreases |times|
  {
    if times != [] {
      CountNone(times[..|times|-1], now);
    }
  }

  // ----- a history of answers

  function Times(history: seq<Answer>): (r: seq<Instant>)
    ensures |r| == |history| && forall i :: 0 <= i < |r| ==> r[i] == history[i].at
  {
    seq(|history|, i requires 0 <= i < |history| => history[i].at)
  }

  function TimesOf(history: seq<Answer>, origin: Origin): seq<Instant> {
    if history == [] then []
    else
      var last := history[|history|-1];
      TimesOf(history[..|history|-1], origin) + if last.origin == origin then [last.at] else []
  }

  lemma TimesSnoc(history: seq<Answer>, a: Answer, origin: Origin)
    ensures Times(history + [a]) == Times(history) + [a.at]
    ensures TimesOf(history + [a], origin) == TimesOf(history, origin) + if a.origin == origin then [a.at] else []
  {
    assert (history + [a])[..|history|] == history;
  }

  /** Answers in the order they were given, none after `now`. */
  ghost predicate UpTo(history: seq<Answer>, now: Instant) {
    && (forall i, j :: 0 <= i < j < |history| ==> history[i].at <= history[j].at)
    && (forall i :: 0 <= i < |history| ==> history[i].at <= now)
  }

  lemma {:induction false} TimesOfOrdered(history: seq<Answer>, origin: Origin, now: Instant)
    requires UpTo(history, now)
    ensures Sorted(TimesOf(history, origin))
    ensures forall i :: 0 <= i < |TimesOf(history, origin)| ==> TimesOf(history, origin)[i] <= now
    ensures history != [] ==> forall i :: 0 <= i < |TimesOf(history, origin)| ==>
      TimesOf(history, origin)[i] <= history[|history|-1].at
    decreases |history|
  {
    if history != [] {
      var init, last := history[..|history|-1], history[|history|-1];
      TimesOfOrdered(init, origin, now);
      if init != [] {
        assert init[|init|-1].at <= last.at;
      }
    }
  }

  /** The whole rule, over everything ever answered. */
  predicate Permits(history: seq<Answer>, origin: Origin, now: Instant) {
    && Count(Times(history), now, GLOBAL_WINDOW) < GLOBAL
    && Count(TimesOf(history, origin), now, PER_ORIGIN_WINDOW) < PER_ORIGIN
  }

  // ----- live origins

  ghost function Live(history: seq<Answer>, now: Instant): set<Origin> {
    set a | a in history && a.at <= now && now - a.at < PER_ORIGIN_WINDOW :: a.origin
  }

  lemma {:induction false} LiveCounted(history: seq<Answer>, now: Instant)
    ensures |Live(history, now)| <= Count(Times(history), now, PER_ORIGIN_WINDOW)
    decreases |history|
  {
    if history == [] {
      assert Live(history, now) == {};
    } else {
      var init, last := history[..|history|-1], history[|history|-1];
      LiveCounted(init, now);
      assert history == init + [last];
      TimesSnoc(init, last, last.origin);
      CountSnoc(Times(init), last.at, now, PER_ORIGIN_WINDOW);
      var more := if last.at <= now && now - last.at < PER_ORIGIN_WINDOW then {last.origin} else {};
      assert Live(history, now) == Live(init, now) + more;
      assert |Live(init, now) + more| <= |Live(init, now)| + |more|;
    }
  }

  /** A second holds at most fifty answers, so ten hold at most five hundred origins. */
  lemma LiveBounded(history: seq<Answer>, now: Instant)
    requires Paced(Times(history), GLOBAL, GLOBAL_WINDOW)
    ensures |Live(history, now)| <= 500
  {
    LiveCounted(history, now);
    PacedLonger(Times(history), now, GLOBAL, GLOBAL_WINDOW, 10);
  }

  lemma {:induction false} FreshIsLive(history: seq<Answer>, origin: Origin, now: Instant, t: Instant)
    requires t in TimesOf(history, origin) && t <= now && now - t < PER_ORIGIN_WINDOW
    ensures origin in Live(history, now)
    decreases |history|
  {
    var init, last := history[..|history|-1], history[|history|-1];
    if t in TimesOf(init, origin) {
      FreshIsLive(init, origin, now, t);
      assert forall a :: a in init ==> a in history;
    } else {
      assert last in history;
    }
  }

  // ----- the limiter

  function Queue(perOrigin: map<Origin, seq<Instant>>, origin: Origin): seq<Instant> {
    if origin in perOrigin then perOrigin[origin] else []
  }

  /** The table of queues stands for the history, origin by origin; an origin without an entry
      has nothing left in its window. */
  ghost predicate Caches(perOrigin: map<Origin, seq<Instant>>, history: seq<Answer>, now: Instant) {
    forall o :: StandsFor(Queue(perOrigin, o), TimesOf(history, o), now, PER_ORIGIN_WINDOW)
  }

  /** No stored queue is empty, none is longer than its budget. */
  ghost predicate Tight(perOrigin: map<Origin, seq<Instant>>) {
    forall o :: o in perOrigin ==> 0 < |perOrigin[o]| <= PER_ORIGIN
  }

  ghost predicate AllPaced(history: seq<Answer>) {
    && Paced(Times(history), GLOBAL, GLOBAL_WINDOW)
    && forall o :: Paced(TimesOf(history, o), PER_ORIGIN, PER_ORIGIN_WINDOW)
  }

  lemma CachesLater(perOrigin: map<Origin, seq<Instant>>, history: seq<Answer>, before: Instant, now: Instant)
    requires Caches(perOrigin, history, before) && before <= now
    ensures Caches(perOrigin, history, now)
  {
    forall o ensures StandsFor(Queue(perOrigin, o), TimesOf(history, o), now, PER_ORIGIN_WINDOW) {
      StandsForLater(Queue(perOrigin, o), TimesOf(history, o), before, now, PER_ORIGIN_WINDOW);
    }
  }

  lemma CachesForgotten(perOrigin: map<Origin, seq<Instant>>, history: seq<Answer>, before: Instant, now: Instant,
                        origin: Origin, mine: seq<Instant>)
    requires Caches(perOrigin, history, before) && before <= now && UpTo(history, before)
    requires Forgotten(Queue(perOrigin, origin), now, PER_ORIGIN_WINDOW, mine)
    ensures Caches(perOrigin[origin := mine], history, now)
    ensures |mine| == Count(TimesOf(history, origin), now, PER_ORIGIN_WINDOW)
  {
    CachesLater(perOrigin, history, before, now);
    TimesOfOrdered(history, origin, before);
    ForgottenCounts(TimesOf(history, origin), Queue(perOrigin, origin), before, now, PER_ORIGIN_WINDOW, mine);
    hide StandsFor, Forgotten, UpTo, Count, TimesOf;
    forall o ensures StandsFor(Queue(perOrigin[origin := mine], o), TimesOf(history, o), now, PER_ORIGIN_WINDOW) {
      assert o != origin ==> Queue(perOrigin[origin := mine], o) == Queue(perOrigin, o);
    }
  }

  lemma CachesAnswered(perOrigin: map<Origin, seq<Instant>>, history: seq<Answer>, now: Instant, origin: Origin)
    requires Caches(perOrigin, history, now) && origin in perOrigin
    ensures Caches(perOrigin[origin := perOrigin[origin] + [now]], history + [Answer(origin, now)], now)
  {
    forall o ensures
      StandsFor(Queue(perOrigin[origin := perOrigin[origin] + [now]], o), TimesOf(history + [Answer(origin, now)], o),
                now, PER_ORIGIN_WINDOW)
    {
      TimesSnoc(history, Answer(origin, now), o);
      StandsForSnoc(Queue(perOrigin, o), TimesOf(history, o), now, PER_ORIGIN_WINDOW, now);
    }
  }

  /** Every queue of `after` is its queue of `before` with the stale front popped; queues that
      empty lose their entry. */
  ghost predicate Swept(before: map<Origin, seq<Instant>>, after: map<Origin, seq<Instant>>, now: Instant) {
    && after.Keys <= before.Keys
    && (forall o :: o in before ==> Forgotten(before[o], now, PER_ORIGIN_WINDOW, Queue(after, o)))
    && (forall o :: o in after ==> after[o] != [])
  }

  lemma SweptCaches(before: map<Origin, seq<Instant>>, after: map<Origin, seq<Instant>>, history: seq<Answer>, now: Instant)
    requires Caches(before, history, now) && UpTo(history, now) && Swept(before, after, now) && Tight(before)
    ensures Caches(after, history, now) && Tight(after)
  {
    forall o ensures StandsFor(Queue(after, o), TimesOf(history, o), now, PER_ORIGIN_WINDOW) {
      if o in before {
        TimesOfOrdered(history, o, now);
        ForgottenCounts(TimesOf(history, o), before[o], now, now, PER_ORIGIN_WINDOW, Queue(after, o));
      }
    }
    forall o | o in after ensures 0 < |after[o]| <= PER_ORIGIN {
      assert Queue(after, o) == after[o];
    }
  }

  /** What a sweep leaves is live, so there is at most five hundred of it. */
  lemma SweptBounded(before: map<Origin, seq<Instant>>, after: map<Origin, seq<Instant>>, history: seq<Answer>, now: Instant)
    requires Caches(before, history, now) && UpTo(history, now) && Swept(before, after, now)
    requires Paced(Times(history), GLOBAL, GLOBAL_WINDOW)
    ensures |after| <= 500
  {
    forall o | o in after ensures o in Live(history, now) {
      var kept, full := after[o], TimesOf(history, o);
      assert Queue(after, o) == kept;
      assert kept[0] == before[o][|before[o]| - |kept|] && before[o] == full[|full| - |before[o]|..];
      TimesOfOrdered(history, o, now);
      FreshIsLive(history, o, now, kept[0]);
    }
    LiveBounded(history, now);
    SubsetSize(after.Keys, Live(history, now));
    assert |after.Keys| == |after|;
  }

  lemma PacedAnswered(history: seq<Answer>, origin: Origin, now: Instant)
    requires AllPaced(history) && UpTo(history, now) && Permits(history, origin, now)
    ensures AllPaced(history + [Answer(origin, now)]) && UpTo(history + [Answer(origin, now)], now)
  {
    var more := history + [Answer(origin, now)];
    TimesSnoc(history, Answer(origin, now), origin);
    PacedSnoc(Times(history), now, GLOBAL, GLOBAL_WINDOW);
    forall o ensures Paced(TimesOf(more, o), PER_ORIGIN, PER_ORIGIN_WINDOW) {
      TimesSnoc(history, Answer(origin, now), o);
      TimesOfOrdered(history, o, now);
      if o == origin {
        PacedSnoc(TimesOf(history, o), now, PER_ORIGIN, PER_ORIGIN_WINDOW);
      } else {
        assert TimesOf(more, o) == TimesOf(history, o);
      }
    }
  }

  lemma UpToLater(history: seq<Answer>, before: Instant, now: Instant)
    requires UpTo(history, before) && before <= now
    ensures UpTo(history, now)
  {
  }

  lemma GlobalForgotten(history: seq<Answer>, global: seq<Instant>, before: Instant, now: Instant, rest: seq<Instant>)
    requires UpTo(history, before) && before <= now
    requires StandsFor(global, Times(history), before, GLOBAL_WINDOW) && Forgotten(global, now, GLOBAL_WINDOW, rest)
    ensures StandsFor(rest, Times(history), now, GLOBAL_WINDOW) && |rest| <= |global|
    ensures |rest| == Count(Times(history), now, GLOBAL_WINDOW)
  {
    ForgottenCounts(Times(history), global, before, now, GLOBAL_WINDOW, rest);
  }

  lemma GlobalAnswered(history: seq<Answer>, global: seq<Instant>, origin: Origin, now: Instant)
    requires StandsFor(global, Times(history), now, GLOBAL_WINDOW)
    ensures StandsFor(global + [now], Times(history + [Answer(origin, now)]), now, GLOBAL_WINDOW)
  {
    TimesSnoc(history, Answer(origin, now), origin);
    StandsForSnoc(global, Times(history), now, GLOBAL_WINDOW, now);
  }

  lemma PutSize<K, V>(m: map<K, V>, k: K, v: V)
    ensures |m[k := v]| <= |m| + 1
    ensures k in m ==> |m[k := v]| == |m|
  {
    assert m[k := v].Keys == m.Keys + {k};
    assert |m[k := v].Keys| == |m[k := v]| && |m.Keys| == |m|;
    if k in m {
      assert m.Keys + {k} == m.Keys;
    }
  }

  /** A queue that is already full had an entry; any other ends non-empty and within budget. */
  lemma TightForgotten(perOrigin: map<Origin, seq<Instant>>, origin: Origin, now: Instant, mine: seq<Instant>)
    requires Tight(perOrigin) && Forgotten(Queue(perOrigin, origin), now, PER_ORIGIN_WINDOW, mine)
    ensures if |mine| >= PER_ORIGIN
            then Tight(perOrigin[origin := mine]) && |perOrigin[origin := mine]| == |perOrigin|
            else Tight(perOrigin[origin := mine + [now]]) && |perOrigin[origin := mine + [now]]| <= |perOrigin| + 1
  {
    assert |mine| <= |Queue(perOrigin, origin)|;
    hide Forgotten;
    PutSize(perOrigin, origin, mine);
    PutSize(perOrigin, origin, mine + [now]);
  }

  // ----- the invariant, and what each way through `Allow` does to it

  ghost predicate Consistent(perOrigin: map<Origin, seq<Instant>>, global: seq<Instant>, history: seq<Answer>,
                             clock: Instant, cap: nat) {
    && UpTo(history, clock)
    && StandsFor(global, Times(history), clock, GLOBAL_WINDOW) && |global| <= GLOBAL
    && Caches(perOrigin, history, clock) && Tight(perOrigin) && |perOrigin| <= cap
    && AllPaced(history)
  }

  lemma GlobalStep(perOrigin: map<Origin, seq<Instant>>, global: seq<Instant>, history: seq<Answer>,
                   before: Instant, now: Instant, recent: seq<Instant>, cap: nat)
    requires Consistent(perOrigin, global, history, before, cap) && before <= now
    requires Forgotten(global, now, GLOBAL_WINDOW, recent)
    ensures Consistent(perOrigin, recent, history, now, cap)
    ensures |recent| == Count(Times(history), now, GLOBAL_WINDOW)
  {
    hide StandsFor, Forgotten, Caches, Tight, AllPaced, Count, Times;
    GlobalForgotten(history, global, before, now, recent);
    CachesLater(perOrigin, history, before, now);
    UpToLater(history, before, now);
  }

  lemma RefusedStep(perOrigin: map<Origin, seq<Instant>>, global: seq<Instant>, history: seq<Answer>,
                    now: Instant, origin: Origin, mine: seq<Instant>, cap: nat)
    requires Consistent(perOrigin, global, history, now, cap)
    requires Forgotten(Queue(perOrigin, origin), now, PER_ORIGIN_WINDOW, mine)
    ensures |mine| == Count(TimesOf(history, origin), now, PER_ORIGIN_WINDOW)
    ensures |mine| >= PER_ORIGIN ==> Consistent(perOrigin[origin := mine], global, history, now, cap)
  {
    hide UpTo, StandsFor, Forgotten, Caches, Tight, AllPaced, Count, Times, TimesOf, Queue;
    CachesForgotten(perOrigin, history, now, now, origin, mine);
    TightForgotten(perOrigin, origin, now, mine);
  }

  lemma AllowedStep(perOrigin: map<Origin, seq<Instant>>, global: seq<Instant>, history: seq<Answer>,
                    now: Instant, origin: Origin, mine: seq<Instant>, cap: nat)
    requires Consistent(perOrigin, global, history, now, cap) && Permits(history, origin, now)
    requires Forgotten(Queue(perOrigin, origin), now, PER_ORIGIN_WINDOW, mine)
    requires |global| < GLOBAL && |mine| < PER_ORIGIN
    ensures Consistent(perOrigin[origin := mine + [now]], global + [now], history + [Answer(origin, now)], now, cap + 1)
  {
    hide UpTo, StandsFor, Forgotten, Caches, Tight, AllPaced, Count, Times, TimesOf, Queue, Permits;
    CachesForgotten(perOrigin, history, now, now, origin, mine);
    TightForgotten(perOrigin, origin, now, mine);
    CachesAnswered(perOrigin[origin := mine], history, now, origin);
    assert perOrigin[origin := mine][origin := mine + [now]] == perOrigin[origin := mine + [now]];
    GlobalAnswered(history, global, origin, now);
    PacedAnswered(history, origin, now);
  }

  lemma SweptStep(before: map<Origin, seq<Instant>>, after: map<Origin, seq<Instant>>, global: seq<Instant>,
                  history: seq<Answer>, now: Instant, cap: nat)
    requires Consistent(before, global, history, now, cap) && Swept(before, after, now)
    ensures Consistent(after, global, history, now, 500)
  {
    hide UpTo, StandsFor, Caches, Tight, Swept, Times, TimesOf;
    SweptCaches(before, after, history, now);
    SweptBounded(before, after, history, now);
  }

  lemma Recap(perOrigin: map<Origin, seq<Instant>>, global: seq<Instant>, history: seq<Answer>, now: Instant)
    requires Consistent(perOrigin, global, history, now, 500)
      || (Consistent(perOrigin, global, history, now, SWEEP_AT + 1) && |perOrigin| <= SWEEP_AT)
    ensures Consistent(perOrigin, global, history, now, SWEEP_AT)
  {
    hide UpTo, StandsFor, Caches, Tight, AllPaced, Times;
  }

  class Limiter {
    var perOrigin: map<Origin, seq<Instant>>
    var global: seq<Instant>
    /** Every answer ever allowed, and the last instant `Allow` was asked at. */
    ghost var history: seq<Answer>
    ghost var clock: Instant

    ghost predicate Valid()
      reads this
    {
      Consistent(perOrigin, global, history, clock, SWEEP_AT)
    }

    constructor ()
      ensures Valid() && history == [] && clock == 0
    {
      perOrigin, global, history, clock := map[], [], [], 0;
      new;
      forall o ensures TimesOf(history, o) == [] {}
    }

    /** `retain`: forgets in every queue and drops the entries left empty, in any order. */
    method Sweep(now: Instant)
      modifies this`perOrigin
      ensures Swept(old(perOrigin), perOrigin, now)
    {
      var left, swept := perOrigin.Keys, map[];
      while left != {}
        invariant left <= perOrigin.Keys && perOrigin == old(perOrigin)
        invariant swept.Keys <= perOrigin.Keys - left
        invariant forall o :: o in perOrigin && o !in left ==>
          Forgotten(perOrigin[o], now, PER_ORIGIN_WINDOW, Queue(swept, o))
        invariant forall o :: o in swept ==> swept[o] != []
        decreases left
      {
        var o :| o in left;
        var times := ForgetBefore(perOrigin[o], now, PER_ORIGIN_WINDOW);
        if times != [] {
          swept := swept[o := times];
        }
        left := left - {o};
      }
      perOrigin := swept;
    }

    /** The answer is the one the whole history gives, whatever has been popped or swept. */
    method Allow(origin: Origin, now: Instant) returns (ok: bool)
      requires Valid() && clock <= now
      modifies this
      ensures Valid() && clock == now
      ensures ok <==> Permits(old(history), origin, now)
      ensures history == old(history) + if ok then [Answer(origin, now)] else []
    {
      hide Consistent, Forgotten, Swept, Count, Times, TimesOf;
      var recent := ForgetBefore(global, now, GLOBAL_WINDOW);
      GlobalStep(perOrigin, global, history, clock, now, recent, SWEEP_AT);
      global, clock := recent, now;
      if |global| >= GLOBAL {
        return false;
      }
      var mine := if origin in perOrigin then perOrigin[origin] else [];
      mine := ForgetBefore(mine, now, PER_ORIGIN_WINDOW);
      RefusedStep(perOrigin, global, history, now, origin, mine, SWEEP_AT);
      if |mine| >= PER_ORIGIN {
        perOrigin := perOrigin[origin := mine];
        return false;
      }
      AllowedStep(perOrigin, global, history, now, origin, mine, SWEEP_AT);
      perOrigin := perOrigin[origin := mine + [now]];
      global := global + [now];
      history := history + [Answer(origin, now)];
      if |perOrigin| > SWEEP_AT {
        ghost var before := perOrigin;
        Sweep(now);
        SweptStep(before, perOrigin, global, history, now, SWEEP_AT + 1);
      }
      Recap(perOrigin, global, history, now);
      ok := true;
    }
  }

  // ----- the rule, spelled out

  ghost predicate Within(history: seq<Answer>, i: nat, now: Instant, long: nat) {
    i < |history| && history[i].at <= now && now - history[i].at < long
  }

  /** Which of the answers given fall within this long before `now`. */
  ghost function Lately(history: seq<Answer>, now: Instant, long: nat): set<nat> {
    set i: nat | i < |history| && Within(history, i, now, long)
  }

  ghost function LatelyTo(history: seq<Answer>, origin: Origin, now: Instant, long: nat): set<nat> {
    set i: nat | i < |history| && Within(history, i, now, long) && history[i].origin == origin
  }

  lemma WithinSnoc(history: seq<Answer>, a: Answer, now: Instant, long: nat)
    ensures forall i: nat :: i < |history| ==> (Within(history + [a], i, now, long) <==> Within(history, i, now, long))
    ensures Within(history + [a], |history|, now, long) <==> a.at <= now && now - a.at < long
  {
  }

  lemma LatelySnoc(history: seq<Answer>, a: Answer, now: Instant, long: nat)
    ensures |Lately(history + [a], now, long)| ==
      |Lately(history, now, long)| + if a.at <= now && now - a.at < long then 1 else 0
  {
    WithinSnoc(history, a, now, long);
    hide Within;
    var n, was, after := |history|, Lately(history, now, long), Lately(history + [a], now, long);
    assert n !in was;
    if n in after {
      assert after == was + {n};
    } else {
      assert after == was;
    }
  }

  lemma LatelyToSnoc(history: seq<Answer>, a: Answer, origin: Origin, now: Instant, long: nat)
    ensures |LatelyTo(history + [a], origin, now, long)| ==
      |LatelyTo(history, origin, now, long)| + if a.origin == origin && a.at <= now && now - a.at < long then 1 else 0
  {
    WithinSnoc(history, a, now, long);
    hide Within;
    var n, was, after := |history|, LatelyTo(history, origin, now, long), LatelyTo(history + [a], origin, now, long);
    assert n !in was;
    if n in after {
      assert after == was + {n};
    } else {
      assert after == was;
    }
  }

  lemma {:induction false} CountIs(history: seq<Answer>, origin: Origin, now: Instant, long: nat)
    ensures Count(Times(history), now, long) == |Lately(history, now, long)|
    ensures Count(TimesOf(history, origin), now, long) == |LatelyTo(history, origin, now, long)|
    decreases |history|
  {
    if history == [] {
      assert Lately(history, now, long) == {} && LatelyTo(history, origin, now, long) == {};
    } else {
      var init, last := history[..|history| - 1], history[|history| - 1];
      hide *;
      CountIs(init, origin, now, long);
      assert history == init + [last];
      TimesSnoc(init, last, origin);
      CountSnoc(Times(init), last.at, now, long);
      CountSnoc(TimesOf(init, origin), last.at, now, long);
      LatelySnoc(init, last, now, long);
      LatelyToSnoc(init, last, origin, now, long);
      assert TimesOf(init, origin) + [] == TimesOf(init, origin);
    }
  }

  /** An answer is allowed exactly when fewer than fifty were given within a second, and fewer than
      four to that origin within ten; and over a paced history it is refused only where one more
      would be too many. */
  lemma PermitsIff(history: seq<Answer>, origin: Origin, now: Instant)
    ensures Permits(history, origin, now) <==>
      |Lately(history, now, 1_000_000_000)| < 50 && |LatelyTo(history, origin, now, 10_000_000_000)| < 4
    ensures AllPaced(history) && UpTo(history, now) ==>
      (Permits(history, origin, now) <==> AllPaced(history + [Answer(origin, now)]))
  {
    CountIs(history, origin, now, GLOBAL_WINDOW);
    CountIs(history, origin, now, PER_ORIGIN_WINDOW);
    if AllPaced(history) && UpTo(history, now) {
      if Permits(history, origin, now) {
        PacedAnswered(history, origin, now);
      } else {
        OneTooMany(history, origin, now);
      }
    }
  }

  lemma OneTooMany(history: seq<Answer>, origin: Origin, now: Instant)
    requires !Permits(history, origin, now)
    ensures !AllPaced(history + [Answer(origin, now)])
  {
    var more := history + [Answer(origin, now)];
    TimesSnoc(history, Answer(origin, now), origin);
    CountSnoc(Times(history), now, now, GLOBAL_WINDOW);
    CountSnoc(TimesOf(history, origin), now, now, PER_ORIGIN_WINDOW);
    hide Times, TimesOf, Count;
    assert Count(Times(more), now, GLOBAL_WINDOW) > GLOBAL || Count(TimesOf(more, origin), now, PER_ORIGIN_WINDOW) > PER_ORIGIN;
  }

  /** Paced, in plain numbers. */
  lemma PacedIs(history: seq<Answer>)
    requires AllPaced(history)
    ensures forall t: Instant :: |Lately(history, t, 1_000_000_000)| <= 50
    ensures forall o: Origin, t: Instant :: |LatelyTo(history, o, t, 10_000_000_000)| <= 4
  {
    forall t: Instant ensures |Lately(history, t, 1_000_000_000)| <= 50 {
      CountIs(history, V4(0), t, GLOBAL_WINDOW);
    }
    forall o: Origin, t: Instant ensures |LatelyTo(history, o, t, 10_000_000_000)| <= 4 {
      CountIs(history, o, t, PER_ORIGIN_WINDOW);
    }
  }

  // ----- whole runs

  /** A clock that never runs back. */
  ghost predicate Monotone(asked: seq<(Origin, Instant)>) {
    forall i, j :: 0 <= i < j < |asked| ==> asked[i].1 <= asked[j].1
  }

  /** The reference: no queue, no sweep, only the rule over everything answered so far. */
  function Answered(asked: seq<(Origin, Instant)>): (seq<bool>, seq<Answer>) {
    if asked == [] then ([], [])
    else
      var (oks, history) := Answered(asked[..|asked|-1]);
      var (origin, now) := asked[|asked|-1];
      var ok := Permits(history, origin, now);
      (oks + [ok], history + if ok then [Answer(origin, now)] else [])
  }

  lemma NothingAnswered(asked: seq<(Origin, Instant)>)
    ensures Answered(asked[..0]) == ([], [])
  {
  }

  lemma AnsweredNext(asked: seq<(Origin, Instant)>, n: nat)
    requires n < |asked|
    ensures var (oks, history) := Answered(asked[..n]);
      var ok := Permits(history, asked[n].0, asked[n].1);
      Answered(asked[..n + 1]) == (oks + [ok], history + if ok then [Answer(asked[n].0, asked[n].1)] else [])
  {
    assert asked[..n + 1][..n] == asked[..n];
    hide Permits;
  }

  /** Over any run the limiter gives the answers of the reference. */
  method Respond(asked: seq<(Origin, Instant)>) returns (oks: seq<bool>)
    requires Monotone(asked)
    ensures oks == Answered(asked).0
  {
    hide Answered, Permits, Consistent;
    var limiter := new Limiter();
    NothingAnswered(asked);
    oks := [];
    for n := 0 to |asked|
      invariant fresh(limiter) && limiter.Valid()
      invariant limiter.clock == if n == 0 then 0 else asked[n-1].1
      invariant (oks, limiter.history) == Answered(asked[..n])
    {
      AnsweredNext(asked, n);
      var ok := limiter.Allow(asked[n].0, asked[n].1);
      oks := oks + [ok];
    }
    assert asked[..|asked|] == asked;
  }

  lemma {:induction false} AnsweredPaced(asked: seq<(Origin, Instant)>)
    requires Monotone(asked)
    ensures AllPaced(Answered(asked).1)
    ensures asked != [] ==> UpTo(Answered(asked).1, asked[|asked|-1].1)
    decreases |asked|
  {
    if asked == [] {
      NothingPaced();
    } else {
      var init := asked[..|asked|-1];
      var (origin, now) := asked[|asked|-1];
      AnsweredPaced(init);
      var history := Answered(init).1;
      if init != [] {
        assert init[|init|-1].1 <= now;
        UpToLater(history, init[|init|-1].1, now);
      }
      if Permits(history, origin, now) {
        PacedAnswered(history, origin, now);
      }
      assert history + [] == history;
    }
  }

  /** Whatever is asked, no second holds more than fifty answers and no ten seconds more than
      four to one origin. */
  lemma RunPaced(asked: seq<(Origin, Instant)>)
    requires Monotone(asked)
    ensures forall t: Instant :: |Lately(Answered(asked).1, t, 1_000_000_000)| <= 50
    ensures forall o: Origin, t: Instant :: |LatelyTo(Answered(asked).1, o, t, 10_000_000_000)| <= 4
  {
    hide Answered, AllPaced;
    AnsweredPaced(asked);
    PacedIs(Answered(asked).1);
  }

  lemma NothingPaced()
    ensures AllPaced([])
  {
    assert Times([]) == [];
    assert forall o :: TimesOf([], o) == [];
  }
}
