/** A purge and the rest of a run: every step that could be taken without it can be taken after it,
    to the same accounts, credentials and creations, and to what looks the same to a pairing. */
module PairingPurge {
  import opened Wrappers
  import opened Sets
  import opened Pairing
  import opened PairingRuns

  /** Used or expired before the instant a purge goes by. */
  predicate Old(row: Code, before: Time) {
    (row.used.Some? && row.used.value < before) || row.expires < before
  }

  function Less(t: Tables, gone: set<Id>): Tables {
    t.(codes := map c | c in t.codes && c !in gone :: t.codes[c])
  }

  function PurgedAt(t: Tables, now: Time): set<Id> {
    set c | c in t.codes && Old(t.codes[c], now - PAIRING_RETAIN)
  }

  /** A claim in flight that is not older than the purge's instant, and the same claim where the
      purge took place: they saw the same, codes since gone aside. */
  ghost predicate ClaimAlike(a: PendingClaim, b: PendingClaim, gone: set<Id>, before: Time) {
    && b.request == a.request && a.request.now > before
    && b.seen.accounts == a.seen.accounts && b.seen.credentials == a.seen.credentials
    && (forall c :: c !in gone ==> (c in a.seen.codes <==> c in b.seen.codes))
    && (forall c :: c !in gone && c in a.seen.codes ==> b.seen.codes[c] == a.seen.codes[c])
  }

  /** `o` is `s` without the codes of `gone`, none of which is young again or ever given out again. */
  ghost predicate Alike(s: State, o: State, gone: set<Id>, before: Time) {
    && o.t == Less(s.t, gone)
    && o.looks == s.looks && o.issues == s.issues && o.clock == s.clock && o.issued == s.issued && o.created == s.created
    && gone <= s.issued && s.clock > before
    && (forall c :: c in gone && c in s.t.codes ==> Old(s.t.codes[c], before))
    && o.claims.Keys == s.claims.Keys
    && (forall p :: p in s.claims ==> ClaimAlike(s.claims[p], o.claims[p], gone, before))
  }

  // ----- what the steps do to tables without some codes

  lemma LessCodes(t: Tables, gone: set<Id>, id: Id, hit: set<Id>, now: Time)
    ensures DropUnused(Less(t, gone), id) == Less(DropUnused(t, id), gone)
    ensures RevokeCredentials(Less(t, gone), hit, now) == Less(RevokeCredentials(t, hit, now), gone)
    ensures Purge(Less(t, gone), now) == Less(Purge(t, now), gone)
    ensures id in t.accounts ==> RevokeAccountRow(Less(t, gone), id, now) == Less(RevokeAccountRow(t, id, now), gone)
  {
    assert DropUnused(Less(t, gone), id).codes == Less(DropUnused(t, id), gone).codes;
    assert Purge(Less(t, gone), now).codes == Less(Purge(t, now), gone).codes;
  }

  lemma LessRevoked(t: Tables, gone: set<Id>, id: Id, now: Time)
    requires id in t.accounts
    ensures RevokeRows(Less(t, gone), id, now) == Less(RevokeRows(t, id, now), gone)
  {
    var first := RevokeAccountRow(t, id, now);
    var second := RevokeCredentials(first, DevicesOf(t, id), now);
    LessCodes(t, gone, id, {}, now);
    LessCodes(first, gone, id, DevicesOf(t, id), now);
    LessCodes(second, gone, id, {}, now);
    assert DevicesOf(Less(t, gone), id) == DevicesOf(t, id);
    hide Less, RevokeAccountRow, RevokeCredentials, DropUnused;
  }

  lemma LessStored(t: Tables, gone: set<Id>, c: Id, account: Id, key: Hash, deviceLabel: Option<string>, now: Time)
    requires c !in gone
    ensures StoreCode(Less(t, gone), c, account, key, deviceLabel, now) == Less(StoreCode(t, c, account, key, deviceLabel, now), gone)
  {
    assert StoreCode(Less(t, gone), c, account, key, deviceLabel, now).codes
      == Less(StoreCode(t, c, account, key, deviceLabel, now), gone).codes;
  }

  /** A claim in flight creates in both or in neither, and does the same to what is left. */
  lemma ClaimsAlike(a: PendingClaim, b: PendingClaim, t: Tables, gone: set<Id>, before: Time)
    requires ClaimAlike(a, b, gone, before)
    requires forall c :: c in gone && c in t.codes ==> Old(t.codes[c], before)
    ensures var (after, outcome) := ClaimFrom(a.seen, t, a.request);
      var (after', outcome') := ClaimFrom(b.seen, Less(t, gone), b.request);
      && after' == Less(after, gone) && (outcome.Created? <==> outcome'.Created?)
      && (outcome.Created? ==> outcome == outcome')
      && (forall c :: c in gone && c in after.codes ==> c in t.codes && after.codes[c] == t.codes[c])
  {
    var r := a.request;
    if r.code in gone {
      assert !Claimable(t, r.code, r.now) && !Claimable(Less(t, gone), r.code, r.now);
    } else if r.code in t.codes {
      LessRedeemed(t, gone, r);
    }
  }

  lemma LessRedeemed(t: Tables, gone: set<Id>, r: Request)
    requires r.code in t.codes && r.code !in gone
    ensures Redeem(Less(t, gone), r) == Less(Redeem(t, r), gone)
  {
    assert Redeem(Less(t, gone), r).codes == Less(Redeem(t, r), gone).codes;
  }

  lemma FewerActive(t: Tables, gone: set<Id>, now: Time)
    ensures |ActiveCodes(Less(t, gone), now)| <= |ActiveCodes(t, now)|
  {
    SubsetSize(ActiveCodes(Less(t, gone), now), ActiveCodes(t, now));
  }

  // ----- step by step

  lemma AlikeEnabled(s: State, o: State, gone: set<Id>, before: Time, step: Step, now: Time)
    requires Alike(s, o, gone, before) && Enabled(s, step, now)
    ensures Enabled(o, step, now)
  {
    hide ClaimAlike, ActiveCodes;
    if step.CountCodes? {
      FewerActive(s.t, gone, s.looks[step.p].at);
    }
  }

  lemma AlikeTables(s: State, o: State, gone: set<Id>, before: Time, now: Time, after: Tables)
    requires Alike(s, o, gone, before) && s.clock <= now
    requires forall c :: c in gone && c in after.codes ==> c in s.t.codes && after.codes[c] == s.t.codes[c]
    ensures Alike(s.(t := after, clock := now), o.(t := Less(after, gone), clock := now), gone, before)
  {
    hide ClaimAlike, Less;
  }

  lemma AlikeFinished(s: State, o: State, gone: set<Id>, before: Time, p: nat)
    requires Alike(s, o, gone, before) && p in s.claims
    ensures Alike(Finished(s, p), Finished(o, p), gone, before)
  {
    ClaimsAlike(s.claims[p], o.claims[p], s.t, gone, before);
    hide ClaimAlike, ClaimFrom, Less, Old;
  }

  lemma AlikeBegun(s: State, o: State, gone: set<Id>, before: Time, p: nat, request: Request)
    requires Alike(s, o, gone, before) && p !in s.claims && request.now == s.clock
    ensures Alike(s.(claims := s.claims[p := PendingClaim(s.t, request)]),
                  o.(claims := o.claims[p := PendingClaim(o.t, request)]), gone, before)
  {
    assert ClaimAlike(PendingClaim(s.t, request), PendingClaim(o.t, request), gone, before);
    hide ClaimAlike, Less, Old;
  }

  lemma StepKeepsAlike(s: State, o: State, gone: set<Id>, before: Time, step: Step, now: Time)
    requires Alike(s, o, gone, before) && Enabled(s, step, now) && Enabled(o, step, now)
    ensures Alike(Do(s, step, now), Do(o, step, now), gone, before)
  {
    hide ClaimAlike, Old, ActiveCodes, RevokeRows, RevokeCredentials, StoreCode, Purge, Finished;
    AlikeTables(s, o, gone, before, now, s.t);
    var s', o' := s.(clock := now), o.(clock := now);
    assert Alike(s', o', gone, before);
    match step {
      case AddAccount(id, name) =>
        var after := s.t.(accounts := s.t.accounts[id := Account(name, None)]);
        AlikeTables(s, o, gone, before, now, after);
      case RevokeAccount(id) =>
        LessRevoked(s.t, gone, id, now);
        RevokedCodesStay(s.t, id, now);
        hide Less;
        AlikeTables(s, o, gone, before, now, RevokeRows(s.t, id, now));
      case RevokeDevices(hit) =>
        LessCodes(s.t, gone, 0, hit, now);
        StampedCodesStay(s.t, hit, now);
        hide Less;
        AlikeTables(s, o, gone, before, now, RevokeCredentials(s.t, hit, now));
      case FindAccount(p, account) =>
      case CountCodes(p) =>
      case StoreIssue(p, code, key, deviceLabel) =>
        AlikeStored(s', o', gone, before, p, code, key, deviceLabel);
      case BeginClaim(p, request) =>
        AlikeBegun(s', o', gone, before, p, request);
      case FinishClaim(p) =>
        AlikeFinished(s', o', gone, before, p);
      case PurgeCodes =>
        LessCodes(s.t, gone, 0, {}, now);
        PurgedCodesStay(s.t, now);
        hide Less;
        AlikeTables(s, o, gone, before, now, Purge(s.t, now));
    }
  }

  lemma RevokedCodesStay(t: Tables, id: Id, now: Time)
    requires id in t.accounts
    ensures forall c :: c in RevokeRows(t, id, now).codes ==> c in t.codes && RevokeRows(t, id, now).codes[c] == t.codes[c]
  {
  }

  lemma StampedCodesStay(t: Tables, hit: set<Id>, now: Time)
    ensures RevokeCredentials(t, hit, now).codes == t.codes
  {
  }

  lemma PurgedCodesStay(t: Tables, now: Time)
    ensures forall c :: c in Purge(t, now).codes ==> c in t.codes && Purge(t, now).codes[c] == t.codes[c]
  {
  }

  lemma AlikeStored(s: State, o: State, gone: set<Id>, before: Time, p: nat, code: Id, key: Hash, deviceLabel: Option<string>)
    requires Alike(s, o, gone, before) && p in s.issues && code !in s.issued
    ensures var after := StoreCode(s.t, code, s.issues[p].account, key, deviceLabel, s.issues[p].at);
      var after' := StoreCode(o.t, code, o.issues[p].account, key, deviceLabel, o.issues[p].at);
      Alike(s.(t := after, issues := s.issues - {p}, issued := s.issued + {code}),
            o.(t := after', issues := o.issues - {p}, issued := o.issued + {code}), gone, before)
  {
    LessStored(s.t, gone, code, s.issues[p].account, key, deviceLabel, s.issues[p].at);
    hide ClaimAlike, Less, Old;
  }

  lemma {:induction false} RunAlike(s: State, o: State, gone: set<Id>, before: Time, steps: seq<(Step, Time)>, end: State, flights: nat)
      returns (other: State)
    requires Alike(s, o, gone, before) && Runs(s, steps, end, flights)
    ensures Runs(o, steps, other, flights) && Alike(end, other, gone, before)
    decreases |steps|
  {
    assert o.issues == s.issues;
    hide Alike, Do, Enabled;
    if steps == [] {
      other := o;
    } else {
      var (step, now) := steps[0];
      AlikeEnabled(s, o, gone, before, step, now);
      StepKeepsAlike(s, o, gone, before, step, now);
      other := RunAlike(Do(s, step, now), Do(o, step, now), gone, before, steps[1..], end, flights);
    }
  }

  // ----- the purge

  lemma PurgeAlike(s: State, now: Time)
    requires Inv(s) && s.clock <= now
    requires forall p :: p in s.claims ==> s.claims[p].request.now > now - PAIRING_RETAIN
    ensures Alike(s.(clock := now), Do(s, PurgeCodes, now), PurgedAt(s.t, now), now - PAIRING_RETAIN)
  {
    hide Sound, NoneLeftActive, PendingSound, CreationSound, IssueSound;
    assert Purge(s.t, now).codes == Less(s.t, PurgedAt(s.t, now)).codes;
  }

  lemma AlikeMeans(s: State, o: State, gone: set<Id>, before: Time)
    requires Alike(s, o, gone, before)
    ensures o.t == Less(s.t, gone) && o.created == s.created && o.t.accounts == s.t.accounts && o.t.credentials == s.t.credentials
    ensures forall c :: c in gone && c in s.t.codes ==> Old(s.t.codes[c], before)
  {
    hide ClaimAlike, Old;
  }

  lemma InvSound(s: State)
    requires Inv(s)
    ensures Sound(s.t)
  {
    hide Sound, NoneLeftActive, PendingSound, CreationSound, IssueSound;
  }

  /** What is gone was issued too long ago for the candidate query. */
  lemma GoneIsNoCandidate(t: Tables, gone: set<Id>, before: Time, later: Time)
    requires Sound(t) && before + PAIRING_RETAIN <= later
    requires forall c :: c in gone && c in t.codes ==> Old(t.codes[c], before)
    ensures PairingCandidates(Less(t, gone), later) == PairingCandidates(t, later)
  {
    forall c | c in Recent(t, later) ensures c !in gone {
      assert CodeSound(t, c);
    }
    assert Recent(Less(t, gone), later) == Recent(t, later);
  }

  /** Whatever steps follow, they can follow a purge as well, and lead to the same accounts,
      credentials and creations and, from then on, to the same candidates. No claim in flight may
      be as old as what the purge takes. */
  lemma PurgeInvisible(s: State, now: Time, steps: seq<(Step, Time)>, end: State, flights: nat) returns (other: State)
    requires Inv(s) && s.clock <= now && Runs(s.(clock := now), steps, end, flights)
    requires forall p :: p in s.claims ==> s.claims[p].request.now > now - PAIRING_RETAIN
    ensures Runs(Do(s, PurgeCodes, now), steps, other, flights)
    ensures other.created == end.created && other.t.accounts == end.t.accounts && other.t.credentials == end.t.credentials
    ensures forall later :: later >= end.clock ==> PairingCandidates(other.t, later) == PairingCandidates(end.t, later)
  {
    hide Inv, Runs, Do, Alike, Sound, Old, PurgedAt, PairingCandidates;
    var gone, before := PurgedAt(s.t, now), now - PAIRING_RETAIN;
    PurgeAlike(s, now);
    TickKeepsInv(s, now);
    RunKeepsInv(s.(clock := now), steps, end, flights);
    InvSound(end);
    RunsForward(s.(clock := now), steps, end, flights);
    other := RunAlike(s.(clock := now), Do(s, PurgeCodes, now), gone, before, steps, end, flights);
    AlikeMeans(end, other, gone, before);
    forall later | later >= end.clock ensures PairingCandidates(other.t, later) == PairingCandidates(end.t, later) {
      GoneIsNoCandidate(end.t, gone, before, later);
    }
  }

  lemma {:induction false} RunsForward(s: State, steps: seq<(Step, Time)>, end: State, flights: nat)
    requires Runs(s, steps, end, flights)
    ensures s.clock <= end.clock
    decreases |steps|
  {
    if steps != [] {
      var next := Do(s, steps[0].0, steps[0].1);
      assert next.clock == steps[0].1;
      hide Do;
      RunsForward(next, steps[1..], end, flights);
    }
  }

  lemma StalledOutcomes(s: State, now: Time)
    requires 0 in s.claims && s.claims[0] == PendingClaim(s.t, Request(0, "d", [], 0, 0))
    requires s.t.codes == map[0 := Code(0, [], None, 0, PAIRING_CODE_TTL, None, None)]
    requires s.t.accounts == map[0 := Account("a", None)] && s.t.credentials == map[]
    requires now > PAIRING_CODE_TTL + PAIRING_RETAIN
    ensures ClaimFrom(s.claims[0].seen, s.t, s.claims[0].request).1.Created?
    ensures ClaimFrom(s.claims[0].seen, Purge(s.t, now), s.claims[0].request).1 == Refused
  {
  }

  /** A claim older than that can see the purge: stalled at its lock since before its code expired,
      it makes its credential if the code is there and is refused if it has been purged. */
  lemma StalledClaimSeesPurge() returns (start: State, steps: seq<(Step, Time)>, s: State, now: Time)
    ensures Initial(start) && Runs(start, steps, s, 1) && s.clock <= now && 0 in s.claims
    ensures ClaimFrom(s.claims[0].seen, s.t, s.claims[0].request).1.Created?
    ensures ClaimFrom(s.claims[0].seen, Purge(s.t, now), s.claims[0].request).1 == Refused
  {
    start := State(Tables(map[], map[], map[]), map[], map[], map[], 0, {}, []);
    var added := Do(start, AddAccount(0, "a"), 0);
    assert ActiveCodes(added.t, 0) == {};
    var found := Do(added, FindAccount(0, 0), 0);
    var counted := Do(found, CountCodes(0), 0);
    IssuesAfter(found, CountCodes(0), 0);
    var stored := Do(counted, StoreIssue(0, 0, [], None), 0);
    IssuesAfter(counted, StoreIssue(0, 0, [], None), 0);
    var r := Request(0, "d", [], 0, 0);
    s := Do(stored, BeginClaim(0, r), 0);
    now := PAIRING_CODE_TTL + PAIRING_RETAIN + 1;
    assert Runs(start, [], start, 1);
    StalledOutcomes(s, now);
    hide *;
    RunsSnoc(start, [], start, AddAccount(0, "a"), 0, 1);
    var one := [] + [(AddAccount(0, "a"), 0)];
    RunsSnoc(start, one, added, FindAccount(0, 0), 0, 1);
    var two := one + [(FindAccount(0, 0), 0)];
    RunsSnoc(start, two, found, CountCodes(0), 0, 1);
    var three := two + [(CountCodes(0), 0)];
    RunsSnoc(start, three, counted, StoreIssue(0, 0, [], None), 0, 1);
    var four := three + [(StoreIssue(0, 0, [], None), 0)];
    RunsSnoc(start, four, stored, BeginClaim(0, r), 0, 1);
    steps := four + [(BeginClaim(0, r), 0)];
  }
}
