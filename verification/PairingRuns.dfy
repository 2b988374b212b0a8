/** The pairing protocol over whole runs: any interleaving of transactions, with an issue split at
    its two statements and a claim at its row lock. */
module PairingRuns {
  import opened Wrappers
  import opened Sets
  import opened Pairing

  /** A claim statement between its snapshot and its row lock. */
  datatype PendingClaim = PendingClaim(seen: Tables, request: Request)

  /** A client that is issuing a code: the account it found open, and the instant it goes by. */
  datatype Issue = Issue(account: Id, at: Time)

  datatype Creation = Creation(code: Id, credential: Id)

  /** `looks` are issues between finding the account and counting the codes, `issues` those between
      the count and the insert. `issued` is every code id ever given out, `created` every credential
      a claim made, both for the record only. */
  datatype State = State(
    t: Tables,
    claims: map<nat, PendingClaim>,
    looks: map<nat, Issue>,
    issues: map<nat, Issue>,
    clock: Time,
    issued: set<Id>,
    created: seq<Creation>)

  datatype Step =
    | AddAccount(id: Id, name: string)
    | RevokeAccount(id: Id)
    | RevokeDevices(hit: set<Id>)
    | FindAccount(p: nat, account: Id)
    | CountCodes(p: nat)
    | StoreIssue(p: nat, code: Id, key: Hash, deviceLabel: Option<string>)
    | BeginClaim(p: nat, request: Request)
    | FinishClaim(p: nat)
    | PurgeCodes

  /** When a step can be taken at `now`. A generated id is never one given out before. */
  predicate Enabled(s: State, step: Step, now: Time) {
    s.clock <= now &&
    match step
    case AddAccount(id, name) => id !in s.t.accounts
    case RevokeAccount(id) => id in s.t.accounts
    case RevokeDevices(_) => true
    case FindAccount(p, account) =>
      p !in s.looks && account in s.t.accounts && s.t.accounts[account].revoked.None?
    case CountCodes(p) =>
      p in s.looks && p !in s.issues && |ActiveCodes(s.t, s.looks[p].at)| < MAX_ACTIVE_PAIRING_CODES
    case StoreIssue(p, code, _, _) => p in s.issues && code !in s.issued
    case BeginClaim(p, request) => p !in s.claims && request.now == now
    case FinishClaim(p) => p in s.claims
    case PurgeCodes => true
  }

  function Do(s: State, step: Step, now: Time): State
    requires Enabled(s, step, now)
  {
    var s := s.(clock := now);
    match step
    case AddAccount(id, name) => s.(t := s.t.(accounts := s.t.accounts[id := Account(name, None)]))
    case RevokeAccount(id) => s.(t := RevokeRows(s.t, id, now))
    case RevokeDevices(hit) => s.(t := RevokeCredentials(s.t, hit, now))
    case FindAccount(p, account) => s.(looks := s.looks[p := Issue(account, now)])
    case CountCodes(p) => s.(issues := s.issues[p := s.looks[p]], looks := s.looks - {p})
    case StoreIssue(p, code, key, deviceLabel) =>
      s.(t := StoreCode(s.t, code, s.issues[p].account, key, deviceLabel, s.issues[p].at), issues := s.issues - {p}, issued := s.issued + {code})
    case BeginClaim(p, request) => s.(claims := s.claims[p := PendingClaim(s.t, request)])
    case FinishClaim(p) => Finished(s, p)
    case PurgeCodes => s.(t := Purge(s.t, now))
  }

  function Finished(s: State, p: nat): State
    requires p in s.claims
  {
    var pending := s.claims[p];
    var (after, outcome) := ClaimFrom(pending.seen, s.t, pending.request);
    s.(t := after, claims := s.claims - {p},
       created := if outcome.Created? then s.created + [Creation(pending.request.code, outcome.credential)] else s.created)
  }

  // ----- how tables move

  /** Accounts and credentials are never removed, what identifies a row never changes, and a
      revocation or a use, once set, keeps its instant. */
  ghost predicate Later(a: Tables, b: Tables) {
    && (forall id :: id in a.accounts ==> id in b.accounts && AccountLater(a.accounts[id], b.accounts[id]))
    && (forall k :: k in a.credentials ==> k in b.credentials && CredentialLater(a.credentials[k], b.credentials[k]))
    && (forall c :: c in a.codes && c in b.codes ==> CodeLater(a.codes[c], b.codes[c]))
  }

  ghost predicate AccountLater(a: Account, b: Account) {
    b.name == a.name && (a.revoked.Some? ==> b.revoked == a.revoked)
  }

  ghost predicate CredentialLater(a: Credential, b: Credential) {
    b.account == a.account && b.secretHash == a.secretHash && b.deviceLabel == a.deviceLabel && b.created == a.created
    && (a.revoked.Some? ==> b.revoked == a.revoked)
  }

  ghost predicate CodeLater(a: Code, b: Code) {
    b.account == a.account && b.created == a.created && b.expires == a.expires && b.fixedLabel == a.fixedLabel
    && b.codeKey == a.codeKey && (a.used.Some? ==> b.used == a.used && b.credential == a.credential)
  }

  /** A code seen redeemable of an open account, if it is still there unused, still has an open
      account: revoking an account takes its unused codes with it. */
  ghost predicate OpenStays(seen: Tables, t: Tables) {
    forall c :: c in t.codes && AccountOpen(seen, c) && t.codes[c].used.None? ==> AccountOpen(t, c)
  }

  // ----- the invariant

  ghost predicate PendingSound(s: State, pending: PendingClaim) {
    && Sound(pending.seen) && Later(pending.seen, s.t) && OpenStays(pending.seen, s.t)
    && pending.seen.codes.Keys <= s.issued
    && pending.request.now <= s.clock
    && (forall c :: c in pending.seen.codes ==> pending.seen.codes[c].created <= pending.request.now)
  }

  ghost predicate CreationSound(s: State, e: Creation) {
    && e.code in s.issued && e.credential in s.t.credentials
    && (e.code in s.t.codes ==> s.t.codes[e.code].credential == Some(e.credential))
  }

  ghost predicate IssueSound(s: State, issue: Issue) {
    issue.account in s.t.accounts && issue.at <= s.clock
  }

  ghost predicate Inv(s: State) {
    && Sound(s.t) && NoneLeftActive(s.t)
    && s.t.codes.Keys <= s.issued
    && (forall c :: c in s.t.codes ==> s.t.codes[c].created <= s.clock)
    && (forall p :: p in s.looks ==> IssueSound(s, s.looks[p]))
    && (forall p :: p in s.issues ==> IssueSound(s, s.issues[p]))
    && (forall p :: p in s.claims ==> PendingSound(s, s.claims[p]))
    && (forall i :: 0 <= i < |s.created| ==> CreationSound(s, s.created[i]))
    && (forall i, j :: 0 <= i < j < |s.created| ==> s.created[i].code != s.created[j].code)
  }

  ghost predicate Initial(s: State) {
    s.t == Tables(map[], map[], map[]) && s.claims == map[] && s.looks == map[] && s.issues == map[] && s.issued == {} && s.created == []
  }

  // ----- single transactions

  /** Tables with some codes gone and the same references are as sound. */
  lemma ShrunkSound(t: Tables, after: Tables)
    requires Sound(t) && t.accounts.Keys <= after.accounts.Keys && after.credentials.Keys == t.credentials.Keys
    requires forall k :: k in after.credentials ==> after.credentials[k].account == t.credentials[k].account
    requires forall c :: c in after.codes ==> c in t.codes && after.codes[c] == t.codes[c]
    ensures Sound(after)
  {
    forall c | c in after.codes ensures CodeSound(after, c) {
      assert CodeSound(t, c);
    }
    forall c, d | c in after.codes && d in after.codes && SamePairing(after, c, d) ensures c == d {
      assert SamePairing(t, c, d);
    }
  }

  lemma RevokeSound(t: Tables, id: Id, now: Time)
    requires Sound(t) && NoneLeftActive(t) && id in t.accounts
    ensures Sound(RevokeRows(t, id, now)) && NoneLeftActive(RevokeRows(t, id, now))
    ensures Later(t, RevokeRows(t, id, now)) && RevokeRows(t, id, now).codes.Keys <= t.codes.Keys
  {
    ShrunkSound(t, RevokeRows(t, id, now));
    hide Sound;
  }

  lemma RevokeCredentialsSound(t: Tables, hit: set<Id>, now: Time)
    requires Sound(t) && NoneLeftActive(t)
    ensures Sound(RevokeCredentials(t, hit, now)) && NoneLeftActive(RevokeCredentials(t, hit, now))
    ensures Later(t, RevokeCredentials(t, hit, now))
  {
    ShrunkSound(t, RevokeCredentials(t, hit, now));
    hide Sound;
  }

  lemma StoreSound(t: Tables, c: Id, account: Id, key: Hash, deviceLabel: Option<string>, now: Time)
    requires Sound(t) && NoneLeftActive(t) && account in t.accounts && c !in t.codes
    ensures Sound(StoreCode(t, c, account, key, deviceLabel, now)) && NoneLeftActive(StoreCode(t, c, account, key, deviceLabel, now))
  {
    var after := StoreCode(t, c, account, key, deviceLabel, now);
    forall d | d in after.codes ensures CodeSound(after, d) {
      assert d != c ==> CodeSound(t, d);
    }
    assert forall d, e :: d in after.codes && e in after.codes && SamePairing(after, d, e) ==>
      d in t.codes && e in t.codes && SamePairing(t, d, e);
  }

  lemma PurgeSound(t: Tables, now: Time)
    requires Sound(t) && NoneLeftActive(t)
    ensures Sound(Purge(t, now)) && NoneLeftActive(Purge(t, now)) && Later(t, Purge(t, now))
  {
    ShrunkSound(t, Purge(t, now));
    hide Sound;
  }

  lemma RedeemSound(t: Tables, r: Request)
    requires Sound(t) && NoneLeftActive(t) && Claimable(t, r.code, r.now) && AccountOpen(t, r.code)
    requires r.credential !in t.credentials && t.codes[r.code].created <= r.now
    ensures Sound(Redeem(t, r)) && NoneLeftActive(Redeem(t, r)) && Later(t, Redeem(t, r))
  {
    var after := Redeem(t, r);
    assert forall c :: c in t.codes && t.codes[c].credential.Some? ==> CodeSound(t, c);
    forall c | c in after.codes ensures CodeSound(after, c) {
      assert CodeSound(t, c);
    }
    forall c, d | c in after.codes && d in after.codes && SamePairing(after, c, d) ensures c == d {
      assert c != r.code && d != r.code ==> SamePairing(t, c, d);
    }
  }

  // ----- every step keeps the invariant

  /** Nothing a pending claim has seen moves other than forward. */
  lemma SeenLater(seen: Tables, t: Tables, after: Tables)
    requires Later(seen, t) && Later(t, after)
    requires forall c :: c in seen.codes && c in after.codes ==> c in t.codes
    ensures Later(seen, after)
  {
  }

  /** What a step must do to the tables for the invariant to carry over, claims in flight included. */
  ghost predicate Moves(s: State, after: Tables, fresh_: set<Id>) {
    && Sound(after) && NoneLeftActive(after) && Later(s.t, after)
    && fresh_ !! s.issued && after.codes.Keys <= s.t.codes.Keys + fresh_
    && (forall c :: c in s.t.codes && c in after.codes && after.codes[c].used.None? && AccountOpen(s.t, c) ==> AccountOpen(after, c))
  }

  lemma PendingMoves(s: State, after: Tables, fresh_: set<Id>, pending: PendingClaim, next: State)
    requires PendingSound(s, pending) && Moves(s, after, fresh_)
    requires next.t == after && s.clock <= next.clock && s.issued + fresh_ <= next.issued
    ensures PendingSound(next, pending)
  {
    hide Sound, NoneLeftActive;
    var seen := pending.seen;
    SeenLater(seen, s.t, after);
    forall c | c in after.codes && AccountOpen(seen, c) && after.codes[c].used.None? ensures AccountOpen(after, c) {
      assert c in s.t.codes;
      assert CodeLater(s.t.codes[c], after.codes[c]);
      assert AccountOpen(s.t, c);
    }
  }

  lemma CreationMoves(s: State, after: Tables, fresh_: set<Id>, e: Creation, next: State)
    requires CreationSound(s, e) && Sound(s.t) && Moves(s, after, fresh_)
    requires next.t == after && s.issued + fresh_ <= next.issued
    ensures CreationSound(next, e)
  {
    if e.code in after.codes {
      assert e.code in s.t.codes;
      assert CodeSound(s.t, e.code);
    }
  }

  /** A step that only moves the tables. */
  lemma MovesKeepInv(s: State, after: Tables, fresh_: set<Id>, next: State)
    requires Inv(s) && Moves(s, after, fresh_)
    requires next.t == after && s.clock <= next.clock && next.issued == s.issued + fresh_ && next.created == s.created
    requires forall p :: p in next.looks ==> IssueSound(s.(clock := next.clock), next.looks[p])
    requires forall p :: p in next.issues ==> IssueSound(s.(clock := next.clock), next.issues[p])
    requires forall p :: p in next.claims ==> p in s.claims && next.claims[p] == s.claims[p]
    requires forall c :: c in after.codes && c in fresh_ ==> after.codes[c].created <= next.clock
    ensures Inv(next) && Later(s.t, after)
  {
    hide Sound, NoneLeftActive, PendingSound, CreationSound;
    forall p | p in next.claims ensures PendingSound(next, next.claims[p]) {
      PendingMoves(s, after, fresh_, s.claims[p], next);
    }
    forall i | 0 <= i < |next.created| ensures CreationSound(next, next.created[i]) {
      CreationMoves(s, after, fresh_, s.created[i], next);
    }
    forall c | c in after.codes ensures after.codes[c].created <= next.clock {
      if c !in fresh_ {
        assert CodeLater(s.t.codes[c], after.codes[c]);
      }
    }
  }

  lemma RevokeMoves(s: State, id: Id, now: Time)
    requires Inv(s) && id in s.t.accounts
    ensures Moves(s, RevokeRows(s.t, id, now), {})
  {
    RevokeSound(s.t, id, now);
    hide Sound, NoneLeftActive, Later;
  }

  lemma StoreMoves(s: State, c: Id, account: Id, key: Hash, deviceLabel: Option<string>, now: Time)
    requires Inv(s) && account in s.t.accounts && c !in s.issued
    ensures Moves(s, StoreCode(s.t, c, account, key, deviceLabel, now), {c})
  {
    StoreSound(s.t, c, account, key, deviceLabel, now);
    hide Sound, NoneLeftActive;
  }

  lemma AddMoves(s: State, id: Id, name: string)
    requires Inv(s) && id !in s.t.accounts
    ensures Moves(s, s.t.(accounts := s.t.accounts[id := Account(name, None)]), {})
  {
    ShrunkSound(s.t, s.t.(accounts := s.t.accounts[id := Account(name, None)]));
    hide Sound;
  }

  lemma RevokeDevicesMoves(s: State, hit: set<Id>, now: Time)
    requires Inv(s)
    ensures Moves(s, RevokeCredentials(s.t, hit, now), {})
  {
    RevokeCredentialsSound(s.t, hit, now);
    hide Sound, NoneLeftActive, Later;
  }

  lemma PurgeMoves(s: State, now: Time)
    requires Inv(s)
    ensures Moves(s, Purge(s.t, now), {})
  {
    PurgeSound(s.t, now);
    hide Sound, NoneLeftActive, Later;
  }

  /** A claim that takes its row takes it from an open account, whatever happened since its
      snapshot. */
  lemma ClaimStillOpen(s: State, p: nat)
    requires Inv(s) && p in s.claims
    requires ClaimFrom(s.claims[p].seen, s.t, s.claims[p].request).1.Created?
    ensures var r := s.claims[p].request;
      && Claimable(s.t, r.code, r.now) && AccountOpen(s.t, r.code) && r.credential !in s.t.credentials
      && s.t.codes[r.code].created <= r.now
  {
    hide Sound, NoneLeftActive, CreationSound;
    var pending := s.claims[p];
    assert PendingSound(s, pending);
    assert CodeLater(pending.seen.codes[pending.request.code], s.t.codes[pending.request.code]);
  }

  lemma RedeemMoves(s: State, p: nat)
    requires Inv(s) && p in s.claims
    requires ClaimFrom(s.claims[p].seen, s.t, s.claims[p].request).1.Created?
    ensures Moves(s, Redeem(s.t, s.claims[p].request), {})
  {
    ClaimStillOpen(s, p);
    RedeemSound(s.t, s.claims[p].request);
    hide Sound, NoneLeftActive, Later, PendingSound, CreationSound;
  }

  /** No code had already been turned into a credential when a claim turns it into one. */
  lemma NotCreatedBefore(s: State, code: Id)
    requires Inv(s) && code in s.t.codes && s.t.codes[code].used.None?
    ensures forall i :: 0 <= i < |s.created| ==> s.created[i].code != code
  {
    hide PendingSound, NoneLeftActive;
    forall i | 0 <= i < |s.created| ensures s.created[i].code != code {
      assert CreationSound(s, s.created[i]);
      assert CodeSound(s.t, code);
    }
  }

  lemma RedeemRecords(s: State, r: Request, issued: set<Id>)
    requires r.code in s.t.codes && r.code in issued
    ensures CreationSound(s.(t := Redeem(s.t, r), issued := issued), Creation(r.code, r.credential))
  {
  }

  lemma TakenKeepsInv(s: State, after: Tables, p: nat)
    requires Inv(s) && Moves(s, after, {})
    ensures Inv(s.(t := after, claims := s.claims - {p})) && Later(s.t, after)
  {
    hide Sound, NoneLeftActive, PendingSound, CreationSound, Later, Moves;
    MovesKeepInv(s, after, {}, s.(t := after, claims := s.claims - {p}));
  }

  lemma RequestedCode(s: State, p: nat)
    requires Inv(s) && p in s.claims && s.claims[p].request.code in s.t.codes
    ensures s.claims[p].request.code in s.issued
  {
  }

  lemma CreatingKeepsInv(s: State, p: nat)
    requires Inv(s) && p in s.claims
    requires ClaimFrom(s.claims[p].seen, s.t, s.claims[p].request).1.Created?
    ensures var r := s.claims[p].request;
      var moved := s.(t := Redeem(s.t, r), claims := s.claims - {p});
      && Inv(moved) && CreationSound(moved, Creation(r.code, r.credential)) && Later(s.t, moved.t)
      && forall i :: 0 <= i < |s.created| ==> s.created[i].code != r.code
  {
    hide Inv, Moves, Later, CreationSound, Redeem;
    var r := s.claims[p].request;
    RedeemMoves(s, p);
    ClaimStillOpen(s, p);
    RequestedCode(s, p);
    NotCreatedBefore(s, r.code);
    RedeemRecords(s.(claims := s.claims - {p}), r, s.issued);
    TakenKeepsInv(s, Redeem(s.t, r), p);
  }

  lemma AnsweredKeepsInv(s: State, p: nat)
    requires Inv(s) && p in s.claims
    ensures Inv(s.(claims := s.claims - {p})) && Later(s.t, s.t)
  {
    NothingMoves(s);
    TakenKeepsInv(s, s.t, p);
  }

  lemma FinishKeepsInv(s: State, p: nat)
    requires Inv(s) && p in s.claims
    ensures Inv(Finished(s, p)) && Later(s.t, Finished(s, p).t)
  {
    hide Inv, Later, Redeem, CreationSound;
    var r := s.claims[p].request;
    var (after, outcome) := ClaimFrom(s.claims[p].seen, s.t, r);
    if outcome.Created? {
      CreatingKeepsInv(s, p);
      CreatedKeepsInv(s.(t := after, claims := s.claims - {p}), Creation(r.code, outcome.credential));
    } else {
      AnsweredKeepsInv(s, p);
    }
  }

  lemma NothingMoves(s: State)
    requires Inv(s)
    ensures Moves(s, s.t, {})
  {
    hide Sound, NoneLeftActive, PendingSound, CreationSound;
  }

  lemma CreatedKeepsInv(s: State, e: Creation)
    requires Inv(s) && CreationSound(s, e) && forall i :: 0 <= i < |s.created| ==> s.created[i].code != e.code
    ensures Inv(s.(created := s.created + [e]))
  {
    hide Sound, NoneLeftActive;
    var next := s.(created := s.created + [e]);
    forall p | p in next.claims ensures PendingSound(next, next.claims[p]) {
      assert PendingSound(s, s.claims[p]);
    }
    forall i | 0 <= i < |next.created| ensures CreationSound(next, next.created[i]) {
      assert i < |s.created| ==> CreationSound(s, s.created[i]);
    }
  }

  lemma BeginKeepsInv(s: State, p: nat, request: Request)
    requires Inv(s) && p !in s.claims && request.now == s.clock
    ensures Inv(s.(claims := s.claims[p := PendingClaim(s.t, request)]))
  {
    var next := s.(claims := s.claims[p := PendingClaim(s.t, request)]);
    hide Sound, NoneLeftActive;
    forall q | q in next.claims ensures PendingSound(next, next.claims[q]) {
      assert q != p ==> PendingSound(s, s.claims[q]);
    }
    forall i | 0 <= i < |next.created| ensures CreationSound(next, next.created[i]) {
      assert CreationSound(s, s.created[i]);
    }
  }

  lemma TickKeepsInv(s: State, now: Time)
    requires Inv(s) && s.clock <= now
    ensures Inv(s.(clock := now)) && Later(s.t, s.t)
  {
    NothingMoves(s);
    hide Sound, NoneLeftActive, PendingSound, CreationSound, Later, Moves;
    MovesKeepInv(s, s.t, {}, s.(clock := now));
  }

  lemma TablesKeepInv(s: State, after: Tables, now: Time)
    requires Inv(s) && Moves(s, after, {}) && s.clock <= now
    ensures Inv(s.(t := after, clock := now)) && Later(s.t, after)
  {
    hide Sound, NoneLeftActive, PendingSound, CreationSound, Later, Moves;
    MovesKeepInv(s, after, {}, s.(t := after, clock := now));
  }

  lemma FindKeepsInv(s: State, p: nat, account: Id)
    requires Inv(s) && account in s.t.accounts
    ensures Inv(s.(looks := s.looks[p := Issue(account, s.clock)]))
  {
    NothingMoves(s);
    hide Sound, NoneLeftActive, PendingSound, CreationSound, Later, Moves;
    MovesKeepInv(s, s.t, {}, s.(looks := s.looks[p := Issue(account, s.clock)]));
  }

  lemma CountKeepsInv(s: State, p: nat)
    requires Inv(s) && p in s.looks
    ensures Inv(s.(issues := s.issues[p := s.looks[p]], looks := s.looks - {p}))
  {
    NothingMoves(s);
    hide Sound, NoneLeftActive, PendingSound, CreationSound, Later, Moves;
    MovesKeepInv(s, s.t, {}, s.(issues := s.issues[p := s.looks[p]], looks := s.looks - {p}));
  }

  lemma StoreKeepsInv(s: State, p: nat, code: Id, key: Hash, deviceLabel: Option<string>)
    requires Inv(s) && p in s.issues && code !in s.issued
    ensures var after := StoreCode(s.t, code, s.issues[p].account, key, deviceLabel, s.issues[p].at);
      Inv(s.(t := after, issues := s.issues - {p}, issued := s.issued + {code})) && Later(s.t, after)
  {
    var after := StoreCode(s.t, code, s.issues[p].account, key, deviceLabel, s.issues[p].at);
    StoreMoves(s, code, s.issues[p].account, key, deviceLabel, s.issues[p].at);
    hide Sound, NoneLeftActive, PendingSound, CreationSound, Later, Moves;
    MovesKeepInv(s, after, {code}, s.(t := after, issues := s.issues - {p}, issued := s.issued + {code}));
  }

  /** Every step keeps the invariant, and no step takes back a revocation or a use. */
  lemma StepKeepsInv(s: State, step: Step, now: Time)
    requires Inv(s) && Enabled(s, step, now)
    ensures Inv(Do(s, step, now)) && Later(s.t, Do(s, step, now).t)
  {
    hide Inv, Later, Moves, Finished, RevokeRows, RevokeCredentials, Purge, StoreCode, ActiveCodes;
    TickKeepsInv(s, now);
    var ticked := s.(clock := now);
    match step {
      case AddAccount(id, name) =>
        AddMoves(s, id, name);
        TablesKeepInv(s, s.t.(accounts := s.t.accounts[id := Account(name, None)]), now);
      case RevokeAccount(id) =>
        RevokeMoves(s, id, now);
        TablesKeepInv(s, RevokeRows(s.t, id, now), now);
      case RevokeDevices(hit) =>
        RevokeDevicesMoves(s, hit, now);
        TablesKeepInv(s, RevokeCredentials(s.t, hit, now), now);
      case FindAccount(p, account) =>
        FindKeepsInv(ticked, p, account);
      case CountCodes(p) =>
        CountKeepsInv(ticked, p);
      case StoreIssue(p, code, key, deviceLabel) =>
        StoreKeepsInv(ticked, p, code, key, deviceLabel);
      case BeginClaim(p, request) =>
        BeginKeepsInv(ticked, p, request);
      case FinishClaim(p) =>
        FinishKeepsInv(ticked, p);
      case PurgeCodes =>
        PurgeMoves(s, now);
        TablesKeepInv(s, Purge(s.t, now), now);
    }
  }

  // ----- whole runs

  /** `end` is where the steps lead from s, each taken when it could be, with never more than
      `flights` issues between their count and their insert. */
  ghost predicate Runs(s: State, steps: seq<(Step, Time)>, end: State, flights: nat)
    decreases |steps|
  {
    |s.issues| <= flights &&
    if steps == [] then end == s
    else Enabled(s, steps[0].0, steps[0].1) && Runs(Do(s, steps[0].0, steps[0].1), steps[1..], end, flights)
  }

  lemma InitialInv(s: State)
    requires Initial(s)
    ensures Inv(s)
  {
  }

  /** What holds in every reachable state, and what no run takes back. */
  ghost predicate Kept(a: Tables, b: Tables) {
    && (forall id :: id in a.accounts ==> id in b.accounts && AccountLater(a.accounts[id], b.accounts[id]))
    && (forall k :: k in a.credentials ==> k in b.credentials && CredentialLater(a.credentials[k], b.credentials[k]))
  }

  lemma KeptTrans(a: Tables, b: Tables, c: Tables)
    requires Kept(a, b) && Kept(b, c)
    ensures Kept(a, c)
  {
  }

  lemma {:induction false} RunKeepsInv(s: State, steps: seq<(Step, Time)>, end: State, flights: nat)
    requires Inv(s) && Runs(s, steps, end, flights)
    ensures Inv(end) && Kept(s.t, end.t)
    decreases |steps|
  {
    if steps != [] {
      var next := Do(s, steps[0].0, steps[0].1);
      StepKeepsInv(s, steps[0].0, steps[0].1);
      assert Kept(s.t, next.t);
      hide Inv, Do, Enabled, Later;
      RunKeepsInv(next, steps[1..], end, flights);
      KeptTrans(s.t, next.t, end.t);
    }
  }

  /** However claims interleave, a code makes at most one credential, and while the code is there
      it points at that credential. */
  lemma ExactlyOnce(start: State, steps: seq<(Step, Time)>, end: State, flights: nat, i: nat, j: nat)
    requires Initial(start) && Runs(start, steps, end, flights)
    requires i < |end.created| && j < |end.created| && end.created[i].code == end.created[j].code
    ensures i == j && end.created[i].credential in end.t.credentials
    ensures end.created[i].code in end.t.codes ==>
      end.t.codes[end.created[i].code].credential == Some(end.created[i].credential)
  {
    InitialInv(start);
    RunKeepsInv(start, steps, end, flights);
    hide Sound, NoneLeftActive, PendingSound;
    assert CreationSound(end, end.created[i]);
  }

  /** A revoked account stays revoked since the same instant, and from then on every device it has
      or gets is revoked itself and refused. */
  lemma RevokedForGood(start: State, before: seq<(Step, Time)>, s: State, after: seq<(Step, Time)>, end: State, flights: nat, id: Id)
    requires Initial(start) && Runs(start, before, s, flights) && Runs(s, after, end, flights)
    requires AccountClosed(s.t, id)
    ensures AccountClosed(end.t, id) && end.t.accounts[id].revoked == s.t.accounts[id].revoked
    ensures forall k :: k in end.t.credentials && end.t.credentials[k].account == id ==>
      end.t.credentials[k].revoked.Some? && AuthState(end.t, k) == OfRevokedAccount
  {
    InitialInv(start);
    RunKeepsInv(start, before, s, flights);
    RunKeepsInv(s, after, end, flights);
    hide Sound, PendingSound, CreationSound;
    assert AccountLater(s.t.accounts[id], end.t.accounts[id]);
  }

  /** A device reported active has an account that is not revoked, in every reachable state. */
  lemma ActiveMeansOpen(start: State, steps: seq<(Step, Time)>, end: State, flights: nat, k: Id)
    requires Initial(start) && Runs(start, steps, end, flights) && k in end.t.credentials
    ensures end.t.credentials[k].account in end.t.accounts
    ensures AuthState(end.t, k) == Active <==> end.t.credentials[k].revoked.None?
  {
    InitialInv(start);
    RunKeepsInv(start, steps, end, flights);
    hide PendingSound, CreationSound, CodeSound;
  }

  // ----- what a claim in flight is answered

  /** Whatever went on between its snapshot and its lock, a claim makes its credential, or changes
      no row. */
  lemma ClaimAnswers(s: State, p: nat, now: Time)
    requires p in s.claims && s.clock <= now
    ensures var (seen, r) := (s.claims[p].seen, s.claims[p].request);
      var (after, outcome) := ClaimFrom(seen, s.t, r);
      && Do(s, FinishClaim(p), now).t == after
      && (outcome.Created? <==> Claimable(seen, r.code, r.now) && AccountOpen(seen, r.code)
                                && Claimable(s.t, r.code, r.now) && r.credential !in s.t.credentials)
      && (!outcome.Created? ==> after == s.t)
      && (outcome.Created? ==> r.code in after.codes && after.codes[r.code].credential == Some(r.credential)
                               && r.credential in after.credentials && after.credentials[r.credential].secretHash == r.secretHash)
  {
  }

  /** What a client is handed again is a credential that is there, made from the same secret, and
      the one its code points at for as long as there is a code. */
  lemma ReplayIsGenuine(s: State, p: nat)
    requires Inv(s) && p in s.claims
    requires ClaimFrom(s.claims[p].seen, s.t, s.claims[p].request).1.Replayed?
    ensures var r := s.claims[p].request;
      var k := ClaimFrom(s.claims[p].seen, s.t, r).1.credential;
      && k in s.t.credentials && s.t.credentials[k].secretHash == r.secretHash
      && (r.code in s.t.codes ==> s.t.codes[r.code].credential == Some(k))
  {
    var seen, r := s.claims[p].seen, s.claims[p].request;
    assert PendingSound(s, s.claims[p]) && CodeSound(seen, r.code);
    assert CredentialLater(seen.credentials[seen.codes[r.code].credential.value], s.t.credentials[seen.codes[r.code].credential.value]);
    assert r.code in s.t.codes ==> CodeLater(seen.codes[r.code], s.t.codes[r.code]);
  }

  /** The loser of a race: the code was there for it to take, and is not once it has the lock. */
  lemma BeatenClaimIsRefused(s: State, p: nat)
    requires Inv(s) && p in s.claims
    requires Claimable(s.claims[p].seen, s.claims[p].request.code, s.claims[p].request.now)
    requires !Claimable(s.t, s.claims[p].request.code, s.claims[p].request.now)
    ensures ClaimFrom(s.claims[p].seen, s.t, s.claims[p].request) == (s.t, Refused)
  {
    assert CodeSound(s.claims[p].seen, s.claims[p].request.code);
  }

  /** A claim that saw the code used gets the code's own credential, if it saw that active and has
      its secret, and is refused otherwise, whatever the tables are by then. */
  lemma LateClaimAnswered(s: State, p: nat)
    requires Inv(s) && p in s.claims
    requires s.claims[p].request.code in s.claims[p].seen.codes
    requires s.claims[p].seen.codes[s.claims[p].request.code].used.Some?
    ensures var (seen, r) := (s.claims[p].seen, s.claims[p].request);
      var k := seen.codes[r.code].credential.value;
      ClaimFrom(seen, s.t, r) ==
        (s.t, if seen.credentials[k].secretHash == r.secretHash && AuthState(seen, k) == Active then Replayed(k) else Refused)
  {
    UsedCodeAnswers(s.claims[p].seen, s.t, s.claims[p].request);
    hide ClaimFrom, AuthState, Sound;
  }

  /** Creations are recorded for good. */
  lemma {:induction false} CreatedStays(s: State, steps: seq<(Step, Time)>, end: State, flights: nat)
    requires Runs(s, steps, end, flights)
    ensures |s.created| <= |end.created| && end.created[..|s.created|] == s.created
    decreases |steps|
  {
    hide Do, Enabled;
    if steps != [] {
      var next := Do(s, steps[0].0, steps[0].1);
      StepRecords(s, steps[0].0, steps[0].1);
      CreatedStays(next, steps[1..], end, flights);
      assert end.created[..|s.created|] == end.created[..|next.created|][..|s.created|];
    }
  }

  lemma StepRecords(s: State, step: Step, now: Time)
    requires Enabled(s, step, now)
    ensures |s.created| <= |Do(s, step, now).created| && Do(s, step, now).created[..|s.created|] == s.created
  {
    hide RevokeRows, RevokeCredentials, StoreCode, Purge, ClaimFrom, ActiveCodes;
  }

  lemma RetryAnswered(s: State, e: Creation, t: Tables, again: Request)
    requires Inv(s) && e in s.created && again.code == e.code
    ensures e.credential in s.t.credentials && s.t.credentials[e.credential].account in s.t.accounts
    ensures ClaimFrom(s.t, t, again) ==
      (t, if again.code in s.t.codes && again.secretHash == s.t.credentials[e.credential].secretHash
             && AuthState(s.t, e.credential) == Active
          then Replayed(e.credential) else Refused)
  {
    hide PendingSound, NoneLeftActive;
    var i :| 0 <= i < |s.created| && s.created[i] == e;
    assert CreationSound(s, s.created[i]);
    assert again.code in s.t.codes ==> CodeSound(s.t, again.code);
  }

  lemma RetriedLater(s: State, e: Creation, steps: seq<(Step, Time)>, later: State, flights: nat, t: Tables, again: Request)
    requires Inv(s) && e in s.created && Runs(s, steps, later, flights) && again.code == e.code
    ensures e.credential in s.t.credentials
    ensures e.credential in later.t.credentials && later.t.credentials[e.credential].account in later.t.accounts
    ensures ClaimFrom(later.t, t, again) ==
      (t, if again.code in later.t.codes && again.secretHash == s.t.credentials[e.credential].secretHash
             && AuthState(later.t, e.credential) == Active
          then Replayed(e.credential) else Refused)
  {
    CreatedStays(s, steps, later, flights);
    assert e in later.created by {
      assert e in later.created[..|s.created|];
    }
    RunKeepsInv(s, steps, later, flights);
    RetryAnswered(later, e, t, again);
    RetryAnswered(s, e, s.t, again);
    hide Inv, Runs, ClaimFrom, AuthState;
    assert CredentialLater(s.t.credentials[e.credential], later.t.credentials[e.credential]);
  }

  lemma FinishRecords(s: State, p: nat, now: Time)
    requires Enabled(s, FinishClaim(p), now)
    requires ClaimFrom(s.claims[p].seen, s.t, s.claims[p].request).1.Created?
    ensures Creation(s.claims[p].request.code, s.claims[p].request.credential) in Do(s, FinishClaim(p), now).created
  {
  }

  /** Once a claim has made k, a claim that starts any number of steps later for the same code, and
      takes its lock on whatever tables there are by then, makes nothing: it is handed k when it
      has the secret, k is active and the code not yet purged, and is refused otherwise. */
  lemma ClaimRetried(s: State, p: nat, now: Time, steps: seq<(Step, Time)>, later: State, flights: nat, t: Tables, again: Request)
    requires Inv(s) && Enabled(s, FinishClaim(p), now)
    requires ClaimFrom(s.claims[p].seen, s.t, s.claims[p].request).1.Created?
    requires Runs(Do(s, FinishClaim(p), now), steps, later, flights)
    requires again.code == s.claims[p].request.code
    ensures var r := s.claims[p].request;
      && r.credential in later.t.credentials && later.t.credentials[r.credential].account in later.t.accounts
      && ClaimFrom(later.t, t, again) ==
         (t, if again.code in later.t.codes && again.secretHash == r.secretHash && AuthState(later.t, r.credential) == Active
             then Replayed(r.credential) else Refused)
  {
    var next := Do(s, FinishClaim(p), now);
    ClaimAnswers(s, p, now);
    FinishRecords(s, p, now);
    StepKeepsInv(s, FinishClaim(p), now);
    hide *;
    RetriedLater(next, Creation(s.claims[p].request.code, s.claims[p].request.credential), steps, later, flights, t, again);
  }

  // ----- what a code stands for, from issue to credential

  ghost predicate CodeAsIssued(t: Tables, code: Id, issue: Issue, key: Hash, deviceLabel: Option<string>)
    requires code in t.codes
  {
    && t.codes[code].account == issue.account && t.codes[code].codeKey == key && t.codes[code].fixedLabel == deviceLabel
    && t.codes[code].created == issue.at && t.codes[code].expires == issue.at + 24 * 3_600_000_000
  }

  ghost predicate MadeAsIssued(t: Tables, credential: Id, issue: Issue, deviceLabel: Option<string>) {
    && credential in t.credentials && t.credentials[credential].account == issue.account
    && (deviceLabel.Some? ==> t.credentials[credential].deviceLabel == deviceLabel.value)
  }

  /** The code, while it is there, is as it was issued, and a credential made from it carries its
      account, and its label if it fixes one. */
  ghost predicate IssuedAs(s: State, code: Id, issue: Issue, key: Hash, deviceLabel: Option<string>) {
    && code in s.issued
    && (code in s.t.codes ==> CodeAsIssued(s.t, code, issue, key, deviceLabel))
    && (forall i :: 0 <= i < |s.created| && s.created[i].code == code ==>
          MadeAsIssued(s.t, s.created[i].credential, issue, deviceLabel))
  }

  lemma MadeStays(t: Tables, after: Tables, credential: Id, issue: Issue, deviceLabel: Option<string>)
    requires Later(t, after) && MadeAsIssued(t, credential, issue, deviceLabel)
    ensures MadeAsIssued(after, credential, issue, deviceLabel)
  {
    assert CredentialLater(t.credentials[credential], after.credentials[credential]);
  }

  /** A credential is made by the end of a claim only, and carries what its code says. */
  lemma StepMakes(s: State, step: Step, now: Time, code: Id, issue: Issue, key: Hash, deviceLabel: Option<string>)
    requires Enabled(s, step, now)
    requires code in s.t.codes ==> CodeAsIssued(s.t, code, issue, key, deviceLabel)
    ensures forall i :: |s.created| <= i < |Do(s, step, now).created| && Do(s, step, now).created[i].code == code ==>
      MadeAsIssued(Do(s, step, now).t, Do(s, step, now).created[i].credential, issue, deviceLabel)
  {
    hide RevokeRows, RevokeCredentials, StoreCode, Purge, ClaimFrom, ActiveCodes;
    if step.FinishClaim? {
      var pending := s.claims[step.p];
      if ClaimFrom(pending.seen, s.t, pending.request).1.Created? {
        CreationWrites(pending.seen, s.t, pending.request);
      }
    }
  }

  lemma StepKeepsIssued(s: State, step: Step, now: Time, code: Id, issue: Issue, key: Hash, deviceLabel: Option<string>)
    requires Inv(s) && Enabled(s, step, now) && IssuedAs(s, code, issue, key, deviceLabel)
    ensures IssuedAs(Do(s, step, now), code, issue, key, deviceLabel)
  {
    hide Inv, Do, Enabled, MadeAsIssued;
    StepKeepsInv(s, step, now);
    StepRecords(s, step, now);
    StepMakes(s, step, now, code, issue, key, deviceLabel);
    CodesOnlyGo(s, step, now, code);
    var next := Do(s, step, now);
    assert code in next.t.codes ==> CodeLater(s.t.codes[code], next.t.codes[code]);
    forall i | 0 <= i < |next.created| && next.created[i].code == code
      ensures MadeAsIssued(next.t, next.created[i].credential, issue, deviceLabel)
    {
      if i < |s.created| {
        assert next.created[i] == s.created[i];
        MadeStays(s.t, next.t, s.created[i].credential, issue, deviceLabel);
      }
    }
  }

  lemma CodesOnlyGo(s: State, step: Step, now: Time, code: Id)
    requires Enabled(s, step, now) && code in s.issued
    ensures code in Do(s, step, now).issued
    ensures code in Do(s, step, now).t.codes ==> code in s.t.codes
  {
    hide ActiveCodes;
  }

  lemma {:induction false} RunKeepsIssued(s: State, steps: seq<(Step, Time)>, end: State, flights: nat,
                                          code: Id, issue: Issue, key: Hash, deviceLabel: Option<string>)
    requires Inv(s) && Runs(s, steps, end, flights) && IssuedAs(s, code, issue, key, deviceLabel)
    ensures IssuedAs(end, code, issue, key, deviceLabel)
    decreases |steps|
  {
    hide Inv, Do, Enabled, IssuedAs, Later;
    if steps != [] {
      StepKeepsIssued(s, steps[0].0, steps[0].1, code, issue, key, deviceLabel);
      StepKeepsInv(s, steps[0].0, steps[0].1);
      RunKeepsIssued(Do(s, steps[0].0, steps[0].1), steps[1..], end, flights, code, issue, key, deviceLabel);
    }
  }

  /** A code stored for an account, key and label keeps them over every run, expires 24 hours after
      its issue, and gives its account and label to the credential made from it, whatever the
      claiming client calls itself. */
  lemma CodeGivesItsLabel(s: State, p: nat, code: Id, key: Hash, deviceLabel: Option<string>, now: Time,
                          steps: seq<(Step, Time)>, end: State, flights: nat)
    requires Inv(s) && Enabled(s, StoreIssue(p, code, key, deviceLabel), now)
    requires Runs(Do(s, StoreIssue(p, code, key, deviceLabel), now), steps, end, flights)
    ensures code in Do(s, StoreIssue(p, code, key, deviceLabel), now).t.codes
    ensures IssuedAs(end, code, s.issues[p], key, deviceLabel)
  {
    var next := Do(s, StoreIssue(p, code, key, deviceLabel), now);
    forall i | 0 <= i < |next.created| ensures next.created[i].code != code {
      assert CreationSound(s, s.created[i]);
    }
    assert IssuedAs(next, code, s.issues[p], key, deviceLabel);
    StepKeepsInv(s, StoreIssue(p, code, key, deviceLabel), now);
    hide Inv, Do, Enabled, IssuedAs, Later;
    RunKeepsIssued(next, steps, end, flights, code, s.issues[p], key, deviceLabel);
  }

  // ----- revoking again

  /** A repeat leaves accounts and credentials as they are, the first instant included, in every
      reachable state; it changes nothing at all exactly when the account has no unused code. Right
      after a revocation it has none. */
  lemma RevokeTwice(s: State, id: Id, now: Time, later: Time)
    requires Inv(s) && id in s.t.accounts
    ensures AccountClosed(s.t, id) ==>
      && RevokeRows(s.t, id, now).accounts == s.t.accounts && RevokeRows(s.t, id, now).credentials == s.t.credentials
      && (RevokeRows(s.t, id, now) == s.t <==> UnusedOf(s.t, id) == {})
    ensures RevokeRows(RevokeRows(s.t, id, now), id, later) == RevokeRows(s.t, id, now)
  {
    hide Sound, PendingSound, CreationSound, IssueSound;
    if AccountClosed(s.t, id) {
      DroppedNothingIff(s.t, id);
      assert RevokeRows(s.t, id, now).credentials == s.t.credentials;
      assert RevokeRows(s.t, id, now) == DropUnused(s.t, id);
    }
    var once := RevokeRows(s.t, id, now);
    DroppedNothingIff(once, id);
    assert RevokeRows(once, id, later).credentials == once.credentials;
    assert RevokeRows(once, id, later) == DropUnused(once, id);
  }

  lemma DroppedNothingIff(t: Tables, id: Id)
    ensures DropUnused(t, id) == t <==> UnusedOf(t, id) == {}
  {
    assert DropUnused(t, id).codes.Keys == t.codes.Keys - UnusedOf(t, id);
    if UnusedOf(t, id) == {} {
      assert DropUnused(t, id).codes == t.codes;
    }
  }

  /** A closed account that nobody is issuing a code for, and that has no unused one. */
  ghost predicate Quiet(s: State, id: Id) {
    && AccountClosed(s.t, id) && UnusedOf(s.t, id) == {}
    && (forall p :: p in s.looks ==> s.looks[p].account != id)
    && (forall p :: p in s.issues ==> s.issues[p].account != id)
  }

  lemma StepKeepsQuiet(s: State, step: Step, now: Time, id: Id)
    requires Quiet(s, id) && Enabled(s, step, now)
    ensures Quiet(Do(s, step, now), id)
  {
    hide ActiveCodes;
    var next := Do(s, step, now);
    assert AccountClosed(next.t, id);
    forall c | c in next.t.codes && next.t.codes[c].account == id ensures next.t.codes[c].used.Some? {
      if c in s.t.codes && s.t.codes[c].account == id {
        assert c !in UnusedOf(s.t, id);
      }
    }
  }

  lemma {:induction false} RunKeepsQuiet(s: State, steps: seq<(Step, Time)>, end: State, flights: nat, id: Id)
    requires Quiet(s, id) && Runs(s, steps, end, flights)
    ensures Quiet(end, id)
    decreases |steps|
  {
    hide Quiet, Do, Enabled;
    if steps != [] {
      StepKeepsQuiet(s, steps[0].0, steps[0].1, id);
      RunKeepsQuiet(Do(s, steps[0].0, steps[0].1), steps[1..], end, flights, id);
    }
  }

  /** When no issue for the account is under way as it is revoked, a repeat changes nothing any
      number of steps later. */
  lemma RepeatChangesNothing(s: State, id: Id, now: Time, steps: seq<(Step, Time)>, end: State, flights: nat, later: Time)
    requires Inv(s) && Enabled(s, RevokeAccount(id), now)
    requires forall p :: p in s.looks ==> s.looks[p].account != id
    requires forall p :: p in s.issues ==> s.issues[p].account != id
    requires Runs(Do(s, RevokeAccount(id), now), steps, end, flights)
    ensures id in end.t.accounts && RevokeRows(end.t, id, later) == end.t
  {
    var next := Do(s, RevokeAccount(id), now);
    assert Quiet(next, id);
    StepKeepsInv(s, RevokeAccount(id), now);
    hide Inv, Do, Enabled, Runs, Later;
    RunKeepsInv(next, steps, end, flights);
    RunKeepsQuiet(next, steps, end, flights, id);
    RevokeTwice(end, id, later, later);
  }

  // ----- how many codes are active

  /** Counting every issue in flight as a code, from now on. */
  ghost predicate Within(s: State, bound: nat) {
    forall now :: now >= s.clock ==> |ActiveCodes(s.t, now)| + |s.issues| <= bound
  }

  lemma ActiveExpire(t: Tables, now: Time, later: Time)
    requires now <= later
    ensures |ActiveCodes(t, later)| <= |ActiveCodes(t, now)|
  {
    SubsetSize(ActiveCodes(t, later), ActiveCodes(t, now));
  }

  /** Only storing a code makes one more active. */
  lemma ActiveAfter(s: State, step: Step, now: Time, u: Time)
    requires Inv(s) && Enabled(s, step, now)
    ensures |ActiveCodes(Do(s, step, now).t, u)| <= |ActiveCodes(s.t, u)| + if step.StoreIssue? then 1 else 0
  {
    hide Sound, NoneLeftActive, PendingSound, CreationSound;
    var before, after := ActiveCodes(s.t, u), ActiveCodes(Do(s, step, now).t, u);
    var gained := if step.StoreIssue? then {step.code} else {};
    assert after <= before + gained;
    SubsetSize(after, before + gained);
  }

  lemma IssuesAfter(s: State, step: Step, now: Time)
    requires Enabled(s, step, now)
    ensures |Do(s, step, now).issues| == |s.issues| +
      if step.CountCodes? then 1 else if step.StoreIssue? then -1 else 0
  {
    var next := Do(s, step, now);
    if step.CountCodes? {
      assert next.issues.Keys == s.issues.Keys + {step.p};
      assert |next.issues.Keys| == |next.issues| && |s.issues.Keys| == |s.issues|;
    } else if step.StoreIssue? {
      assert next.issues.Keys == s.issues.Keys - {step.p};
      assert |next.issues.Keys| == |next.issues| && |s.issues.Keys| == |s.issues|;
    }
  }

  lemma StepWithin(s: State, step: Step, now: Time, flights: nat)
    requires Inv(s) && Enabled(s, step, now) && Within(s, MAX_ACTIVE_PAIRING_CODES - 1 + flights)
    requires |Do(s, step, now).issues| <= flights
    ensures Within(Do(s, step, now), MAX_ACTIVE_PAIRING_CODES - 1 + flights)
  {
    var next := Do(s, step, now);
    IssuesAfter(s, step, now);
    forall u | u >= next.clock ensures |ActiveCodes(next.t, u)| + |next.issues| <= MAX_ACTIVE_PAIRING_CODES - 1 + flights {
      ActiveAfter(s, step, now, u);
      hide Inv, ActiveCodes;
      if step.CountCodes? {
        ActiveExpire(s.t, s.looks[step.p].at, u);
      }
    }
  }

  lemma {:induction false} RunWithin(s: State, steps: seq<(Step, Time)>, end: State, flights: nat)
    requires Inv(s) && Within(s, MAX_ACTIVE_PAIRING_CODES - 1 + flights) && Runs(s, steps, end, flights)
    ensures Within(end, MAX_ACTIVE_PAIRING_CODES - 1 + flights)
    decreases |steps|
  {
    if steps != [] {
      StepKeepsInv(s, steps[0].0, steps[0].1);
      hide Inv, Within, Do, Enabled, Later;
      StepWithin(s, steps[0].0, steps[0].1, flights);
      RunWithin(Do(s, steps[0].0, steps[0].1), steps[1..], end, flights);
    }
  }

  /** With never more than `flights` issues under way at once there are never more than
      49 + flights active codes, so 50 when issues are serial. */
  lemma ActiveBounded(start: State, steps: seq<(Step, Time)>, end: State, flights: nat, now: Time)
    requires Initial(start) && Runs(start, steps, end, flights) && flights > 0 && now >= end.clock
    ensures |ActiveCodes(end.t, now)| <= 49 + flights
  {
    InitialInv(start);
    assert forall u :: ActiveCodes(start.t, u) == {};
    RunWithin(start, steps, end, flights);
  }

  lemma StoredActive(t: Tables, c: Id, account: Id, key: Hash, now: Time)
    requires c !in t.codes
    ensures |ActiveCodes(StoreCode(t, c, account, key, None, now), now)| == |ActiveCodes(t, now)| + 1
  {
    assert ActiveCodes(StoreCode(t, c, account, key, None, now), now) == ActiveCodes(t, now) + {c};
  }

  lemma {:induction false} RunsSnoc(s: State, steps: seq<(Step, Time)>, mid: State, step: Step, now: Time, flights: nat)
    requires Runs(s, steps, mid, flights) && Enabled(mid, step, now) && |Do(mid, step, now).issues| <= flights
    ensures Runs(s, steps + [(step, now)], Do(mid, step, now), flights)
    decreases |steps|
  {
    var all, end := steps + [(step, now)], Do(mid, step, now);
    assert Runs(end, [], end, flights);
    if steps == [] {
      assert all[1..] == [];
    } else {
      var next := Do(s, steps[0].0, steps[0].1);
      assert all[0] == steps[0] && all[1..] == steps[1..] + [(step, now)];
      hide Do, Enabled;
      RunsSnoc(next, steps[1..], mid, step, now, flights);
    }
  }

  /** m codes given out, all of them active, and the clients below j between their count and their
      insert. */
  ghost predicate Issuing(s: State, m: nat, j: nat) {
    && 0 in s.t.accounts && s.t.accounts[0].revoked.None?
    && (forall c: Id :: c in s.issued <==> c < m) && s.t.codes.Keys <= s.issued
    && |ActiveCodes(s.t, s.clock)| == m
    && s.looks == map[] && (forall p: nat :: p in s.issues <==> p < j) && |s.issues| == j
    && (forall p :: p in s.issues ==> s.issues[p] == Issue(0, s.clock))
  }

  lemma IssuingSize(s: State, m: nat, j: nat)
    requires Issuing(s, m, j)
    ensures |s.issues| == j
  {
  }

  lemma OneLooked(s: State, m: nat, j: nat)
    requires Issuing(s, m, j) && m < MAX_ACTIVE_PAIRING_CODES
    ensures Enabled(s, FindAccount(j, 0), s.clock)
    ensures var found := Do(s, FindAccount(j, 0), s.clock);
      && found.issues == s.issues && found.clock == s.clock && Enabled(found, CountCodes(j), s.clock)
      && Issuing(Do(found, CountCodes(j), s.clock), m, j + 1)
  {
    hide ActiveCodes;
    var found := Do(s, FindAccount(j, 0), s.clock);
    assert found.looks == map[j := Issue(0, s.clock)];
    assert found.looks - {j} == map[];
    IssuesAfter(found, CountCodes(j), s.clock);
  }

  lemma OneStored(s: State, m: nat, j: nat)
    requires Issuing(s, m, j + 1)
    ensures Enabled(s, StoreIssue(j, m, [], None), s.clock)
    ensures Issuing(Do(s, StoreIssue(j, m, [], None), s.clock), m + 1, j)
  {
    IssuesAfter(s, StoreIssue(j, m, [], None), s.clock);
    StoredActive(s.t, m, s.issues[j].account, [], s.clock);
  }

  /** More clients take their look while m are active, up to k of them. */
  lemma {:induction false} AllPrepare(start: State, steps: seq<(Step, Time)>, s: State, m: nat, j: nat, k: nat, flights: nat)
      returns (all: seq<(Step, Time)>, end: State)
    requires Runs(start, steps, s, flights) && Issuing(s, m, j) && m < MAX_ACTIVE_PAIRING_CODES && j <= k <= flights
    ensures Runs(start, all, end, flights) && Issuing(end, m, k)
    decreases k - j
  {
    hide *;
    if j == k {
      all, end := steps, s;
    } else {
      OneLooked(s, m, j);
      var found := Do(s, FindAccount(j, 0), s.clock);
      var next := Do(found, CountCodes(j), s.clock);
      IssuingSize(s, m, j);
      IssuingSize(next, m, j + 1);
      RunsSnoc(start, steps, s, FindAccount(j, 0), s.clock, flights);
      var looked := steps + [(FindAccount(j, 0), s.clock)];
      RunsSnoc(start, looked, found, CountCodes(j), s.clock, flights);
      all, end := AllPrepare(start, looked + [(CountCodes(j), s.clock)], next, m, j + 1, k, flights);
    }
  }

  /** Then each of them stores. */
  lemma {:induction false} AllStore(start: State, steps: seq<(Step, Time)>, s: State, m: nat, j: nat, flights: nat)
      returns (all: seq<(Step, Time)>, end: State)
    requires Runs(start, steps, s, flights) && Issuing(s, m, j) && j <= flights
    ensures Runs(start, all, end, flights) && Issuing(end, m + j, 0)
    decreases j
  {
    hide *;
    if j == 0 {
      all, end := steps, s;
    } else {
      OneStored(s, m, j - 1);
      var next := Do(s, StoreIssue(j - 1, m, [], None), s.clock);
      IssuingSize(next, m + 1, j - 1);
      RunsSnoc(start, steps, s, StoreIssue(j - 1, m, [], None), s.clock, flights);
      all, end := AllStore(start, steps + [(StoreIssue(j - 1, m, [], None), s.clock)], next, m + 1, j - 1, flights);
    }
  }

  /** One issue after the other, up to n active codes. */
  lemma {:induction false} SerialIssues(start: State, steps: seq<(Step, Time)>, s: State, m: nat, n: nat, flights: nat)
      returns (all: seq<(Step, Time)>, end: State)
    requires Runs(start, steps, s, flights) && Issuing(s, m, 0) && m <= n < MAX_ACTIVE_PAIRING_CODES && flights > 0
    ensures Runs(start, all, end, flights) && Issuing(end, n, 0)
    decreases n - m
  {
    if m == n {
      all, end := steps, s;
    } else {
      hide *;
      var looked, prepared := AllPrepare(start, steps, s, m, 0, 1, flights);
      var issued, next := AllStore(start, looked, prepared, m, 1, flights);
      all, end := SerialIssues(start, issued, next, m + 1, n, flights);
    }
  }

  /** The bound is exact: for every k there is a run from empty tables, with never more than k
      issues under way, that reaches it. All k look at 49 before any of them stores. */
  lemma BoundAttained(k: nat) returns (start: State, steps: seq<(Step, Time)>, end: State)
    requires k > 0
    ensures Initial(start) && Runs(start, steps, end, k)
    ensures |ActiveCodes(end.t, end.clock)| == 49 + k
  {
    start := State(Tables(map[], map[], map[]), map[], map[], map[], 0, {}, []);
    var added := Do(start, AddAccount(0, "a"), 0);
    assert Runs(start, [], start, k);
    RunsSnoc(start, [], start, AddAccount(0, "a"), 0, k);
    assert ActiveCodes(added.t, added.clock) == {};
    assert Issuing(added, 0, 0);
    var serial, full := SerialIssues(start, [] + [(AddAccount(0, "a"), 0)], added, 0, MAX_ACTIVE_PAIRING_CODES - 1, k);
    var looked, prepared := AllPrepare(start, serial, full, MAX_ACTIVE_PAIRING_CODES - 1, 0, k, k);
    steps, end := AllStore(start, looked, prepared, MAX_ACTIVE_PAIRING_CODES - 1, k, k);
  }

  /** Two overlapping issues are enough to pass the limit. */
  lemma OverlapOvershoots() returns (start: State, steps: seq<(Step, Time)>, end: State)
    ensures Initial(start) && Runs(start, steps, end, 2)
    ensures |ActiveCodes(end.t, end.clock)| > 50
  {
    start, steps, end := BoundAttained(2);
  }

  /** An issue that found its account open can store its code after the account is revoked, and a
      repeat then deletes that code. */
  lemma LateCodeIsDeleted() returns (start: State, steps: seq<(Step, Time)>, end: State)
    ensures Initial(start) && Runs(start, steps, end, 1)
    ensures AccountClosed(end.t, 0) && RevokeRows(end.t, 0, end.clock) != end.t
  {
    start := State(Tables(map[], map[], map[]), map[], map[], map[], 0, {}, []);
    var added := Do(start, AddAccount(0, "a"), 0);
    assert ActiveCodes(added.t, 0) == {};
    assert Issuing(added, 0, 0);
    OneLooked(added, 0, 0);
    var found := Do(added, FindAccount(0, 0), 0);
    var counted := Do(found, CountCodes(0), 0);
    var revoked := Do(counted, RevokeAccount(0), 0);
    assert revoked.issues == counted.issues && |counted.issues| == 1;
    end := Do(revoked, StoreIssue(0, 0, [], None), 0);
    IssuesAfter(revoked, StoreIssue(0, 0, [], None), 0);
    assert 0 in UnusedOf(end.t, 0);
    DroppedNothingIff(end.t, 0);
    assert 0 !in RevokeRows(end.t, 0, end.clock).codes;
    assert Runs(start, [], start, 1);
    hide Do, Enabled, Issuing;
    RunsSnoc(start, [], start, AddAccount(0, "a"), 0, 1);
    var one := [] + [(AddAccount(0, "a"), 0)];
    RunsSnoc(start, one, added, FindAccount(0, 0), 0, 1);
    var two := one + [(FindAccount(0, 0), 0)];
    RunsSnoc(start, two, found, CountCodes(0), 0, 1);
    var three := two + [(CountCodes(0), 0)];
    RunsSnoc(start, three, counted, RevokeAccount(0), 0, 1);
    var four := three + [(RevokeAccount(0), 0)];
    RunsSnoc(start, four, revoked, StoreIssue(0, 0, [], None), 0, 1);
    steps := four + [(StoreIssue(0, 0, [], None), 0)];
  }
}
