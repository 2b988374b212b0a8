/** Accounts, credentials and pairing codes: the tables, and the statements that change them. The
    clock is always the caller's. Instants are microseconds. */
module Pairing {
  import opened Wrappers

  type Id = nat
  type Time = int
  type Hash = seq<int>

  const HOUR: int := 3_600_000_000
  const PAIRING_CODE_TTL: int := 24 * HOUR
  const PAIRING_RETAIN: int := 7 * 24 * HOUR
  const MAX_ACTIVE_PAIRING_CODES: nat := 50
  const CANDIDATE_LIMIT: nat := 200

  datatype Account = Account(name: string, revoked: Option<Time>)

  datatype Credential = Credential(account: Id, deviceLabel: string, secretHash: Hash, created: Time, revoked: Option<Time>)

  /** `used` and `credential` are set together. */
  datatype Code = Code(account: Id, codeKey: Hash, fixedLabel: Option<string>, created: Time, expires: Time,
                       used: Option<Time>, credential: Option<Id>)

  datatype Tables = Tables(accounts: map<Id, Account>, credentials: map<Id, Credential>, codes: map<Id, Code>)

  // ----- states as reported

  datatype CandidateState = Redeemable | Used | Expired | AccountRevoked

  datatype Candidate = Candidate(id: Id, codeKey: Hash, expires: Time, used: Option<Time>, accountRevoked: bool)

  function ClassifyCandidate(c: Candidate, now: Time): CandidateState {
    if c.used.Some? then Used
    else if c.accountRevoked then AccountRevoked
    else if now >= c.expires then Expired
    else Redeemable
  }

  datatype CredentialState = Active | Revoked | OfRevokedAccount

  function StateOf(accountRevoked: bool, revoked: bool): CredentialState {
    match (accountRevoked, revoked)
    case (true, _) => OfRevokedAccount
    case (false, true) => Revoked
    case (false, false) => Active
  }

  function AuthState(t: Tables, k: Id): CredentialState
    requires k in t.credentials && t.credentials[k].account in t.accounts
  {
    StateOf(t.accounts[t.credentials[k].account].revoked.Some?, t.credentials[k].revoked.Some?)
  }

  // ----- what the tables keep

  ghost predicate References(t: Tables) {
    && (forall k :: k in t.credentials ==> t.credentials[k].account in t.accounts)
    && (forall c :: c in t.codes ==> t.codes[c].account in t.accounts)
  }

  ghost predicate CodeSound(t: Tables, c: Id)
    requires c in t.codes
  {
    var row := t.codes[c];
    && row.expires == row.created + PAIRING_CODE_TTL
    && (row.used.Some? <==> row.credential.Some?)
    && (row.used.Some? ==>
          && row.created <= row.used.value < row.expires
          && row.credential.value in t.credentials
          && t.credentials[row.credential.value].account == row.account)
  }

  ghost predicate SamePairing(t: Tables, c: Id, d: Id)
    requires c in t.codes && d in t.codes
  {
    t.codes[c].credential.Some? && t.codes[c].credential == t.codes[d].credential
  }

  /** Every used code points at a credential of its own account, no two at the same one. */
  ghost predicate Sound(t: Tables) {
    && References(t)
    && (forall c :: c in t.codes ==> CodeSound(t, c))
    && (forall c, d :: c in t.codes && d in t.codes ==> SamePairing(t, c, d) ==> c == d)
  }

  predicate AccountClosed(t: Tables, id: Id) {
    id in t.accounts && t.accounts[id].revoked.Some?
  }

  /** A revoked account has no device that is not revoked itself. */
  ghost predicate NoneLeftActive(t: Tables) {
    forall k :: k in t.credentials && AccountClosed(t, t.credentials[k].account) ==> t.credentials[k].revoked.Some?
  }

  // ----- revocation

  function RevokeAccountRow(t: Tables, id: Id, now: Time): Tables
    requires id in t.accounts
  {
    if t.accounts[id].revoked.Some? then t
    else t.(accounts := t.accounts[id := t.accounts[id].(revoked := Some(now))])
  }

  function RevokeCredentials(t: Tables, hit: set<Id>, now: Time): Tables {
    t.(credentials := map k | k in t.credentials ::
      if k in hit && t.credentials[k].revoked.None? then t.credentials[k].(revoked := Some(now)) else t.credentials[k])
  }

  function DropUnused(t: Tables, id: Id): Tables {
    t.(codes := map c | c in t.codes && !(t.codes[c].account == id && t.codes[c].used.None?) :: t.codes[c])
  }

  function DevicesOf(t: Tables, id: Id): set<Id> {
    set k | k in t.credentials && t.credentials[k].account == id
  }

  function ActiveDevicesOf(t: Tables, id: Id): set<Id> {
    set k | k in t.credentials && t.credentials[k].account == id && t.credentials[k].revoked.None?
  }

  function UnusedOf(t: Tables, id: Id): set<Id> {
    set c | c in t.codes && t.codes[c].account == id && t.codes[c].used.None?
  }

  /** The three statements of a revocation, in one transaction. */
  function RevokeRows(t: Tables, id: Id, now: Time): Tables
    requires id in t.accounts
  {
    DropUnused(RevokeCredentials(RevokeAccountRow(t, id, now), DevicesOf(t, id), now), id)
  }

  // ----- issue

  function ActiveCodes(t: Tables, now: Time): set<Id> {
    set c | c in t.codes && t.codes[c].used.None? && t.codes[c].expires > now
  }

  function StoreCode(t: Tables, c: Id, account: Id, key: Hash, deviceLabel: Option<string>, now: Time): Tables {
    t.(codes := t.codes[c := Code(account, key, deviceLabel, now, now + PAIRING_CODE_TTL, None, None)])
  }

  // ----- claim

  datatype Request = Request(code: Id, deviceLabel: string, secretHash: Hash, credential: Id, now: Time)

  /** Failed is the statement refused by a key, a fresh id that is not fresh. */
  datatype Outcome = Created(credential: Id) | Replayed(credential: Id) | Refused | Failed

  predicate Claimable(t: Tables, c: Id, now: Time) {
    c in t.codes && t.codes[c].used.None? && t.codes[c].expires > now
  }

  predicate AccountOpen(t: Tables, c: Id) {
    c in t.codes && t.codes[c].account in t.accounts && t.accounts[t.codes[c].account].revoked.None?
  }

  /** The credential a client that lost the answer gets again. */
  predicate Replayable(t: Tables, r: Request) {
    && r.code in t.codes && t.codes[r.code].credential.Some?
    && var k := t.codes[r.code].credential.value;
    && k in t.credentials && t.credentials[k].secretHash == r.secretHash && t.credentials[k].revoked.None?
    && t.credentials[k].account in t.accounts && t.accounts[t.credentials[k].account].revoked.None?
  }

  function Redeem(t: Tables, r: Request): Tables
    requires r.code in t.codes
  {
    var row := t.codes[r.code];
    var name := if row.fixedLabel.Some? then row.fixedLabel.value else r.deviceLabel;
    t.(codes := t.codes[r.code := row.(used := Some(r.now), credential := Some(r.credential))],
       credentials := t.credentials[r.credential := Credential(row.account, name, r.secretHash, r.now, None)])
  }

  /** The claim statement that started on `seen` and took its row lock on `t`: the row is judged on
      `seen`, then again, once locked, as it is in `t`; everything else is read from `seen`. */
  function ClaimFrom(seen: Tables, t: Tables, r: Request): (Tables, Outcome) {
    if Claimable(seen, r.code, r.now) && AccountOpen(seen, r.code) && Claimable(t, r.code, r.now) then
      if r.credential in t.credentials then (t, Failed) else (Redeem(t, r), Created(r.credential))
    else if Replayable(seen, r) then (t, Replayed(seen.codes[r.code].credential.value))
    else (t, Refused)
  }

  /** The claim with nobody else about. */
  function Claim(t: Tables, r: Request): (Tables, Outcome) {
    ClaimFrom(t, t, r)
  }

  // ----- purge

  function Purge(t: Tables, now: Time): Tables {
    var before := now - PAIRING_RETAIN;
    t.(codes := map c | c in t.codes && !((t.codes[c].used.Some? && t.codes[c].used.value < before) || t.codes[c].expires < before)
      :: t.codes[c])
  }

  // ----- candidates

  /** Rows of the candidate query before they are ordered and cut. */
  function Recent(t: Tables, now: Time): map<Id, Code> {
    map c | c in t.codes && t.codes[c].account in t.accounts && t.codes[c].created > now - PAIRING_RETAIN :: t.codes[c]
  }

  /** Newest first, then by id. */
  predicate Precedes(rows: map<Id, Code>, c: Id, d: Id)
    requires c in rows && d in rows
  {
    rows[c].created > rows[d].created || (rows[c].created == rows[d].created && c <= d)
  }

  ghost predicate First(rows: map<Id, Code>, c: Id) {
    c in rows && forall d :: d in rows ==> Precedes(rows, c, d)
  }

  lemma FirstExists(rows: map<Id, Code>)
    requires rows != map[]
    ensures exists c :: First(rows, c)
    decreases rows.Keys
  {
    var c :| c in rows;
    var rest := rows - {c};
    if rest == map[] {
      assert forall d :: d in rows ==> d == c || d in rest;
      assert First(rows, c);
    } else {
      assert c !in rest.Keys && rest.Keys <= rows.Keys;
      FirstExists(rest);
      var d :| First(rest, d);
      var first := if Precedes(rows, c, d) then c else d;
      forall e | e in rows ensures Precedes(rows, first, e) {
        if e != c {
          assert e in rest && Precedes(rest, d, e);
        }
      }
      assert First(rows, first);
    }
  }

  ghost function Ordered(rows: map<Id, Code>, limit: nat): seq<Id> {
    if rows == map[] || limit == 0 then []
    else
      FirstExists(rows);
      var c :| First(rows, c);
      [c] + Ordered(rows - {c}, limit - 1)
  }

  function AsCandidate(t: Tables, c: Id): Candidate
    requires c in t.codes && t.codes[c].account in t.accounts
  {
    var row := t.codes[c];
    Candidate(c, row.codeKey, row.expires, row.used, t.accounts[row.account].revoked.Some?)
  }

  /** Ids of the rows `pairing_candidates` returns, in order. */
  ghost function PairingCandidates(t: Tables, now: Time): seq<Id> {
    Ordered(Recent(t, now), CANDIDATE_LIMIT)
  }

  // ----- what single statements amount to

  /** Redeemable is said of exactly the codes a claim at that instant turns into a credential. */
  lemma RedeemableIffCreates(t: Tables, r: Request)
    requires Sound(t) && r.code in t.codes && r.credential !in t.credentials
    ensures ClassifyCandidate(AsCandidate(t, r.code), r.now) == Redeemable <==> Claim(t, r).1 == Created(r.credential)
  {
  }

  /** A claim that finds the code used answers the same secret with the code's own credential, as
      long as that is active, and refuses everything else; whatever the tables are by the time it
      has its lock, it changes no row. */
  lemma UsedCodeAnswers(seen: Tables, t: Tables, r: Request)
    requires Sound(seen) && r.code in seen.codes && seen.codes[r.code].used.Some?
    ensures var k := seen.codes[r.code].credential.value;
      ClaimFrom(seen, t, r) == (t, if seen.credentials[k].secretHash == r.secretHash && AuthState(seen, k) == Active
                                   then Replayed(k) else Refused)
  {
    assert CodeSound(seen, r.code);
  }

  /** Claiming again with the same secret finds the credential just made, whatever tables the second
      claim takes its lock on. */
  lemma ClaimTwice(seen: Tables, t: Tables, r: Request, again: Request, locked: Tables)
    requires ClaimFrom(seen, t, r).1.Created? && AccountOpen(t, r.code)
    requires again.code == r.code && again.secretHash == r.secretHash
    ensures ClaimFrom(ClaimFrom(seen, t, r).0, locked, again) == (locked, Replayed(r.credential))
  {
  }

  /** What a claim writes when it creates: the label the code fixes, or else the client's, the
      client's secret, and the claim's instant, on both rows; no other row moves. */
  lemma CreationWrites(seen: Tables, t: Tables, r: Request)
    requires ClaimFrom(seen, t, r).1.Created?
    ensures ClaimFrom(seen, t, r).1 == Created(r.credential) && r.code in t.codes && r.credential !in t.credentials
    ensures var (after, row) := (ClaimFrom(seen, t, r).0, t.codes[r.code]);
      && after.accounts == t.accounts
      && after.codes.Keys == t.codes.Keys && after.credentials.Keys == t.credentials.Keys + {r.credential}
      && (forall c :: c in t.codes && c != r.code ==> after.codes[c] == t.codes[c])
      && (forall k :: k in t.credentials ==> after.credentials[k] == t.credentials[k])
      && var made, used := after.credentials[r.credential], after.codes[r.code];
      && made.account == row.account && made.secretHash == r.secretHash && made.created == r.now && made.revoked.None?
      && (row.fixedLabel.Some? ==> made.deviceLabel == row.fixedLabel.value)
      && (row.fixedLabel.None? ==> made.deviceLabel == r.deviceLabel)
      && used.used == Some(r.now) && used.credential == Some(r.credential)
      && used.account == row.account && used.codeKey == row.codeKey && used.fixedLabel == row.fixedLabel
      && used.created == row.created && used.expires == row.expires
  {
  }

  // ----- what the reported states mean

  /** Of a code: used; of a revoked account; too late, as it could have been redeemed when it was
      issued and at no instant from now on; or redeemable. */
  lemma CandidateStates(t: Tables, c: Id, now: Time)
    requires Sound(t) && c in t.codes
    ensures ClassifyCandidate(AsCandidate(t, c), now) == Used <==> t.codes[c].credential.Some?
    ensures ClassifyCandidate(AsCandidate(t, c), now) == AccountRevoked <==>
      t.codes[c].used.None? && AccountClosed(t, t.codes[c].account)
    ensures ClassifyCandidate(AsCandidate(t, c), now) == Expired <==>
      && (forall r: Request :: r.code == c && r.now == t.codes[c].created && r.credential !in t.credentials ==> Claim(t, r).1.Created?)
      && (forall r: Request :: r.code == c && r.now >= now ==> Claim(t, r).1 == Refused)
    ensures ClassifyCandidate(AsCandidate(t, c), now) == Redeemable <==>
      c in ActiveCodes(t, now) && !AccountClosed(t, t.codes[c].account)
  {
    assert CodeSound(t, c);
    var unseen := Above(t.credentials.Keys);
    var first := Request(c, "", [], unseen, t.codes[c].created);
    var late := Request(c, "", [], unseen, now);
    assert Claim(t, first).1.Created? <==> t.codes[c].used.None? && !AccountClosed(t, t.codes[c].account);
    assert t.codes[c].used.None? && !AccountClosed(t, t.codes[c].account) ==> (Claim(t, late).1 == Refused <==> now >= t.codes[c].expires);
  }

  lemma {:induction false} Above(ids: set<Id>) returns (bound: Id)
    ensures forall i :: i in ids ==> i < bound
    decreases ids
  {
    if ids == {} {
      bound := 0;
    } else {
      var i :| i in ids;
      var below := Above(ids - {i});
      bound := if i < below then below else i + 1;
      assert forall j :: j in ids ==> j == i || j in ids - {i};
    }
  }

  /** Of a credential: its account's revocation is what is reported, if there is one, then its own. */
  lemma CredentialStates(t: Tables, k: Id)
    requires References(t) && k in t.credentials
    ensures AuthState(t, k) == OfRevokedAccount <==> AccountClosed(t, t.credentials[k].account)
    ensures AuthState(t, k) == Revoked <==> !AccountClosed(t, t.credentials[k].account) && t.credentials[k].revoked.Some?
  {
  }

  // ----- what revoking and purging write

  /** A revocation stamps the account and its active devices with its instant, unless they carry an
      earlier one, deletes the account's unused codes, and touches nothing else. */
  lemma RevocationWrites(t: Tables, id: Id, now: Time)
    requires id in t.accounts
    ensures var after := RevokeRows(t, id, now);
      && after.accounts.Keys == t.accounts.Keys && after.credentials.Keys == t.credentials.Keys
      && (forall a :: a in t.accounts && (a != id || t.accounts[a].revoked.Some?) ==> after.accounts[a] == t.accounts[a])
      && (t.accounts[id].revoked.None? ==> after.accounts[id] == Account(t.accounts[id].name, Some(now)))
      && (forall k :: k in t.credentials && (t.credentials[k].account != id || t.credentials[k].revoked.Some?) ==>
            after.credentials[k] == t.credentials[k])
      && (forall k :: k in t.credentials && t.credentials[k].account == id && t.credentials[k].revoked.None? ==>
            after.credentials[k] == t.credentials[k].(revoked := Some(now)))
      && (forall c :: c in after.codes <==> c in t.codes && (t.codes[c].account != id || t.codes[c].used.Some?))
      && (forall c :: c in after.codes ==> after.codes[c] == t.codes[c])
  {
  }

  /** Revoking devices stamps those of them still active, and touches nothing else. */
  lemma DeviceRevocationWrites(t: Tables, hit: set<Id>, now: Time)
    ensures var after := RevokeCredentials(t, hit, now);
      && after.accounts == t.accounts && after.codes == t.codes && after.credentials.Keys == t.credentials.Keys
      && forall k :: k in t.credentials ==>
           if k in hit && t.credentials[k].revoked.None? then after.credentials[k] == t.credentials[k].(revoked := Some(now))
           else after.credentials[k] == t.credentials[k]
  {
  }

  /** A purge takes the codes used or expired more than seven days ago, all of them and no other. */
  lemma PurgeTakes(t: Tables, now: Time, c: Id)
    requires Sound(t) && c in t.codes
    ensures c !in Purge(t, now).codes <==>
      if t.codes[c].used.Some? then now - t.codes[c].used.value > 7 * 86_400_000_000 || now - t.codes[c].created > 8 * 86_400_000_000
      else now - t.codes[c].created > 8 * 86_400_000_000
    ensures Purge(t, now).accounts == t.accounts && Purge(t, now).credentials == t.credentials
    ensures c in Purge(t, now).codes ==> Purge(t, now).codes[c] == t.codes[c]
  {
    assert CodeSound(t, c);
  }

  // ----- what the candidate query returns

  /** The newest first, by id within one instant, none twice, and only for want of room is a code
      issued in the last seven days missing: two hundred are there, and all of them come before it. */
  lemma CandidatesAre(t: Tables, now: Time)
    requires References(t)
    ensures var r := PairingCandidates(t, now);
      && |r| <= 200
      && (forall i :: 0 <= i < |r| ==> r[i] in t.codes && now - t.codes[r[i]].created < 7 * 86_400_000_000)
      && (forall i, j :: 0 <= i < j < |r| ==>
            t.codes[r[i]].created > t.codes[r[j]].created || (t.codes[r[i]].created == t.codes[r[j]].created && r[i] < r[j]))
      && (forall c :: c in t.codes && now - t.codes[c].created < 7 * 86_400_000_000 && c !in r ==>
            |r| == 200 && forall i :: 0 <= i < |r| ==>
              t.codes[r[i]].created > t.codes[c].created || (t.codes[r[i]].created == t.codes[c].created && r[i] < c))
  {
    OrderedIs(Recent(t, now), CANDIDATE_LIMIT);
  }

  ghost predicate Strictly(rows: map<Id, Code>, c: Id, d: Id)
    requires c in rows && d in rows
  {
    rows[c].created > rows[d].created || (rows[c].created == rows[d].created && c < d)
  }

  ghost predicate InOrder(rows: map<Id, Code>, r: seq<Id>) {
    && (forall i :: 0 <= i < |r| ==> r[i] in rows)
    && (forall i, j :: 0 <= i < j < |r| ==> Strictly(rows, r[i], r[j]))
  }

  ghost predicate AllBefore(rows: map<Id, Code>, r: seq<Id>, d: Id) {
    d in rows && forall i :: 0 <= i < |r| ==> r[i] in rows && Strictly(rows, r[i], d)
  }

  lemma {:induction false} OrderedIs(rows: map<Id, Code>, limit: nat)
    ensures |Ordered(rows, limit)| <= limit && InOrder(rows, Ordered(rows, limit))
    ensures forall d :: d in rows && d !in Ordered(rows, limit) ==>
      |Ordered(rows, limit)| == limit && AllBefore(rows, Ordered(rows, limit), d)
    decreases limit
  {
    if rows != map[] && limit > 0 {
      FirstExists(rows);
      var c := Ordered(rows, limit)[0];
      assert First(rows, c);
      var tail := Ordered(rows - {c}, limit - 1);
      OrderedIs(rows - {c}, limit - 1);
      assert Ordered(rows, limit) == [c] + tail;
      hide Ordered, First, InOrder, AllBefore;
      FirstInOrder(rows, c, tail);
      forall d | d in rows && d !in [c] + tail ensures |[c] + tail| == limit && AllBefore(rows, [c] + tail, d) {
        assert d in rows - {c} && d !in tail;
        FirstBefore(rows, c, tail, d);
      }
    }
  }

  lemma FirstInOrder(rows: map<Id, Code>, c: Id, tail: seq<Id>)
    requires First(rows, c) && InOrder(rows - {c}, tail)
    ensures InOrder(rows, [c] + tail)
  {
    var r := [c] + tail;
    forall i, j | 0 <= i < j < |r| ensures r[i] in rows && r[j] in rows && Strictly(rows, r[i], r[j]) {
      assert r[j] == tail[j - 1] && tail[j - 1] in rows - {c};
      if i == 0 {
        assert Precedes(rows, c, r[j]);
      } else {
        assert Strictly(rows - {c}, tail[i - 1], tail[j - 1]);
      }
    }
  }

  lemma FirstBefore(rows: map<Id, Code>, c: Id, tail: seq<Id>, d: Id)
    requires First(rows, c) && d in rows && d != c && AllBefore(rows - {c}, tail, d)
    ensures AllBefore(rows, [c] + tail, d)
  {
    var r := [c] + tail;
    forall i | 0 <= i < |r| ensures r[i] in rows && Strictly(rows, r[i], d) {
      if i == 0 {
        assert Precedes(rows, c, d);
      } else {
        assert r[i] == tail[i - 1] && Strictly(rows - {c}, tail[i - 1], d);
      }
    }
  }
}
