/** The account store as the functions that change its rows, statement by statement, each tied to
    the transaction it stands for in a run. */
module AccountsDb {
  import opened Wrappers
  import opened Pairing

  datatype IssueError = NoAccount | AccountIsRevoked | TooManyCodes(active: nat)

  datatype RevokeReport = RevokeReport(newly: bool, credentialsRevoked: nat, codesDeleted: nat)

  /** No two accounts share a name. */
  ghost predicate UniqueNames(accounts: map<Id, Account>) {
    forall i, j :: i in accounts && j in accounts && accounts[i].name == accounts[j].name ==> i == j
  }

  predicate Named(accounts: map<Id, Account>, id: Id, name: string) {
    id in accounts && accounts[id].name == name
  }

  /** The devices another table of the same devices holds differently. */
  function Changed(was: map<Id, Credential>, credentials: map<Id, Credential>): set<Id>
    requires credentials.Keys == was.Keys
  {
    set k | k in was && credentials[k] != was[k]
  }

  lemma OnlyActiveAreStamped(t: Tables, id: Id, now: Time)
    ensures RevokeCredentials(t, ActiveDevicesOf(t, id), now) == RevokeCredentials(t, DevicesOf(t, id), now)
  {
    assert RevokeCredentials(t, ActiveDevicesOf(t, id), now).credentials == RevokeCredentials(t, DevicesOf(t, id), now).credentials;
  }

  /** The rows a revocation changes. */
  lemma RevocationChanges(t: Tables, id: Id, now: Time)
    requires id in t.accounts
    ensures var after := Pairing.RevokeRows(t, id, now);
      && after.credentials.Keys == t.credentials.Keys
      && (after.accounts != t.accounts <==> t.accounts[id].revoked.None?)
      && Changed(t.credentials, after.credentials) == ActiveDevicesOf(t, id)
      && t.codes.Keys - after.codes.Keys == UnusedOf(t, id)
  {
    RevocationWrites(t, id, now);
  }

  class AccountsDb {
    var accounts: map<Id, Account>
    var credentials: map<Id, Credential>
    var codes: map<Id, Code>

    ghost function Snapshot(): Tables
      reads this
    {
      Tables(accounts, credentials, codes)
    }

    constructor ()
      ensures Snapshot() == Tables(map[], map[], map[])
    {
      accounts, credentials, codes := map[], map[], map[];
    }

    /** The account of that name, if there is one. */
    method Lookup(name: string) returns (id: Option<Id>)
      requires UniqueNames(accounts)
      ensures id.None? ==> forall i :: !Named(accounts, i, name)
      ensures id.Some? ==> Named(accounts, id.value, name) && forall i :: Named(accounts, i, name) ==> i == id.value
    {
      if i :| i in accounts && accounts[i].name == name {
        return Some(i);
      }
      id := None;
    }

    method AddAccount(name: string, id: Id) returns (ok: bool)
      requires UniqueNames(accounts)
      modifies this
      ensures UniqueNames(accounts)
      ensures ok <==> id !in old(accounts) && forall i :: !Named(old(accounts), i, name)
      ensures Snapshot() == if ok then old(Snapshot()).(accounts := old(accounts)[id := Account(name, None)]) else old(Snapshot())
    {
      var taken := Lookup(name);
      if taken.Some? || id in accounts {
        return false;
      }
      assert forall i :: i in accounts ==> !Named(accounts, i, name);
      accounts := accounts[id := Account(name, None)];
      ok := true;
    }

    /** Stamps those of the given credentials that are not revoked yet. */
    method StampCredentials(hit: set<Id>, now: Time)
      modifies this`credentials
      ensures Snapshot() == RevokeCredentials(old(Snapshot()), hit, now)
    {
      credentials := map k | k in credentials ::
        if k in hit && credentials[k].revoked.None? then credentials[k].(revoked := Some(now)) else credentials[k];
    }

    /** Deletes the codes of the account nobody has used, and counts them. */
    method DeleteUnused(id: Id) returns (deleted: nat)
      modifies this`codes
      ensures Snapshot() == DropUnused(old(Snapshot()), id)
      ensures deleted == |UnusedOf(old(Snapshot()), id)|
    {
      var dropped := set c | c in codes && codes[c].account == id && codes[c].used.None?;
      assert dropped == UnusedOf(Snapshot(), id);
      codes := map c | c in codes && !(codes[c].account == id && codes[c].used.None?) :: codes[c];
      deleted := |dropped|;
    }

    /** The account row, every credential of it still active, every unused code of it: what
        changed now, and nothing on a repeat. */
    method RevokeRows(id: Id, now: Time) returns (r: RevokeReport)
      requires id in accounts
      modifies this
      ensures Snapshot() == Pairing.RevokeRows(old(Snapshot()), id, now)
      ensures r.newly <==> accounts != old(accounts)
      ensures r.credentialsRevoked == |Changed(old(credentials), credentials)|
      ensures r.codesDeleted == |old(codes).Keys - codes.Keys|
    {
      ghost var was := Snapshot();
      var newly := accounts[id].revoked.None?;
      if newly {
        accounts := accounts[id := accounts[id].(revoked := Some(now))];
      }
      ghost var closed := Snapshot();
      assert closed == RevokeAccountRow(was, id, now);
      var hit := set k | k in credentials && credentials[k].account == id && credentials[k].revoked.None?;
      assert hit == ActiveDevicesOf(was, id);
      StampCredentials(hit, now);
      OnlyActiveAreStamped(closed, id, now);
      assert DevicesOf(closed, id) == DevicesOf(was, id) && ActiveDevicesOf(closed, id) == ActiveDevicesOf(was, id);
      ghost var stamped := Snapshot();
      assert UnusedOf(stamped, id) == UnusedOf(was, id);
      var dropped := DeleteUnused(id);
      hide Changed, UnusedOf, ActiveDevicesOf, RevokeCredentials, DropUnused, RevokeAccountRow;
      RevocationChanges(was, id, now);
      r := RevokeReport(newly, |hit|, dropped);
    }

    method RevokeAccount(name: string, now: Time) returns (r: Option<RevokeReport>, ghost id: Id)
      requires UniqueNames(accounts)
      modifies this
      ensures r.None? ==> Snapshot() == old(Snapshot()) && forall i :: !Named(old(accounts), i, name)
      ensures r.Some? ==> Named(old(accounts), id, name)
      ensures r.Some? ==> Snapshot() == Pairing.RevokeRows(old(Snapshot()), id, now)
      ensures r.Some? ==>
        && (r.value.newly <==> accounts != old(accounts))
        && r.value.credentialsRevoked == |Changed(old(credentials), credentials)|
        && r.value.codesDeleted == |old(codes).Keys - codes.Keys|
    {
      var found := Lookup(name);
      if found.None? {
        return None, 0;
      }
      var report := RevokeRows(found.value, now);
      r, id := Some(report), found.value;
    }

    /** A device of the account of that name, its label compared without regard to case. */
    ghost predicate IsDevice(row: Credential, name: string, deviceLabel: string, lower: string -> string)
      reads this`accounts
    {
      row.account in accounts && accounts[row.account].name == name && lower(row.deviceLabel) == lower(deviceLabel)
    }

    /** Every active device of the account whose label matches without regard to case; it is an
        error when there is none. */
    method RevokeDevice(name: string, deviceLabel: string, lower: string -> string, now: Time) returns (revoked: Option<nat>)
      requires UniqueNames(accounts)
      modifies this`credentials
      ensures credentials.Keys == old(credentials).Keys
      ensures forall k :: k in credentials ==> var was := old(credentials)[k];
        && (IsDevice(was, name, deviceLabel, lower) && was.revoked.None? ==> credentials[k] == was.(revoked := Some(now)))
        && (!IsDevice(was, name, deviceLabel, lower) || was.revoked.Some? ==> credentials[k] == was)
      ensures exists hit :: Snapshot() == RevokeCredentials(old(Snapshot()), hit, now)
      ensures revoked == if credentials == old(credentials) then None else Some(|Changed(old(credentials), credentials)|)
    {
      var hit := set k | k in credentials && Named(accounts, credentials[k].account, name)
        && lower(credentials[k].deviceLabel) == lower(deviceLabel) && credentials[k].revoked.None?;
      ghost var was := credentials;
      StampCredentials(hit, now);
      assert Changed(was, credentials) == hit;
      revoked := if hit == {} then None else Some(|hit|);
    }

    /** The look before a code is stored: an account that is there and open, and room. */
    method PrepareIssue(name: string, now: Time) returns (r: Result<Id, IssueError>)
      requires UniqueNames(accounts)
      ensures r == Err(NoAccount) <==> forall i :: !Named(accounts, i, name)
      ensures forall i :: Named(accounts, i, name) ==>
        r == if accounts[i].revoked.Some? then Err(AccountIsRevoked)
             else if |ActiveCodes(Snapshot(), now)| >= 50
             then Err(TooManyCodes(|ActiveCodes(Snapshot(), now)|)) else Ok(i)
    {
      var found := Lookup(name);
      if found.None? {
        return Err(NoAccount);
      }
      if accounts[found.value].revoked.Some? {
        return Err(AccountIsRevoked);
      }
      var active := set c | c in codes && codes[c].used.None? && codes[c].expires > now;
      assert active == ActiveCodes(Snapshot(), now);
      if |active| >= MAX_ACTIVE_PAIRING_CODES {
        return Err(TooManyCodes(|active|));
      }
      r := Ok(found.value);
    }

    method StoreCode(code: Id, account: Id, key: Hash, deviceLabel: Option<string>, now: Time) returns (ok: bool)
      modifies this`codes
      ensures ok <==> code !in old(codes) && account in accounts
      ensures Snapshot() == if ok then Pairing.StoreCode(old(Snapshot()), code, account, key, deviceLabel, now) else old(Snapshot())
    {
      if code in codes || account !in accounts {
        return false;
      }
      codes := codes[code := Code(account, key, deviceLabel, now, now + PAIRING_CODE_TTL, None, None)];
      ok := true;
    }

    /** One statement: the row taken, the credential made, or else the earlier answer found. */
    method ClaimPairingCode(r: Request) returns (outcome: Outcome)
      requires References(Snapshot())
      modifies this
      ensures (Snapshot(), outcome) == Claim(old(Snapshot()), r)
    {
      var claimed := r.code in codes && codes[r.code].used.None? && codes[r.code].expires > r.now
        && accounts[codes[r.code].account].revoked.None?;
      if claimed {
        if r.credential in credentials {
          return Failed;
        }
        var row := codes[r.code];
        codes := codes[r.code := row.(used := Some(r.now), credential := Some(r.credential))];
        var name := if row.fixedLabel.Some? then row.fixedLabel.value else r.deviceLabel;
        credentials := credentials[r.credential := Credential(row.account, name, r.secretHash, r.now, None)];
        return Created(r.credential);
      }
      if r.code in codes && codes[r.code].credential.Some? {
        var k := codes[r.code].credential.value;
        if k in credentials && credentials[k].secretHash == r.secretHash && credentials[k].revoked.None?
           && accounts[credentials[k].account].revoked.None? {
          return Replayed(k);
        }
      }
      outcome := Refused;
    }

    method PurgePairingCodes(now: Time) returns (purged: nat)
      modifies this`codes
      ensures Snapshot() == Purge(old(Snapshot()), now)
      ensures purged == |old(codes).Keys - codes.Keys|
    {
      var before := now - PAIRING_RETAIN;
      var gone := set c | c in codes && ((codes[c].used.Some? && codes[c].used.value < before) || codes[c].expires < before);
      ghost var was := codes;
      codes := map c | c in codes && c !in gone :: codes[c];
      assert was.Keys - codes.Keys == gone;
      purged := |gone|;
    }
  }
}
