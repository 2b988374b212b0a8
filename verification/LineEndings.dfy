/** Migration checksums recorded from the same SQL in other line endings: the rule that forgives
    them, as the daemon applies it at startup and as the maintenance script does. */
module LineEndings {
  import opened Wrappers
  import opened Bytes

  type Hash = seq<byte>
  type Version = int

  /** Every occurrence of `from`, leftmost first and never overlapping, becomes `to`. */
  function Replace(text: seq<byte>, from: seq<byte>, to: seq<byte>): seq<byte>
    requires from != []
  {
    if text == [] then []
    else if from <= text then to + Replace(text[|from|..], from, to)
    else [text[0]] + Replace(text[1..], from, to)
  }

  function ToLf(text: seq<byte>): seq<byte> {
    Replace(text, CRLF, [LF])
  }

  function ToCrlf(text: seq<byte>): seq<byte> {
    Replace(text, [LF], CRLF)
  }

  predicate HasCrlf(text: seq<byte>) {
    exists i :: 0 <= i < |text| && CrlfAt(text, i)
  }

  // ----- the two spellings

  lemma LfStep(text: seq<byte>)
    requires text != []
    ensures if CrlfAt(text, 0) then ToLf(text) == [LF] + ToLf(text[2..]) else ToLf(text) == [text[0]] + ToLf(text[1..])
  {
    assert CRLF <= text <==> CrlfAt(text, 0);
  }

  lemma CrlfStep(text: seq<byte>)
    requires text != []
    ensures ToCrlf(text) == (if text[0] == LF then CRLF else [text[0]]) + ToCrlf(text[1..])
  {
    assert [LF] <= text <==> text[0] == LF;
  }

  lemma NoText()
    ensures ToLf([]) == [] && ToCrlf([]) == []
  {
  }

  /** Lone CRs and doubled ones survive: nothing is lost by going to CRLF. */
  lemma {:induction false} BackToLf(text: seq<byte>)
    ensures ToLf(ToCrlf(text)) == text
  {
    hide Replace, ToLf, ToCrlf;
    NoText();
    if text != [] {
      var rest := ToCrlf(text[1..]);
      BackToLf(text[1..]);
      CrlfStep(text);
      LfStep(ToCrlf(text));
      if text[0] == LF {
        assert ToCrlf(text)[2..] == rest;
      } else {
        assert ToCrlf(text)[1..] == rest;
        if text[1..] != [] {
          CrlfStep(text[1..]);
        }
      }
      assert [text[0]] + text[1..] == text;
    }
  }

  lemma {:induction false} LfKeepsIff(text: seq<byte>)
    ensures |ToLf(text)| <= |text|
    ensures ToLf(text) == text <==> !HasCrlf(text)
    ensures HasCrlf(text) ==> |ToLf(text)| < |text|
  {
    if text != [] {
      LfStep(text);
      hide Replace, ToLf, ToCrlf;
      if CrlfAt(text, 0) {
        LfKeepsIff(text[2..]);
      } else {
        LfKeepsIff(text[1..]);
        assert HasCrlf(text) <==> HasCrlf(text[1..]) by {
          forall i | CrlfAt(text, i) ensures CrlfAt(text[1..], i - 1) {
          }
          forall i | CrlfAt(text[1..], i) ensures CrlfAt(text, i + 1) {
          }
        }
        assert [text[0]] + text[1..] == text;
        assert ([text[0]] + ToLf(text[1..]))[1..] == ToLf(text[1..]);
      }
    }
  }

  // ----- the rule

  /** `embedded` when the record is the hash of the SQL in the other line endings. */
  function RealignedChecksum(hash: seq<byte> -> Hash, sql: seq<byte>, embedded: Hash, recorded: Hash): Option<Hash> {
    if recorded == embedded then None
    else
      var lf := ToLf(sql);
      var crlf := ToCrlf(lf);
      if hash(lf) == recorded || hash(crlf) == recorded then Some(embedded) else None
  }

  ghost predicate Injective(hash: seq<byte> -> Hash) {
    forall a, b :: hash(a) == hash(b) ==> a == b
  }

  predicate Forgiven(sql: seq<byte>, recorded: seq<byte>) {
    recorded != sql && (recorded == ToLf(sql) || recorded == ToCrlf(ToLf(sql)))
  }

  /** A record is forgiven exactly when the text it was made from is another text, and is this one
      with every line ending LF or every line ending CRLF. */
  lemma RealignedIffForgiven(hash: seq<byte> -> Hash, sql: seq<byte>, recorded: seq<byte>)
    requires Injective(hash)
    ensures RealignedChecksum(hash, sql, hash(sql), hash(recorded)) == Some(hash(sql)) <==> Forgiven(sql, recorded)
    ensures RealignedChecksum(hash, sql, hash(sql), hash(recorded)) == None <==> !Forgiven(sql, recorded)
  {
  }

  // ----- checkouts

  /** What a checkout in CRLF holds: a CR before each LF that has none. `afterCr` says whether the
      text goes on after a CR. */
  function Worktree(text: seq<byte>, afterCr: bool): seq<byte> {
    if text == [] then []
    else (if text[0] == LF && !afterCr then CRLF else [text[0]]) + Worktree(text[1..], text[0] == CR)
  }

  predicate LoneLfAt(text: seq<byte>, afterCr: bool, i: int) {
    0 <= i < |text| && text[i] == LF && !(if i == 0 then afterCr else text[i - 1] == CR)
  }

  /** An LF with no CR before it. */
  predicate HasLoneLf(text: seq<byte>, afterCr: bool) {
    exists i :: 0 <= i < |text| && LoneLfAt(text, afterCr, i)
  }

  lemma LoneLfStep(text: seq<byte>, afterCr: bool)
    requires text != []
    ensures HasLoneLf(text, afterCr) <==> (text[0] == LF && !afterCr) || HasLoneLf(text[1..], text[0] == CR)
  {
    var rest := text[1..];
    if HasLoneLf(text, afterCr) {
      var i :| 0 <= i < |text| && LoneLfAt(text, afterCr, i);
      assert i > 0 ==> LoneLfAt(rest, text[0] == CR, i - 1);
    }
    if HasLoneLf(rest, text[0] == CR) {
      var i :| 0 <= i < |rest| && LoneLfAt(rest, text[0] == CR, i);
      assert LoneLfAt(text, afterCr, i + 1);
    }
    assert LoneLfAt(text, afterCr, 0) <==> text[0] == LF && !afterCr;
  }

  /** `\n` to `\r\n` over the text brought to `\n`, in two passes, is that one pass. */
  lemma {:induction false} WorktreeIsCrlfOfLf(text: seq<byte>)
    ensures Worktree(text, false) == ToCrlf(ToLf(text))
  {
    hide Replace, ToLf, ToCrlf;
    NoText();
    if text != [] {
      LfStep(text);
      CrlfStep(ToLf(text));
      if CrlfAt(text, 0) {
        WorktreeIsCrlfOfLf(text[2..]);
        assert text[1..][1..] == text[2..] && ToLf(text)[1..] == ToLf(text[2..]);
        assert Worktree(text, false) == [CR] + ([LF] + Worktree(text[2..], false));
      } else {
        WorktreeIsCrlfOfLf(text[1..]);
        AfterCrMatters(text[1..]);
        assert ToLf(text)[1..] == ToLf(text[1..]);
      }
    }
  }

  lemma AfterCrMatters(text: seq<byte>)
    ensures text == [] || text[0] != LF ==> Worktree(text, true) == Worktree(text, false)
  {
  }

  lemma {:induction false} WorktreeKeepsIff(text: seq<byte>, afterCr: bool)
    ensures |Worktree(text, afterCr)| >= |text|
    ensures Worktree(text, afterCr) == text <==> !HasLoneLf(text, afterCr)
    ensures HasLoneLf(text, afterCr) ==> |Worktree(text, afterCr)| > |text|
  {
    if text != [] {
      var rest, w := text[1..], Worktree(text[1..], text[0] == CR);
      WorktreeKeepsIff(rest, text[0] == CR);
      assert [text[0]] + rest == text && ([text[0]] + w)[1..] == w;
      LoneLfStep(text, afterCr);
      hide HasLoneLf;
    }
  }

  /** A record made in a CRLF checkout is taken by a binary built from the text as committed,
      whatever the text: it is the embedded one or it is forgiven. It never mixes endings. */
  lemma CrlfCheckoutIsTaken(text: seq<byte>)
    ensures Worktree(text, false) == text || Forgiven(text, Worktree(text, false))
    ensures !HasLoneLf(Worktree(text, false), false)
  {
    hide Worktree, ToLf, ToCrlf, HasLoneLf;
    var made := Worktree(text, false);
    WorktreeIsCrlfOfLf(text);
    BackToLf(ToLf(text));
    WorktreeIsCrlfOfLf(made);
    WorktreeKeepsIff(made, false);
  }

  /** A text that differs from the embedded one in line endings alone is taken exactly when it is
      that text or does not mix the two endings. */
  lemma SameTextIsTakenIff(sql: seq<byte>, recorded: seq<byte>)
    requires ToLf(sql) == ToLf(recorded)
    ensures recorded == sql || Forgiven(sql, recorded) <==>
      recorded == sql || !HasCrlf(recorded) || !HasLoneLf(recorded, false)
  {
    hide ToLf, ToCrlf, HasCrlf, HasLoneLf;
    LfKeepsIff(recorded);
    WorktreeIsCrlfOfLf(recorded);
    WorktreeKeepsIff(recorded, false);
  }

  /** One CRLF and one LF alone: neither form of the text, so refused. */
  lemma MixedRecordIsRefused(c: byte)
    requires c != CR && c != LF
    ensures var sql: seq<byte>, mixed: seq<byte> := [c, LF, c, LF], [c, CR, LF, c, LF];
      ToLf(sql) == ToLf(mixed) && mixed != sql && !Forgiven(sql, mixed)
  {
    var sql: seq<byte>, mixed: seq<byte> := [c, LF, c, LF], [c, CR, LF, c, LF];
    LfStep(sql);
    LfStep(sql[1..]);
    LfStep(sql[2..]);
    LfStep(sql[3..]);
    LfStep(mixed);
    LfStep(mixed[1..]);
    hide Replace, ToLf, ToCrlf;
    assert mixed[1..][2..] == sql[2..] && sql[1..][1..] == sql[2..] && sql[2..][1..] == sql[3..];
    SameTextIsTakenIff(sql, mixed);
    assert CrlfAt(mixed, 1) && LoneLfAt(mixed, false, 4);
  }

  /** A binary built in a CRLF checkout takes a record of the committed text, unless that text
      mixes the two endings. */
  lemma LfRecordIsTaken(text: seq<byte>)
    ensures text == ToCrlf(text) || Forgiven(ToCrlf(text), text)
    ensures text == Worktree(text, false) || Forgiven(Worktree(text, false), text) <==>
      !HasCrlf(text) || !HasLoneLf(text, false)
  {
    BackToLf(text);
    WorktreeIsCrlfOfLf(text);
    BackToLf(ToLf(text));
    SameTextIsTakenIff(Worktree(text, false), text);
    WorktreeKeepsIff(text, false);
  }

  // ----- the daemon

  /** `embedded` is the SQL of the up migrations by version. */
  function RealignedFor(hash: seq<byte> -> Hash, embedded: map<Version, seq<byte>>, v: Version, recorded: Hash): Option<Hash> {
    if v in embedded then RealignedChecksum(hash, embedded[v], hash(embedded[v]), recorded) else None
  }

  function AfterRealign(hash: seq<byte> -> Hash, embedded: map<Version, seq<byte>>, v: Version, recorded: Hash): Hash {
    match RealignedFor(hash, embedded, v, recorded)
    case Some(checksum) => checksum
    case None => recorded
  }

  function Realigned(hash: seq<byte> -> Hash, embedded: map<Version, seq<byte>>, t: map<Version, Hash>): map<Version, Hash> {
    map v | v in t :: AfterRealign(hash, embedded, v, t[v])
  }

  /** The rows as a query returns them, each once. */
  ghost predicate Lists(rows: seq<(Version, Hash)>, t: map<Version, Hash>) {
    && (forall i :: 0 <= i < |rows| ==> rows[i].0 in t && t[rows[i].0] == rows[i].1)
    && (forall v :: v in t ==> exists i :: 0 <= i < |rows| && rows[i].0 == v)
    && (forall i, j :: 0 <= i < j < |rows| ==> rows[i].0 != rows[j].0)
  }

  lemma AfterIs(hash: seq<byte> -> Hash, embedded: map<Version, seq<byte>>, v: Version, recorded: Hash)
    ensures AfterRealign(hash, embedded, v, recorded)
            == var r := RealignedFor(hash, embedded, v, recorded); if r.Some? then r.value else recorded
  {
  }

  class Migrations {
    var checksums: map<Version, Hash>

    /** Sets the checksum of a version, unless the row no longer holds what was read. */
    method UpdateWhere(v: Version, recorded: Hash, checksum: Hash)
      modifies this
      ensures checksums == if v in old(checksums) && old(checksums)[v] == recorded then old(checksums)[v := checksum]
                           else old(checksums)
    {
      if v in checksums && checksums[v] == recorded {
        checksums := checksums[v := checksum];
      }
    }

    method Realign(hash: seq<byte> -> Hash, embedded: map<Version, seq<byte>>, rows: seq<(Version, Hash)>)
      requires Lists(rows, checksums)
      modifies this
      ensures checksums == Realigned(hash, embedded, old(checksums))
    {
      hide RealignedFor, AfterRealign;
      for i := 0 to |rows|
        invariant checksums.Keys == old(checksums).Keys
        invariant forall k :: 0 <= k < i ==> checksums[rows[k].0] == AfterRealign(hash, embedded, rows[k].0, rows[k].1)
        invariant forall k :: i <= k < |rows| ==> checksums[rows[k].0] == rows[k].1
      {
        var realigned := RealignedFor(hash, embedded, rows[i].0, rows[i].1);
        AfterIs(hash, embedded, rows[i].0, rows[i].1);
        if realigned.Some? {
          UpdateWhere(rows[i].0, rows[i].1, realigned.value);
        }
      }
      assert forall v :: v in checksums ==> exists k :: 0 <= k < |rows| && rows[k].0 == v;
    }
  }

  /** A second start finds nothing to realign. */
  lemma SecondPassFindsNothing(hash: seq<byte> -> Hash, embedded: map<Version, seq<byte>>, t: map<Version, Hash>)
    ensures forall v :: v in t ==> RealignedFor(hash, embedded, v, Realigned(hash, embedded, t)[v]).None?
    ensures Realigned(hash, embedded, Realigned(hash, embedded, t)) == Realigned(hash, embedded, t)
  {
    hide Replace, ToLf, ToCrlf;
    var once := Realigned(hash, embedded, t);
    assert forall v :: v in t ==> RealignedFor(hash, embedded, v, once[v]).None?;
    assert Realigned(hash, embedded, once) == once;
  }

  // ----- daemons at once

  /** One conditional update, on a row as it was read at some earlier moment. */
  datatype Update = Update(version: Version, read: Hash)

  function Apply(hash: seq<byte> -> Hash, embedded: map<Version, seq<byte>>, t: map<Version, Hash>, u: Update): map<Version, Hash> {
    match RealignedFor(hash, embedded, u.version, u.read)
    case None => t
    case Some(checksum) => if u.version in t && t[u.version] == u.read then t[u.version := checksum] else t
  }

  function ApplyAll(hash: seq<byte> -> Hash, embedded: map<Version, seq<byte>>, t: map<Version, Hash>, us: seq<Update>): map<Version, Hash> {
    if us == [] then t else ApplyAll(hash, embedded, Apply(hash, embedded, t, us[0]), us[1..])
  }

  /** What a reader of `t`, or of any later state of it, can have read. */
  ghost predicate ReadFrom(hash: seq<byte> -> Hash, embedded: map<Version, seq<byte>>, t: map<Version, Hash>, u: Update) {
    u.version in t && (u.read == t[u.version] || u.read == AfterRealign(hash, embedded, u.version, t[u.version]))
  }

  /** How often the updates of version `v` change its row. */
  function Changes(hash: seq<byte> -> Hash, embedded: map<Version, seq<byte>>, t: map<Version, Hash>, us: seq<Update>, v: Version): nat
    requires v in t
  {
    if us == [] then 0
    else
      var next := Apply(hash, embedded, t, us[0]);
      (if next[v] != t[v] then 1 else 0) + Changes(hash, embedded, next, us[1..], v)
  }

  /** `t` is `t0` with some rows realigned. */
  ghost predicate Between(hash: seq<byte> -> Hash, embedded: map<Version, seq<byte>>, t0: map<Version, Hash>, t: map<Version, Hash>) {
    t.Keys == t0.Keys && forall v :: v in t0 ==> t[v] == t0[v] || t[v] == AfterRealign(hash, embedded, v, t0[v])
  }

  lemma {:induction false} StillOnce(hash: seq<byte> -> Hash, embedded: map<Version, seq<byte>>, t0: map<Version, Hash>,
                                     t: map<Version, Hash>, us: seq<Update>, v: Version)
    requires v in t0 && Between(hash, embedded, t0, t)
    requires forall i :: 0 <= i < |us| ==> ReadFrom(hash, embedded, t0, us[i])
    ensures v in ApplyAll(hash, embedded, t, us)
    ensures ApplyAll(hash, embedded, t, us)[v] ==
            if Update(v, t0[v]) in us then AfterRealign(hash, embedded, v, t0[v]) else t[v]
    ensures Changes(hash, embedded, t, us, v)
            == if Update(v, t0[v]) in us && t[v] != AfterRealign(hash, embedded, v, t0[v]) then 1 else 0
  {
    hide RealignedFor;
    if us != [] {
      var u, rest := us[0], us[1..];
      assert ReadFrom(hash, embedded, t0, u);
      AfterIsFinal(hash, embedded, u.version, t0[u.version]);
      AfterIsFinal(hash, embedded, v, t0[v]);
      StillOnce(hash, embedded, t0, Apply(hash, embedded, t, u), rest, v);
      assert Update(v, t0[v]) in us <==> Update(v, t0[v]) == u || Update(v, t0[v]) in rest;
    }
  }

  /** However many daemons of one binary interleave their updates, a row is changed once, to what
      one daemon alone makes of it; with nothing to realign it is never changed. */
  lemma DaemonsRealignOnce(hash: seq<byte> -> Hash, embedded: map<Version, seq<byte>>, t: map<Version, Hash>, us: seq<Update>, v: Version)
    requires v in t && forall i :: 0 <= i < |us| ==> ReadFrom(hash, embedded, t, us[i])
    ensures v in ApplyAll(hash, embedded, t, us)
    ensures ApplyAll(hash, embedded, t, us)[v] ==
            if Update(v, t[v]) in us then Realigned(hash, embedded, t)[v] else t[v]
    ensures Changes(hash, embedded, t, us, v)
            == if Update(v, t[v]) in us && RealignedFor(hash, embedded, v, t[v]).Some? then 1 else 0
  {
    hide RealignedFor;
    AfterIsFinal(hash, embedded, v, t[v]);
    StillOnce(hash, embedded, t, t, us, v);
  }

  lemma AfterIsFinal(hash: seq<byte> -> Hash, embedded: map<Version, seq<byte>>, v: Version, recorded: Hash)
    ensures RealignedFor(hash, embedded, v, AfterRealign(hash, embedded, v, recorded)).None?
    ensures RealignedFor(hash, embedded, v, recorded).Some? ==> AfterRealign(hash, embedded, v, recorded) != recorded
  {
    hide Replace, ToLf, ToCrlf;
  }

  // ----- the script

  datatype Verdict = Nothing | LineEndingsOnly(checksum: Hash) | ContentDiff

  function ClassifyVersion(hash: seq<byte> -> Hash, files: map<Version, seq<byte>>, v: Version, recorded: Hash): Verdict {
    if v !in files then Nothing
    else
      var data := files[v];
      var lf := hash(Replace(data, CRLF, [LF]));
      var crlf := hash(Replace(Replace(data, CRLF, [LF]), [LF], CRLF));
      var asIs := hash(data);
      if recorded == asIs then Nothing
      else if recorded == lf || recorded == crlf || recorded == asIs then LineEndingsOnly(asIs)
      else ContentDiff
  }

  /** The script and the daemon forgive the same records, and put the same checksum. */
  lemma ScriptForgivesAlike(hash: seq<byte> -> Hash, files: map<Version, seq<byte>>, v: Version, recorded: Hash)
    ensures forall c :: ClassifyVersion(hash, files, v, recorded) == LineEndingsOnly(c)
                        <==> RealignedFor(hash, files, v, recorded) == Some(c)
    ensures ClassifyVersion(hash, files, v, recorded) == ContentDiff
            <==> v in files && recorded != hash(files[v]) && RealignedFor(hash, files, v, recorded).None?
  {
  }

  ghost predicate Refused(hash: seq<byte> -> Hash, files: map<Version, seq<byte>>, t: map<Version, Hash>, v: Version) {
    v in t && ClassifyVersion(hash, files, v, t[v]).ContentDiff?
  }

  ghost predicate ToUpdate(hash: seq<byte> -> Hash, files: map<Version, seq<byte>>, t: map<Version, Hash>, u: (Version, Hash)) {
    u.0 in t && ClassifyVersion(hash, files, u.0, t[u.0]) == LineEndingsOnly(u.1)
  }

  method Classify(hash: seq<byte> -> Hash, files: map<Version, seq<byte>>, rows: seq<(Version, Hash)>, ghost t: map<Version, Hash>)
    returns (updates: seq<(Version, Hash)>, contentDiffs: seq<Version>)
    requires Lists(rows, t)
    ensures forall u :: u in updates <==> ToUpdate(hash, files, t, u)
    ensures forall v :: v in contentDiffs <==> Refused(hash, files, t, v)
  {
    hide ClassifyVersion;
    updates, contentDiffs := [], [];
    ghost var seen: set<Version> := {};
    for k := 0 to |rows|
      invariant forall v :: v in seen <==> exists i :: 0 <= i < k && rows[i].0 == v
      invariant forall u :: u in updates <==> u.0 in seen && ToUpdate(hash, files, t, u)
      invariant forall v :: v in contentDiffs <==> v in seen && Refused(hash, files, t, v)
    {
      var v := rows[k].0;
      match ClassifyVersion(hash, files, v, rows[k].1) {
        case Nothing =>
        case LineEndingsOnly(checksum) => updates := updates + [(v, checksum)];
        case ContentDiff => contentDiffs := contentDiffs + [v];
      }
      seen := seen + {v};
    }
    assert forall v :: v in t ==> v in seen;
  }

  /** Sets the checksum of each listed version, in one transaction. */
  method ApplyUpdates(table: Migrations, updates: seq<(Version, Hash)>)
    requires forall u :: u in updates ==> u.0 in table.checksums
    requires forall u, w :: u in updates && w in updates && u.0 == w.0 ==> u == w
    modifies table
    ensures table.checksums.Keys == old(table.checksums).Keys
    ensures forall u :: u in updates ==> table.checksums[u.0] == u.1
    ensures forall v :: v in table.checksums && (forall u :: u in updates ==> u.0 != v) ==>
      table.checksums[v] == old(table.checksums)[v]
  {
    for k := 0 to |updates|
      invariant table.checksums.Keys == old(table.checksums).Keys
      invariant forall j :: 0 <= j < k ==> table.checksums[updates[j].0] == updates[j].1
      invariant forall v :: v in table.checksums && (forall j :: 0 <= j < k ==> updates[j].0 != v) ==>
        table.checksums[v] == old(table.checksums)[v]
    {
      var u := updates[k];
      assert forall j :: 0 <= j < k && updates[j].0 == u.0 ==> updates[j] == u;
      table.checksums := table.checksums[u.0 := u.1];
    }
  }

  /** The script with `--apply`: one content difference and no row is written; otherwise the rows
      become what the daemon makes of them. */
  method RunScript(hash: seq<byte> -> Hash, files: map<Version, seq<byte>>, table: Migrations, rows: seq<(Version, Hash)>)
    returns (code: nat)
    requires Lists(rows, table.checksums)
    modifies table
    ensures code == if exists v :: Refused(hash, files, old(table.checksums), v) then 2 else 0
    ensures table.checksums == if code == 2 then old(table.checksums) else Realigned(hash, files, old(table.checksums))
  {
    hide ClassifyVersion, RealignedFor;
    ghost var was := table.checksums;
    var updates, contentDiffs := Classify(hash, files, rows, was);
    if contentDiffs != [] {
      assert contentDiffs[0] in contentDiffs;
      assert Refused(hash, files, was, contentDiffs[0]);
      return 2;
    }
    assert forall v :: !Refused(hash, files, was, v);
    if updates != [] {
      ApplyUpdates(table, updates);
    }
    forall v | v in was ensures table.checksums[v] == AfterRealign(hash, files, v, was[v]) {
      ScriptForgivesAlike(hash, files, v, was[v]);
      if RealignedFor(hash, files, v, was[v]).Some? {
        assert (v, RealignedFor(hash, files, v, was[v]).value) in updates;
      }
    }
    assert table.checksums == Realigned(hash, files, was);
    code := 0;
  }
}
