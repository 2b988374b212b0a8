# Verified models of memory-industry

Dafny models of the parts of memory-industry whose correctness is a statement about every input or
every run: merging duplicate entities, the client side of the graph engine, the LAN responder's rate
limiter, the pairing of devices to accounts, and a handful of codecs and clocks. Each model has the
form of the code it follows: code that updates tables, maps, queues and buffers is a method or a
class, proved against a function of its inputs or of its old state; what that function means is
proved in lemmas beside it.

`dafny verify dfyconfig.toml` checks everything.

| files | what they model |
|---|---|
| `Connectivity`, `Grouping` | pairs judged to be the same entity, united by relabelling, and the groups that come out |
| `Merging` | the statements of one merge over the relational tables, in one transaction |
| `Planning`, `Execution`, `Dedupe` | the groups of a run, the plan they amount to, what executing it leaves, and the run end to end |
| `Resp`, `RespGrammar`, `RespWire` | the RESP parser, the grammar it accepts, the loop that feeds it from a socket, the printer of commands |
| `GraphSearch`, `GraphWalk` | a reference breadth-first search and the two walks that refine it |
| `Beacon` | the rate limiter and the history it stands for |
| `Pairing`, `PairingRuns`, `PairingPurge`, `AccountsDb` | the account tables, runs of interleaved transactions, what a purge leaves of a run, and the methods that change rows |
| `Transcript`, `Bearer`, `PairingCode` | what the MACs cover, the credential text, the pairing code |
| `Base64`, `MachineWord`, `LineEndings`, `Clocks` | Base64, the 32-bit word it shifts and masks, checksum realignment in the daemon and in the script, last writer wins |
| `Wrappers`, `Bytes`, `Text`, `Sets` | shared vocabulary |

## How the models read the code

**Deduplication.** An `Entity` carries an id, a name and an observation count; rows with one id are
one row, since every pair is cloned out of one table. The groups of a grouping are compared with
the connected components of the graph its pairs span, a definition by paths that knows nothing of
labels or slots. A run is compared with a graph quotient: each entity is sent to the survivor at the
end of its chain of merges. Two facts about the code show in the statements.

- `DELETE ... WHERE from_entity = to_entity` names no entity, so any merge removes every self-loop in
  the graph. The final edges are the quotient exactly when at least one merge ran, or the graph had
  no self-loop to begin with.
- The error of the alias `UPDATE` is dropped with `.ok()`, but PostgreSQL has by then aborted the
  transaction: the `DELETE` that follows fails and the whole merge is rolled back. A merge therefore
  goes through exactly when no alias of the loser is the loser's own name or an alias of the winner.
  `AllFitIffNamesApart` says which plans run to their end; `NamesakeRunStops` is an input whose run
  does not, over a store with no aliases at all: three entities, two of one name in different
  projects, and a judge that calls the richer namesake the same as the third.

**Graph walks.** The neighbour query is an arbitrary function from a node to a list of edges, or to
a failure. `Search` expands one node at a time in the order found; both the queue walk and the layer
walk are proved equal to it, so they share its properties: exact distances, nothing nearer left out,
one order whatever the cap. `explain_falkor` compares `out.len() >= limit` after a push, so a run
with limit 0, which its caller allows, still returns one hop (`LimitZeroKeepsOne`). `LimitObeyedIff`
says when a run keeps to its limit: exactly when it is not 0, or the effect has no causal edge but
to itself.

**RESP.** The parser trusts the two bytes after a bulk string, and so does the model. The reader
judges the size of its buffer before it parses, and a read brings up to 8192 bytes, some of which
may belong to what comes after the reply. A reply is therefore read as itself on every stream that
starts with it exactly when it leaves 8191 bytes of `RESP_MAX` free (`ReadAsItselfIff`);
`OneByteMoreDecides` is one stream that two ways of cutting it read two ways. When the whole stream
fits `RESP_MAX` the cuts never matter.

**Rate limiter.** The class keeps a ghost history of every answer. `Valid` ties the queues to it, and
`Allow` answers by the history alone. Instants are nanoseconds of a clock that never runs back.

**Pairing.** A run interleaves any number of clients. Every transaction is one step, except that an
issue is three (finding the account, counting the codes and the insert share no transaction, and
all go by the instant the issue began at) and a claim is two: the statement's snapshot, then its row
lock with the re-check. Revoking an account is one step because its `FOR UPDATE` on the account row
and the foreign-key lock of a claim's insert exclude each other. Three things the source says in
passing hold under a condition.

- The limit of 50 active codes holds when issues do not overlap. With k between their count and
  their insert the bound is 49 + k, and it is exact: `BoundAttained` builds, for every k, a run from
  empty tables that reaches it.
- The comment on `revoke_account` says a repeat changes nothing. Accounts and credentials it never
  changes, but an issue that found the account open may store its code after the revocation, and a
  repeat then deletes that code (`LateCodeIsDeleted`). A repeat changes nothing exactly when the
  account has no unused code (`RevokeTwice`), and that is so ever after when no issue for it was
  under way as it was revoked (`RepeatChangesNothing`).
- A purge changes nothing in the rest of a run as long as no claim in flight is as old as what it
  takes, seven days (`PurgeInvisible`); a claim stalled that long can see it
  (`StalledClaimSeesPurge`).

**Transcripts.** A field's length is written saturated to a `u32`, so decoding gives the fields back
exactly when each is shorter than 2^32 bytes; past that, `LongFieldsCollide` is a family of pairs of
field lists with one transcript.

**Checksums.** A checkout in CRLF gives a CR to each LF that has none before it, and that is the
text brought to LF and then to CRLF (`WorktreeIsCrlfOfLf`). So a record made in such a checkout is
always taken by a binary built from the text as committed, whatever that text holds. Of the records
that differ from the embedded text in line endings alone, the rule refuses exactly those that mix
CRLF with a lone LF (`SameTextIsTakenIff`, `MixedRecordIsRefused`); a checkout that converts makes
none. The script decides alike version by version, but one content difference stops it from writing
any row, where the daemon skips that row and goes on.

## Model

| member | source | states |
|---|---|---|
| Grouping.UniteByRelabelling | rust/src/dedupe_cli.rs:422-449 | after any list of pairs two ids carry one label exactly when they are connected, and slot `i` holds exactly the entities labelled `i`, through every union and with the emptied slots left behind |
| Grouping.UniteSlots | rust/src/dedupe_cli.rs:440-446 | one relabelling union merges exactly the two classes of its ends and keeps map and slots in step, losing and duplicating nobody |
| Grouping.ContradictedIffContradictory | rust/src/dedupe_cli.rs:458-467 | the ordered-key scan of a sorted group finds a contradiction exactly when some two members are in `different` in either order |
| Grouping.CollectGroups | rust/src/dedupe_cli.rs:451-481 | each occupied slot becomes one group or one refusal, decided by its contradiction, and none twice |
| Grouping.GroupsWithoutContradictions | rust/src/dedupe_cli.rs:418-482 | a group is returned exactly when it lists, winner first, a connected component with no `different` pair; the rejected lists are exactly the names of the other components; no group and no refusal twice |
| Grouping.ComponentsPartition | rust/src/dedupe_cli.rs:418-482 | components are equal or disjoint, as connectivity says |
| Grouping.ReturnedGroups | rust/src/dedupe_cli.rs:454-478 | no entity is in two returned groups, and the winner has the most observations, then the smallest id |
| Grouping.RefusedGroups | rust/src/dedupe_cli.rs:454-479 | no entity is in two refused lists, nor in a refused and a returned one |
| Grouping.NoneLost | rust/src/dedupe_cli.rs:454-481 | every entity of the pairs is in a returned group or in a refused one, by whether its component is contradictory |
| Grouping.GroupingIgnoresOrder | rust/src/dedupe_cli.rs:418-482 | permuting or repeating the pairs, or swapping the sides of any, changes neither the groups (winner and loser sequence included) nor the refusals |
| Merging.RedirectKeepsKeysUnique | rust/src/dedupe_cli.rs:355-372 | the (from, to, type) key is unique after any subset of the rows of either guarded UPDATE has been rewritten, so at every moment of the statement |
| Merging.MergedTriples | rust/src/dedupe_cli.rs:355-382 | both UPDATEs and both DELETEs leave exactly the triples with the loser replaced by the winner, less the self-loops |
| Merging.StatementsMerge | rust/src/dedupe_cli.rs:331-416 | the statements of a merge, cascades included, amount to the quotient by loser-to-winner on edges, observations, episodes, facts and aliases, with only the loser's row gone |
| Merging.StatementsKeepValid | rust/src/dedupe_cli.rs:331-416 | after a merge every reference resolves and every edge key is unique |
| Merging.ClashSeen | rust/src/dedupe_cli.rs:390-406 | the alias UPDATE hits the unique key exactly when the loser and the winner, after the insert, share a text |
| Merging.Store.MergeEntity | rust/src/dedupe_cli.rs:331-416 | the merge succeeds exactly when no alias clashes; then the tables are those of the statements in order, otherwise they are as before |
| Merging.QuotientCompose | rust/src/dedupe_cli.rs:253-265 | quotients compose: one after the other is the quotient by the composed map |
| Planning.ExactGroups | rust/src/dedupe_cli.rs:138-154 | the exact groups are, once each, the classes of two or more entities with one normalized name, sorted, winner first |
| Planning.RunPlanWellFormed | rust/src/dedupe_cli.rs:138-203 | over exact groups followed by judged groups, nobody is absorbed twice and nobody is merged into after being absorbed, while an exact winner may still be absorbed |
| Planning.ProperGroups | rust/src/dedupe_cli.rs:225-265 | no merge of a run is an entity into itself |
| Execution.ApplyPlan | rust/src/dedupe_cli.rs:251-265 | the two nested loops execute the plan in order up to the first merge that fails, and stop exactly there |
| Execution.FinalSurvives | rust/src/dedupe_cli.rs:253-265 | the end of every chain of merges is an entity that is not absorbed |
| Execution.RunIsQuotient | rust/src/dedupe_cli.rs:253-265 | the final triples are exactly {(s(f), s(t), k) : (f, t, k) an edge, s(f) != s(t)}, s the composed map, if and only if the plan is not empty or there was no self-loop |
| Execution.RunLeavesSurvivors | rust/src/dedupe_cli.rs:253-265 | the remaining entities are those not absorbed; observations are conserved row by row and each moves to its survivor; alias rows follow the chain |
| Execution.AliasesFollowChains | rust/src/dedupe_cli.rs:390-406 | after a whole plan the alias rows are the old ones and the absorbed names, each at its survivor |
| Execution.AllFitIffNamesApart | rust/src/dedupe_cli.rs:390-412 | every merge of a plan succeeds if and only if, at each, the names carried so far to its two sides are apart: a condition on the aliases and the plan before the run |
| Dedupe.NamesakeRunStops | rust/src/dedupe_cli.rs:138-265 | an input on which every decision is one plan, and that plan does not run to its end over a store without aliases: namesakes of two projects merged, their winner then absorbed |
| Execution.WentThrough | rust/src/dedupe_cli.rs:253-265 | a run stops before its last merge exactly when the names are not apart |
| Dedupe.LikelyPairs | rust/src/dedupe_cli.rs:176-203 | the candidates are the similar pairs of known entities with different normalized names, neither absorbed by an exact group |
| Dedupe.Verdicts | rust/src/dedupe_cli.rs:633-708 | a candidate judged Same with enough confidence is in `same`, in one of its two orders, and `same` holds nothing else and puts a side with at least as many observations first; `different` holds a pair of ids, in one order of the two, exactly when it was judged and not called the same; an unanswered or unsure pair is in neither |
| Dedupe.Assemble | rust/src/dedupe_cli.rs:138-233 | the groups of a run are exactly the exact ones, then, when the judge is asked, exactly the contradiction-free components of what it called the same, none twice |
| Dedupe.CalledSameStayTogether | rust/src/dedupe_cli.rs:192-233 | when the judge is asked, two entities it calls the same are in one agreed group, or in none and refused together |
| Dedupe.CalledDifferentStayApart | rust/src/dedupe_cli.rs:192-233 | no agreed group holds both sides of a pair it does not call the same |
| Dedupe.DecisionIsDetermined | rust/src/dedupe_cli.rs:138-233 | two decisions on one input hold the same groups, winners and loser sequences: no order of rows, map iteration or verdicts shows |
| Dedupe.DecidedPlan | rust/src/dedupe_cli.rs:138-265 | whatever the judge says, the plan decided is well formed over known entities |
| Dedupe.Run | rust/src/dedupe_cli.rs:138-265 | end to end, from any entities, candidates and judge: the groups are those decided, a dry run writes nothing, the store is the plan's effect up to the merges done and the quotient of the old one by them, and all are done exactly when the names are apart |
| Resp.FindCrlf | rust/src/graph_db.rs:222-227 | the first CRLF at or after the start, or none |
| Resp.ParseResp | rust/src/graph_db.rs:166-220 | the parser with its cursor and item loop computes the recursive reading of the buffer, error cases included |
| Resp.ParseStable | rust/src/graph_db.rs:166-220 | a buffer that agrees with an accepted one on the bytes consumed parses to the same value and length |
| Resp.PrefixStable | rust/src/graph_db.rs:166-220 | if `x` parses using n bytes, then x[..n] followed by anything parses to the same value using n, and every strict prefix of x[..n] is rejected |
| RespGrammar.ParseIntIff | rust/src/graph_db.rs:177-208 | the integers read are exactly an optional sign and digits whose value fits 64 bits |
| RespGrammar.Utf8Iff | rust/src/graph_db.rs:173-190 | text is exactly what some string of characters encodes to, by section 3 of RFC 3629 |
| RespGrammar.ParsesIffSpells | rust/src/graph_db.rs:166-220 | the parser takes a value off the front of a buffer, using n bytes, if and only if those n bytes spell that value in the grammar of replies, nested arrays and nil included |
| RespGrammar.NoHeaderRefused | rust/src/graph_db.rs:166-171 | an empty buffer, an unknown tag and a line that does not end are refused as such |
| RespGrammar.HeaderRefused | rust/src/graph_db.rs:173-200 | a line that is not text, a length or number that is no integer, and a string that has not all come are refused as such |
| RespWire.ReadResp | rust/src/graph_db.rs:229-250 | the loop returns what the growing buffer first parses to, or the read error, the close or the size limit, whichever comes first |
| RespWire.ReadsReply | rust/src/graph_db.rs:229-250 | on a stream that starts with a reply the value is that reply exactly when the chunk that completes it keeps the buffer within `RESP_MAX`, and otherwise it is too large |
| RespWire.ReadDecided | rust/src/graph_db.rs:229-250 | the outcome on any chunks is decided by the joined bytes and the chunk boundary at which they first parse |
| RespWire.ReadBreaksOff | rust/src/graph_db.rs:229-238 | chunks followed by a failed read: what the chunks decide when that is a reply or too large, the read error otherwise; followed by an empty read: what the chunks decide; whatever would come behind is never read |
| RespWire.ReadIs | rust/src/graph_db.rs:229-250 | every stream is chunks and an end, and is read as the two of them say |
| RespWire.CutsDoNotMatter | rust/src/graph_db.rs:229-250 | when the whole stream is within `RESP_MAX` the outcome, reply or error, is the same however it is cut |
| RespWire.ReadAsItself | rust/src/graph_db.rs:229-250 | with reads of at most 8192 bytes, a reply of n bytes with n + 8191 <= `RESP_MAX` is returned whatever the cuts and whatever comes behind it |
| RespWire.ReadAsItselfIff | rust/src/graph_db.rs:229-250 | and those are exactly the replies returned on every stream that starts with them |
| RespWire.CutsDisagree | rust/src/graph_db.rs:239-248 | a reply within `RESP_MAX` that passes it together with what one read may bring behind it: the same stream is the reply when a read ends with it and too large when not |
| RespWire.OneByteMoreDecides | rust/src/graph_db.rs:239-248 | one such stream, with both outcomes |
| RespWire.RespArray | rust/src/graph_db.rs:151-158 | the printed command is the array header and the bulks in order |
| RespWire.DecimalParses | rust/src/graph_db.rs:143-155 | a printed length reads back as that length |
| RespWire.DecimalIs | rust/src/graph_db.rs:143-155 | a number is printed in decimal digits without leading zeros, in that one way |
| RespWire.RoundTrip | rust/src/graph_db.rs:143-220 | any list of byte strings, CRLF inside them included, printed, spells its array; followed by any bytes, it parses to exactly those bulks and consumes exactly the printed length |
| GraphSearch.SearchIsBreadthFirst | rust/src/graph_db.rs:680-732 | depths are exact distances within the limit, hops are ordered by depth and distinct, and a reachable node is left out only when the cap was reached and no kept hop is farther than it |
| GraphSearch.DepthsExact | rust/src/graph_db.rs:704-710 | each hop's depth is the length of a shortest walk to it |
| GraphSearch.NoneNearerLeftOut | rust/src/graph_db.rs:724-730 | below the cap everything within the depth is found; at the cap nothing left out is nearer than anything kept |
| GraphSearch.OrderOfDiscovery | rust/src/graph_db.rs:693-726 | each hop is the first edge, over the nodes in the order found and their edges in the order returned, that leads to a node not found before, and carries that edge's relation and strength |
| GraphSearch.ReachedAnswered | rust/src/graph_db.rs:693-700 | when a search that is not cut short succeeds, the query of every node nearer than the depth has succeeded |
| GraphSearch.SearchCap | rust/src/graph_db.rs:724-730 | a smaller cap gives a prefix of the hops, the same ones when it is not reached |
| GraphWalk.WalkFalkor | rust/src/graph_db.rs:680-733 | the queue walk returns at most 50 hops, with exact distances up to 5 and up to the depth asked for, or 1; everything that near, unless 50 nearer or as near are returned; in the order of discovery; it fails only when the query of a node nearer than that fails; each recorded path is a simple walk along returned edges, as long as its hop is deep |
| GraphWalk.ExplainLayer | rust/src/graph_db.rs:755-775 | one layer with its limit check advances the search by exactly the nodes of the layer |
| GraphWalk.ExplainFalkor | rust/src/graph_db.rs:742-782 | the layer walk returns the same of the causal edges, with the limit in place of 50, and 1 in place of 0, and fails only when the query of a node that near fails |
| GraphWalk.RelevantIs | rust/src/graph_db.rs:748 | the edges followed are those returned whose kind is causes, related_to or depends_on |
| GraphWalk.KeptSplits | rust/src/graph_db.rs:748 | they are kept one by one, in the order returned |
| GraphWalk.WalksAgree | rust/src/graph_db.rs:680-782 | over one filtered neighbour function both walks give the same hops, order and depths until either cap cuts in |
| GraphWalk.LimitObeyedIff | rust/src/graph_db.rs:764-773 | the hops number at most `limit` if and only if the limit is not 0 or the effect has no causal edge but to itself |
| GraphWalk.LimitZeroKeepsOne | rust/src/graph_db.rs:764-773 | with limit 0 and one causal edge, one hop is returned |
| Beacon.ForgetBefore | rust/src/beacon.rs:104-111 | pops exactly the leading instants that have left the window |
| Beacon.ForgottenCounts | rust/src/beacon.rs:104-111 | what a queue keeps stands for the full history: its length is the number of answers in the window |
| Beacon.Limiter.constructor | rust/src/beacon.rs:114-116 | starts empty, with the invariant |
| Beacon.Limiter.Sweep | rust/src/beacon.rs:132-135 | forgets in every queue and keeps exactly the entries that are not left empty |
| Beacon.Limiter.Allow | rust/src/beacon.rs:119-138 | true exactly when the full history holds fewer than 50 answers in the last second and fewer than 4 to the origin in the last ten; the answer is added to the history; the queues stay non-empty, at most 4 long, and at most 1024 |
| Beacon.PermitsIff | rust/src/beacon.rs:119-131 | an answer is allowed exactly when fewer than 50 were given in the last 1,000,000,000 ns and fewer than 4 to the origin in the last 10,000,000,000; over a paced history, exactly when one more leaves it paced |
| Beacon.LiveBounded | rust/src/beacon.rs:36-39 | at most 500 origins are live in any ten seconds, so a sweep leaves at most 500 |
| Beacon.PacedLonger | rust/src/beacon.rs:32-35 | a limit per window bounds n windows by n times the limit |
| Beacon.Respond | rust/src/beacon.rs:159-179 | over any run the answers are those of the rule read off the whole history, with no queue and no sweep |
| Beacon.RunPaced | rust/src/beacon.rs:32-35 | whatever is asked, no window of 1,000,000,000 ns holds more than 50 answers and none of 10,000,000,000 ns more than 4 to one origin, counted in the history itself |
| Pairing.RedeemableIffCreates | rust/src/accounts_db.rs:481-526 | `classify_candidate` says Redeemable exactly when a claim at that instant would create a credential |
| Pairing.UsedCodeAnswers | rust/src/accounts_db.rs:514-526 | a claim whose snapshot has the code used answers the same secret hash with the code's own credential while that is active, refuses everything else, and changes nothing, whatever the tables are at its lock |
| Pairing.ClaimTwice | rust/src/accounts_db.rs:501-526 | a claim repeated on the tables another left returns the credential just made and changes nothing, whatever the tables are at its lock |
| Pairing.CreationWrites | rust/src/accounts_db.rs:501-513 | a claim that creates gives the credential the label its code fixes, or else the client's, the code's account, the client's secret hash and the claim's instant; the code gets that instant and that credential; no other row changes |
| Pairing.CandidateStates | rust/src/accounts_db.rs:481-492 | Used, AccountRevoked and Redeemable say what they should of the row and its account, and Expired exactly that a claim could have created when the code was issued and is refused from now on |
| Pairing.CredentialStates | rust/src/accounts_db.rs:561-567 | a credential of a revoked account is reported as that whether or not it is revoked itself, and as Revoked exactly when only it is |
| Pairing.RevocationWrites | rust/src/accounts_db.rs:251-283 | a revocation stamps the account and its active credentials with its instant, deletes the account's unused codes, and leaves every other row and every earlier instant |
| Pairing.DeviceRevocationWrites | rust/src/accounts_db.rs:316-345 | revoking devices stamps those of them that are active and touches nothing else |
| Pairing.PurgeTakes | rust/src/accounts_db.rs:612-620 | a purge takes exactly the codes used more than seven days ago or issued more than eight days ago |
| Pairing.CandidatesAre | rust/src/accounts_db.rs:460-478 | the candidates are codes issued less than seven days ago, newest first and then by id, none twice, at most 200; one is missing only when 200 come before it |
| PairingPurge.PurgeInvisible | rust/src/accounts_db.rs:458-478 | whatever steps of a run follow, they can follow a purge as well, to the same accounts, credentials and creations, and the candidate query returns the same from then on; no claim in flight may be older than the retention |
| PairingPurge.ClaimsAlike | rust/src/accounts_db.rs:501-526 | a claim in flight creates with the purged codes or without them alike, and does the same to the rows that are left |
| PairingPurge.StalledClaimSeesPurge | rust/src/accounts_db.rs:612-620 | a run with a claim older than that, which creates if the code is there and is refused if it has been purged |
| PairingRuns.StepKeepsInv | rust/src/accounts_db.rs:160-620 | every step of every interleaving keeps the tables sound: a used code points at a credential of its own account, no two codes at one, revocations keep their instant |
| PairingRuns.RunKeepsInv | rust/src/accounts_db.rs:160-620 | so does every run; rows only gain revocations and uses, and codes are all that is ever deleted |
| PairingRuns.ClaimStillOpen | rust/src/accounts_db.rs:493-508 | a claim judged on an old snapshot that passes its re-check finds the account still open, although only the code row is re-checked |
| PairingRuns.ReplayIsGenuine | rust/src/accounts_db.rs:514-522 | a replayed credential is there, has the same secret hash, and is the one the code points at while the code is there, at the lock and not only in the snapshot |
| PairingRuns.BeatenClaimIsRefused | rust/src/accounts_db.rs:493-500 | a code claimable in the snapshot and not at the lock gives Refused, and no row changes |
| PairingRuns.LateClaimAnswered | rust/src/accounts_db.rs:514-526 | a claim in flight that saw the code used is refused or gets the code's own credential |
| PairingRuns.ClaimRetried | rust/src/accounts_db.rs:497-526 | after any number of steps of a run a later claim for a redeemed code makes nothing: it returns the credential first made when it has the secret, that is active and the code not purged, and is refused otherwise |
| PairingRuns.ExactlyOnce | rust/src/accounts_db.rs:493-526 | over every run a code creates at most one credential, which is never lost and is the one the code points at |
| PairingRuns.CodeGivesItsLabel | rust/src/accounts_db.rs:391-413 | over every run a stored code keeps its account, key, label and expiry 24 hours after its issue, and a credential made from it carries its account and, when it fixes one, its label |
| PairingRuns.RevokedForGood | rust/src/accounts_db.rs:298-303 | once revoked, an account stays revoked at its first instant and all its credentials, whenever made, are refused |
| PairingRuns.RevokeTwice | rust/src/accounts_db.rs:251-300 | in every reachable state a repeat leaves accounts and credentials as they are, and changes nothing at all if and only if the account has no unused code, as right after a revocation |
| PairingRuns.RepeatChangesNothing | rust/src/accounts_db.rs:298-300 | when no issue for the account is under way as it is revoked, a repeat any number of steps later changes nothing |
| PairingRuns.LateCodeIsDeleted | rust/src/accounts_db.rs:298-300 | a run from empty tables after which a repeat deletes a code |
| PairingRuns.ActiveMeansOpen | rust/src/accounts_db.rs:561-567 | a credential is reported active exactly when it is not revoked itself, for its account is then open |
| PairingRuns.ActiveBounded | rust/src/accounts_db.rs:360-413 | at most 49 + k codes are active in any run with at most k issues in flight: 50 when they do not overlap |
| PairingRuns.BoundAttained | rust/src/accounts_db.rs:360-413 | for every k > 0 some run from empty tables with at most k issues in flight reaches exactly 49 + k active codes |
| PairingRuns.OverlapOvershoots | rust/src/accounts_db.rs:423-430 | a run from empty tables with two overlapping issues passes the limit of 50 |
| AccountsDb.AccountsDb.AddAccount | rust/src/accounts_db.rs:160-183 | inserts unless the name is taken, and keeps names unique |
| AccountsDb.AccountsDb.RevokeRows | rust/src/accounts_db.rs:251-283 | the three statements are the revocation step; what they report is whether the account row changed, how many credential rows did, and how many codes are gone |
| AccountsDb.AccountsDb.RevokeAccount | rust/src/accounts_db.rs:301-313 | the account of that name is revoked, with the same report, or there is none and nothing changes |
| AccountsDb.AccountsDb.RevokeDevice | rust/src/accounts_db.rs:316-345 | exactly the active devices of the account with that label, without regard to case, are stamped, as in one step of a run; the count is that of the rows changed, and it is an error exactly when there are none |
| AccountsDb.AccountsDb.PrepareIssue | rust/src/accounts_db.rs:347-388 | which of the three refusals applies, in their order, or the account |
| AccountsDb.AccountsDb.StoreCode | rust/src/accounts_db.rs:391-413 | stores an unused code expiring 24 hours after its creation, or fails on a key |
| AccountsDb.AccountsDb.ClaimPairingCode | rust/src/accounts_db.rs:501-559 | the statement, alone, is the claim step |
| AccountsDb.AccountsDb.PurgePairingCodes | rust/src/accounts_db.rs:612-620 | deletes exactly the codes used or expired more than seven days ago, and says how many |
| Transcript.Put | rust/src/accounts.rs:267-271 | appends four bytes whose big-endian value is the length, saturated at 2^32 - 1, and then the bytes |
| Transcript.Enc | rust/src/accounts.rs:275-282 | the loop writes the frames of the domain and every field in order |
| Transcript.ReadBack | rust/src/accounts.rs:267-282 | a reader of lengths gets the fields back if and only if each is shorter than 2^32 bytes |
| Transcript.UniquelyDecodable | rust/src/accounts.rs:273-282 | equal transcripts of short fields have equal domains, field counts and fields |
| Transcript.LongFieldsCollide | rust/src/accounts.rs:268 | a field of 2^32 bytes or more can share its transcript with another list of fields |
| Transcript.CoveredReads | rust/src/accounts.rs:284-328 | a reader of lengths finds in each MAC input the name and version of its message and then its arguments, in order |
| Transcript.CoveredIsInjective | rust/src/accounts.rs:290-328 | the three MACs never cover the same bytes for different messages: kinds do not coincide and every argument shows |
| Transcript.CtEq | rust/src/accounts.rs:335-337 | the or of the xors is zero exactly when the bytes are equal |
| Text.SplitIff | rust/src/accounts.rs:256 | a text splits into given parts exactly when it is those parts joined and none holds the separator |
| Bearer.LowerHexIsCanonical | rust/src/accounts.rs:238-245 | a text is read as given bytes exactly when it is their one lowercase spelling |
| Bearer.HexIs | rust/src/accounts.rs:247-253 | hex is two of the sixteen lowercase digits a byte, the high one first |
| Bearer.ParseIffBearer | rust/src/accounts.rs:247-265 | `parse_bearer(s)` is an id and a secret if and only if `s` is `mi1.`, the hex of 16 bytes, a dot and the hex of 32: those bytes |
| Bearer.VerifyMac | rust/src/accounts.rs:330-332 | a presented MAC verifies exactly when it is the hex of the expected one |
| PairingCode.CodesAreNumbers | rust/src/accounts.rs:155-163 | the 12 symbols of a code are a bijection with the numbers of 60 bits: the low 60 of the random word |
| PairingCode.MintedShape | rust/src/accounts.rs:155-171 | a minted code is its twelve symbols in three groups of four with a dash between |
| PairingCode.NormalizedIffSpells | rust/src/accounts.rs:173-186 | `normalize_code` accepts exactly the texts that are a code with case changed and dashes or white space put in, and returns that code |
| PairingCode.SpacedIsTheCode | rust/src/accounts.rs:173-186 | a code with spaces, tabs and dashes put in anywhere is normalized to that code |
| PairingCode.SkippedIff | rust/src/accounts.rs:173-179 | the characters that make no difference, wherever they are put in whatever is typed, are exactly the dash and the 25 of the Unicode property White_Space |
| PairingCode.RefusedIff | rust/src/accounts.rs:179-185 | the first foreign symbol is reported whatever the length, and a wrong length only when there is none |
| PairingCode.RetypedCodeIsRecovered | rust/src/accounts.rs:155-186 | a minted code is accepted as minted, and a retyped one if and only if it is taken for the same 60 bits |
| Base64.EncodeBase64 | rust/src/db.rs:152-170 | the two loops write four characters for each chunk of three bytes |
| MachineWord.ShiftsAndMask | rust/src/db.rs:157-163 | in the 32-bit word of the padded group, the shifts and the mask take out the four six-bit fields of its bytes |
| MachineWord.WordIsGroup | rust/src/db.rs:157-159 | the padded bytes, put together in the word, write the number that reads them big-endian |
| MachineWord.SextetIsShiftAndMask | rust/src/db.rs:157-163 | for every chunk, the sextets the model computes with are what the shifts and the mask take out of the 32-bit word of its bytes |
| Base64.SextetsOfBytes | rust/src/db.rs:157-163 | the quotients and remainders of the padded group are the six-bit fields of its bytes, for chunks of one, two and three |
| Base64.DecodesIffEncoded | rust/src/db.rs:152-170 | a strict decoder of section 4 of RFC 4648 takes exactly the texts the encoder writes, each for the bytes it came from |
| Base64.LengthAndPadding | rust/src/db.rs:154-166 | the length is 4 * ceil(n / 3), and a character is padding exactly when it stands for a missing byte of the last chunk |
| LineEndings.BackToLf | rust/src/db.rs:560-561 | to-LF of to-CRLF is the identity on every text, with lone and doubled CRs |
| LineEndings.RealignedIffForgiven | rust/src/db.rs:552-566 | under an injective hash a record is forgiven exactly when its text is not the embedded one and is its LF or its CRLF form |
| LineEndings.WorktreeIsCrlfOfLf | rust/src/db.rs:552-561 | the text brought to LF and then to CRLF is the text with a CR before each LF that had none |
| LineEndings.CrlfCheckoutIsTaken | rust/src/db.rs:552-566 | a record made in a CRLF checkout is the embedded text or forgiven, for every text, and never mixes endings |
| LineEndings.SameTextIsTakenIff | rust/src/db.rs:552-566 | a record that differs from the embedded text in line endings alone is taken if and only if it is that text or does not mix CRLF with a lone LF |
| LineEndings.MixedRecordIsRefused | rust/src/db.rs:552-566 | one mixed record, refused |
| LineEndings.LfRecordIsTaken | rust/src/db.rs:552-566 | a binary built in a CRLF checkout takes a record of the committed text if and only if that text does not mix the two endings |
| LineEndings.Migrations.Realign | rust/src/db.rs:497-518 | the loop of conditional updates realigns exactly the forgiven rows |
| LineEndings.SecondPassFindsNothing | rust/src/db.rs:491-518 | after a pass no row is left to realign, and a second pass changes nothing |
| LineEndings.DaemonsRealignOnce | rust/src/db.rs:490-493 | however the updates of several daemons interleave, a forgiven row changes once, to what one daemon makes of it, and any other row never |
| LineEndings.ScriptForgivesAlike | scripts/realign-migration-checksums.py:70-85 | the script decides "update" on the same inputs as the daemon, with the same checksum, and "diff" on the mismatches that are left |
| LineEndings.Classify | scripts/realign-migration-checksums.py:88-97 | the two lists hold exactly the rows with those decisions |
| LineEndings.RunScript | scripts/realign-migration-checksums.py:100-154 | exit 2 and no write if and only if some row differs in content; otherwise the table becomes what the daemon makes of it |
| Clocks.HappensBeforeOrEqIsTotal | rust/src/crdt.rs:18-25 | every two clocks are ordered, both ways only when equal |
| Clocks.HappensBeforeOrEqIsTransitive | rust/src/crdt.rs:18-25 | the order is transitive |
| Clocks.OrderExtendsDominance | rust/src/crdt.rs:12-25 | the order is dominance, with equal counters of different actors decided by name |
| Clocks.PickIsTheOrder | rust/src/crdt.rs:35-56 | `pick_lww` takes the incoming write exactly when it is later in the order, and its Concurrent branch is never reached |
| Clocks.TakenIff | rust/src/crdt.rs:35-71 | the incoming write is taken exactly when its counter is higher, or equal and its actor goes on where the local one ends or has the greater character where they first differ; an observation is kept twice exactly on equal counters of different actors |
| Clocks.ConcurrentIffNeitherDominates | rust/src/crdt.rs:58-71 | both contents are kept exactly when neither clock dominates; otherwise the dominating one stays |
| Clocks.CurrentIsLatest | rust/src/crdt.rs:35-56 | a replica shows the maximum of the writes that reached it |
| Clocks.ReplicasConverge | rust/src/crdt.rs:35-56 | replicas the same writes reached, in any order, repetition and topology of merges, agree |
| Clocks.FoldsConverge | rust/src/crdt.rs:35-56 | folding the same set of writes in any order and with any repetition ends at the same clock |

## Left out

- SQL text, connections, sockets, HTTP and the clock: tables are maps and sets, transactions are steps, and the clock and the arriving chunks are inputs.
- SHA-256, SHA-384, HMAC and randomness: hashes are arbitrary functions, injective where a row says so; fresh ids are ids never issued before.
- The LLM judge, its prompts and the similarity query: arbitrary verdicts and candidate rows; an unreadable verdict counts as different, as in the code, and a low-confidence yes as neither.
- Planning.ExactGroups: the order of the exact groups (hash map iteration, then by total observations) is not fixed; every theorem about plans holds for any order.
- Grouping.GroupsWithoutContradictions: takes rows with one id to be one row, which `run_cli` guarantees by cloning from one table.
- Merging.Store.MergeEntity: tables outside the deduplication's own statements that reference entities are left out; an alias is an entity and a text, without its language.
- `merge_by_name` and the printed reports: the first is one merge of two loaded entities, the second have no state.
- Resp.ParseResp: `Vec::with_capacity` on a huge declared length and the width of `usize` in `start + len` are not modelled; positions are unbounded.
- LineEndings.CrlfCheckoutIsTaken: what Git leaves alone (a file it takes for binary, or one that already holds CRLF under `core.autocrlf`) is the committed text itself.
- RespWire.RoundTrip: parts are byte strings up to the largest `i64`, the length a header can be read back as.
- Path scores, `prune_paths` and PageRank: floating point, or an arbitrary selection of the recorded paths; strengths are reals that only travel.
- Reply tables (`table_rows`, `flatten_cell`) and Cypher text: formatting.
- Beacon.Respond: packets that are no request never reach the limiter and are not in its input; the packet predicates are left out.
- PairingRuns.StepKeepsInv: a claim goes by the instant of its snapshot; a step that would break a key is not taken.
- AccountsDb.AccountsDb.RevokeDevice: `lower` is an arbitrary function on labels; the validation of names and labels and the audit rows are left out.
- `touch_last_seen`, `fold_accounts` and the doctor's counts: they change or report nothing the protocol reads.
- PairingCode.CodesAreNumbers: shifts and masks of the `u64` are written as division and remainder.
- LineEndings.Classify: the version's file is a map lookup, in place of a glob that could match several; rows arrive as the query lists them, each version once.
- LineEndings.RunScript: runs with `--apply`; without it the same decision is only printed.
- LineEndings.DaemonsRealignOnce: daemons embed one set of migrations; each update is atomic and reads a value the row held since the start.
- `retry_on_catalog_race`, PBKDF2 and the SCRAM verifier: loops whose properties restate them.
- `ot_line_patch`, `clock_from_row`: single expressions over library calls.
