# claw-guard in Dafny

A model of the claw-guard authorization engine and proofs about it: field masking over JSON trees,
the policy compiler, evaluator and table with its cache, the batched audit log and its CSV export,
sessions, and the access decision that joins them.

`dafny verify dfyconfig.toml` checks everything.

## How the model is laid out

| file | what it holds |
|---|---|
| `Wrappers.dfy`, `Errors.dfy`, `Text.dfy`, `Words.dfy` | options and results, the error values and texts, string search, splitting, decimal numbers, 64-bit casts |
| `Glob.dfy` | the field-pattern matcher as its loop runs, a declarative glob, and exactly where the two agree |
| `Json.dfy`, `Masking.dfy` | JSON trees and positions; the masks, the traversal as a function, and the in-place traversal over mutable slots |
| `Redaction.dfy` | the declarative meaning of every list without digests, and of `Redact` and `JsonFieldMask` lists in particular |
| `TextEdits.dfy`, `Idempotence.dfy` | which lists of masks are idempotent, on strings and on trees, exactly |
| `Fusion.dfy` | when one pass with two lists is two passes, exactly |
| `MaskingLaws.dfy`, `Paths.dfy` | the frame and the termination measure; paths read back, and exactly for which keys |
| `Policy.dfy`, `PolicyOrder.dfy`, `Risk.dfy` | conditions and first match; dependence on the order of ties; the risk score, and exactly when raising it keeps denials |
| `PolicyParser.dfy` | the compiler from TOML values, its n-ary meaning, and a printer |
| `PolicyTable.dfy`, `PolicyEngine.dfy` | upsert and delete over any history; the engine object with its read-through cache |
| `CacheProtocol.dfy` | the cache under every interleaving of reader and writer steps |
| `AuditEntry.dfy`, `Audit.dfy`, `Csv.dfy` | the record, the queue and worker as a state machine and as an object, the CSV export and a decoder |
| `Session.dfy` | the session table, tokens, expiry, revocation, paging |
| `Guard.dfy` | one access check, and the audit accounting of any run of them |

Code that changes things in place is imperative here: the matcher, the masking traversal (over
`Slot` objects), the risk score, the evaluation scan, the policy engine, the audit worker, the CSV
export, the session manager and the guard are loops and classes, each proved against a function or
a state machine on values. The laws are lemmas about those functions and about all runs of those
state machines.

## What is taken from outside

- The database, the clocks, the local hour, fresh ids and the failure of any statement are inputs.
  A `SELECT` may answer with any listing that its `WHERE` and `ORDER BY` allow, so ties come in any
  order. A transaction commits whole or not at all.
- BLAKE3, the JSON printer, the UUID text form and the CSV number and time formats are function
  parameters. Parsing a UUID text undoes printing it; a formatted score holds no comma, quote or
  line feed.
- Signing and verifying a token are inverses; the tolerance of the JWT library on `exp` is a
  parameter, so the results hold for every tolerance.
- A generated policy id is one that no row holds; a session id that is taken makes the insert fail.
- The risk score is an exact real. Ids are numbers. Strings are sequences of characters.

## Where the code and a plain reading of it differ

The model follows the code; each point has a lemma.

- A field pattern is called glob-like. `*b` does not match `bb`: the last piece is placed at its
  leftmost occurrence and never retried, so a pattern with a star that ends in a literal accepts
  only its shortest matches (`Glob.AcceptsExactly`); `Glob.CompletePatterns` says which patterns
  lose nothing.
- Paths are text, so a key `a.b` or `a[0]` shares its path with the steps it spells
  (`Paths.HarmfulKeysCollide`), and a directive without a star can select two positions;
  `Paths.HarmlessExactly` says for which keys it cannot.
- A list of masks applied twice need not give what it gives once (`Idempotence.ListsAreNotIdempotent`);
  `Idempotence.MaskedTwiceExactly` and `Idempotence.ListsExactly` say when it does, for every list;
  `TextEdits.IdempotentExactly` reads the answer off the edits when there is no digest.
- A pass with two lists need not be two passes (`Fusion.FieldMasksDoNotFuse`, `Fusion.DigestsDoNotFuse`).
  It is unless the second list digests a container below which the first changes something
  (`Fusion.DigestsFuseExactly`), or a field mask of it hides a position where the first list makes a
  difference to the marker (`Fusion.FieldMasksFuseExactly`); `Fusion.AnyListsFuseExactly` covers
  every pair of lists.
- A higher risk score can turn a denial into an `Allow` (`Risk.WrongPolarityAllows`);
  `Risk.DenialsKeptExactly` and `Risk.TighterConfigExactly` say when it cannot.
- `add_policy_from_toml` returns the id it generated, which is not the stored one when the name was
  already there (`PolicyEngine.ReturnedIdIsStored`).
- The filled cache can outlive the rows it lists (`CacheProtocol.StaleRun`); `CacheProtocol.FreshExactly`
  says when it does not.
- Not every access check leaves an audit record: `Guard.RecordExactly` says which do, and
  `Guard.RecordsCounted` counts them over any run.
- `list_active_sessions` with limit 0 always announces a next page (`Session.ZeroLimitNeverEnds`).

## Model

| member | source | states |
|---|---|---|
| Glob.MatchesPattern | src/masking/mod.rs:130-156 | the loop over `remainder` and `first` decides acceptance by greedy leftmost placement, with its four early answers |
| Glob.StarStandsForAnything | src/masking/mod.rs:24-25 | in the declarative glob a leading star stands for any string |
| Glob.LeftmostIsEnough | src/masking/mod.rs:147-148 | between two stars, placing a literal at its leftmost occurrence neither loses nor invents a match |
| Glob.AcceptsExactly | src/masking/mod.rs:130-156 | for every pattern and value: accepted if and only if the glob matches and, for a pattern with a star that ends in a literal, no proper prefix of the value matches as well |
| Glob.AcceptsByPlacement | src/masking/mod.rs:146-155 | the same by placement: for such a pattern, unless it equals the value, the leftmost place left for the last piece already ends the value |
| Glob.ClosedMisses | src/masking/mod.rs:147-155 | every pattern with a star that ends in a literal refuses some value its glob matches |
| Glob.CompletePatterns | src/masking/mod.rs:130-156 | a pattern agrees with the glob on all values if and only if it has no star or ends in one |
| Glob.OnceIsEnough | src/masking/mod.rs:130-156 | any other pattern still agrees on every value that holds its last piece exactly once |
| Glob.StarFreeGlob | src/masking/mod.rs:131-133 | a pattern without a star accepts exactly itself |
| Masking.MaskEmailOf | src/masking/mod.rs:120-128 | first character of the local part (or a star) and the whole domain survive; text without an at sign is redacted |
| Masking.RedactNestedFields | src/masking/mod.rs:100-118 | the in-place search redacts the children under matching keys and only descends elsewhere |
| Masking.ApplyMaskTo | src/masking/mod.rs:72-98 | each mask in place, on strings only where the code looks at strings only |
| Masking.MasksPut | src/masking/mod.rs:72-98 | what each mask puts: the marker; the digest of a string's characters or of anything else's JSON text; the first n characters, or the masked address, of a string and of nothing else |
| Masking.ApplyRecursive | src/masking/mod.rs:46-70 | the in-place traversal, all directives at a node and then the children of the changed node, computes `Masked`, and ends because no mask makes a tree larger |
| Masking.Apply | src/masking/mod.rs:41-43 | the entry point masks from the root path |
| Masking.MaskHerePrunes | src/masking/mod.rs:47-51 | any directives at a node only replace subtrees by scalars |
| Redaction.MaskedIsRedaction | src/masking/mod.rs:46-118 | for every tree and list of `Redact` and `JsonFieldMask`: the traversal yields exactly the tree cut at the topmost positions whose path a `Redact` matches or whose key a field mask selected strictly above matches |
| Redaction.RedactionAt | src/masking/mod.rs:46-118 | position by position: nothing below a redacted position, the marker at a topmost one, the scalar or kind and keys kept everywhere else |
| Redaction.RedactingIsIdempotent | src/masking/mod.rs:46-118 | such a list applied twice gives what it gives once |
| Redaction.RedactingIgnoresOrder | src/masking/mod.rs:46-118 | its result depends only on which directives it holds |
| Redaction.HideOneMore | src/masking/mod.rs:100-118 | one more field mask over an already masked tree is the joint mask |
| MaskingLaws.MaskedIsNoLarger | src/masking/mod.rs:53-67 | no list of masks adds a node or a level |
| MaskingLaws.MaskedPrunes | src/masking/mod.rs:46-118 | a whole pass only replaces subtrees by scalars and changes scalars |
| MaskingLaws.Untouched | src/masking/mod.rs:46-70 | a position that no directive matches, at it or above, keeps its scalar, or its kind and keys or length |
| Redaction.MaskedScrubs | src/masking/mod.rs:46-118 | for every tree and list without digests: the same positions are cut, each topmost one holds what the directives at its path make of the marker, every other scalar goes through the directives at its path, every other container stays |
| TextEdits.IdempotentExactly | src/masking/mod.rs:72-91 | a list of redactions, truncations and e-mail masks is idempotent on every string if and only if it resets, has no e-mail mask, cuts a masked address short and masks again, or keeps the at sign in every later cut and cuts no longer than before |
| TextEdits.RunsOf | src/masking/mod.rs:82-91 | otherwise such a list is a cut, an e-mail mask and a cut, or leaves part of the marker |
| TextEdits.MailStays | src/masking/mod.rs:120-128 | masking a masked address changes nothing |
| TextEdits.UnsettledMoves | src/masking/mod.rs:72-91 | it constructs the string on which any other list differs the second time |
| Idempotence.EditsOfString | src/masking/mod.rs:47-51 | on a string the directives at a path are those edits, in list order |
| Fusion.ContainerReplaced | src/masking/mod.rs:47-51 | an object or array becomes a scalar at its node if and only if a `Redact` or a digest matches its path |
| Idempotence.MaskedTwiceExactly | src/masking/mod.rs:46-118 | for every tree and every list, digests included: twice is once if and only if, at every position that nothing above replaces or hides, the scalar the directives at its path leave there stays when they run over it again |
| Idempotence.DigestFreeTwiceExactly | src/masking/mod.rs:46-118 | hence for a list without digests: if and only if every string that is neither redacted nor hidden, nor below such a position, is left alone by a second run of the edits at its path |
| Idempotence.DigestTwiceExactly | src/masking/mod.rs:75-81 | and for a single digest: if and only if the digest of the digest is the digest at every topmost node its pattern selects |
| Idempotence.ListsExactly | src/masking/mod.rs:46-118 | any list is idempotent on every tree if and only if, at every path that nothing above replaces or hides, a second run of its directives leaves alone the scalar they make of any node |
| Idempotence.DigestFreeListsExactly | src/masking/mod.rs:46-118 | a list without digests is if and only if its edits settle at every path that nothing redacts on the way |
| Idempotence.SingleIsIdempotent | src/masking/mod.rs:72-128 | in particular every single directive but the digest is |
| Idempotence.ListsAreNotIdempotent | src/masking/mod.rs:46-98 | the e-mail mask followed by a truncation to 3 is not, with the string that shows it |
| Fusion.AnyListsFuseExactly | src/masking/mod.rs:46-118 | for any two lists and every tree, one pass is two passes if and only if both agree on every node that one of them replaces and on every marker a field mask of the second list puts |
| Fusion.FusionExactly | src/masking/mod.rs:46-98 | for any first list and a second one without field masks: if and only if what the second makes of its digests of containers is the same before and after their children are masked |
| Fusion.TextMasksFuse | src/masking/mod.rs:46-98 | hence always, if the second list has neither digests nor field masks |
| Fusion.OnePassIsManyPasses | src/masking/mod.rs:46-98 | hence one traversal with n directives is n traversals with one each, if only the first may be a digest or a field mask |
| Fusion.DigestsFuseExactly | src/masking/mod.rs:75-81 | for any digest function: the first list changes nothing below a container that the digest selects if and only if the passes fuse and the digest tells each container it selects from what the list makes of that container; so the first always suffices, and is needed as far as the digest tells those apart |
| Fusion.FieldMasksFuseExactly | src/masking/mod.rs:46-118 | for two lists without digests: if and only if, wherever a field mask of the second hides a position with nothing redacted above it, the first makes no difference to what the second leaves of the marker |
| Fusion.SparingListsFuse | src/masking/mod.rs:46-118 | in particular if the first list truncates nothing below 10 characters |
| Fusion.FieldMasksDoNotFuse | src/masking/mod.rs:46-118 | a truncation to 1 before a field mask does not, with the tree that shows it |
| Fusion.DigestsDoNotFuse | src/masking/mod.rs:75-81 | a digest of an object after a redaction of its field differs as far as the digest tells the two apart |
| Paths.EndsInIndexExactly | src/masking/mod.rs:62 | the test for a text that ends in an index finds exactly the texts that end in a rendered index |
| Paths.ReadBack | src/masking/mod.rs:53-66 | a rendered path decodes to the keys and indices it came from, if no key holds a dot or ends in a rendered index |
| Paths.PathsAreUnique | src/masking/mod.rs:53-66 | so equal paths over such keys come from equal labels |
| Paths.HarmlessExactly | src/masking/mod.rs:53-66 | the condition on keys is exact: the path of a key at the root belongs to it alone, among all label sequences, if and only if the key holds no dot and does not end in a rendered index |
| Paths.OwnPathExactly | src/masking/mod.rs:53-66 | the same over trees: in every tree with distinct keys no second position has the path of that key, if and only if the key is so |
| Paths.OnePositionPerPath | src/masking/mod.rs:46-70 | in a tree with distinct keys of that kind, distinct positions have distinct paths and a directive without a star selects at most one |
| Paths.HarmfulKeysCollide | src/masking/mod.rs:53-66 | for any other key it gives a tree with distinct keys, and the two positions in it that have the path of that key |
| Text.Find | src/masking/mod.rs:147 | the index found is an occurrence and no occurrence comes before it |
| Text.DecRoundTrip | src/masking/mod.rs:62 | a rendered index reads back, and has no leading zero |
| Policy.Evaluate | src/policy/mod.rs:145-171 | the scan with its early returns computes the decision function of the listing |
| Policy.DecideIsFirstMatch | src/policy/mod.rs:145-171 | that function is first match: an `AllowIf` or `DenyIf` the scan gets to, its condition matching, allows or denies with its reason, a `MaskField` it gets to masks its field; every decision comes from such a rule, or is the default denial when every condition fails and there is no mask rule |
| PolicyOrder.ListingExists | src/policy/mod.rs:292-301 | every table has a listing the query may answer |
| PolicyOrder.EnabledRowsExactly | src/policy/mod.rs:295 | the listed rows are the enabled ones, with their multiplicity |
| PolicyOrder.TopDecides | src/policy/mod.rs:145-171 | in a sorted listing a highest policy with a firing rule decides |
| PolicyOrder.HighestDecides | src/policy/mod.rs:292-301 | from the rows: an enabled policy with a firing rule that outranks every other such policy, by priority and then by update time, decides under every answer of the query |
| PolicyOrder.NobodyFires | src/policy/mod.rs:168-170 | and if no enabled policy has a firing rule, every answer gives the default denial |
| PolicyOrder.AnyTopCanDecide | src/policy/mod.rs:295 | each such policy decides in some order of ties |
| PolicyOrder.TieOrderExactly | src/policy/mod.rs:145-171 | the decision is the same under every order of ties if and only if the highest firing policies agree |
| PolicyOrder.UntiedOrderDoesNotMatter | src/policy/mod.rs:145-171 | in particular if no two policies of equal priority and update time both hold a firing rule |
| Risk.Score | src/policy/mod.rs:174-198 | the score lies between 0 and 1 |
| Risk.ScoreInTenths | src/policy/mod.rs:174-198 | it is 3 tenths for an action that names a write or an update in whatever case, 5 more for a delete, 3 for a sensitive resource and 1 outside business hours, 10 at most |
| Risk.ComputeRisk | src/policy/mod.rs:174-198 | the accumulation and clamp compute the score |
| Risk.PolarIsMonotone | src/policy/mod.rs:309-321 | a condition with `RiskAbove` under even (odd) numbers of `Not` is monotone (antitone) in the score |
| Risk.DenyStays | src/policy/mod.rs:145-171 | with such rules a higher score never turns a denial into anything else |
| Risk.TighterConfigKeepsDenials | src/policy/mod.rs:174-198 | end to end, more sensitive resources or an hour outside business hours never do |
| Risk.DecideAlike | src/policy/mod.rs:145-171 | scores on the same side of every threshold of the policies decide alike |
| Risk.DenialsKeptExactly | src/policy/mod.rs:145-171 | for any policies, context and range of scores: a higher score keeps every denial if and only if it does between the thresholds in the range and the top of the range |
| Risk.DenialsAlwaysKeptExactly | src/policy/mod.rs:145-171 | the same over all scores, with any top above the thresholds |
| Risk.TighterConfigExactly | src/policy/mod.rs:174-198 | end to end, for any policies: tighter configurations and hours keep every denial if and only if they do between the at most four scores the context can have |
| Risk.WrongPolarityAllows | src/policy/mod.rs:314 | an `AllowIf` on `RiskAbove(0.2)` fails that check, with the two scores that show it |
| Risk.UnreachableThresholdKeeps | src/policy/mod.rs:174-198 | the polarity is sufficient and not needed: an `AllowIf` on `RiskAbove(1.0)` passes the check on the scores there are |
| PolicyParser.CompilesFaithfully | src/policy/mod.rs:386-439 | parsing succeeds on exactly the well-formed values, and the binary tree means the n-ary all, any, not reading in every context |
| PolicyParser.FoldCompiles | src/policy/mod.rs:431-438 | the left fold parses if and only if every item does, and means all of them or any of them |
| PolicyParser.ConditionRoundTrip | src/policy/mod.rs:386-439 | every condition, printed canonically, parses back |
| PolicyParser.ConditionErrors | src/policy/mod.rs:386-439 | a condition that does not parse gives the error of its first item that does not, of its id, or of its shape |
| PolicyParser.MaskTypeRoundTrip | src/policy/mod.rs:441-471 | so does every mask type whose length fits a 64-bit `usize`, through a signed 64-bit integer |
| PolicyParser.MaskTypeReads | src/policy/mod.rs:441-471 | for every value: it reads as a mask type if and only if it is one of its names, or a table with that integer or pattern, a length coming before a pattern |
| PolicyParser.RuleRoundTrip | src/policy/mod.rs:356-384 | so does every rule |
| PolicyParser.RuleReads | src/policy/mod.rs:356-384 | for every file entry: it parses to a rule if and only if it has that kind and the parts the kind requires, which parse |
| PolicyParser.RuleErrors | src/policy/mod.rs:356-384 | otherwise the error names the unknown kind or the first missing part, or is that of the part that does not parse |
| PolicyParser.ParseRules | src/policy/mod.rs:344-348 | all rules parse in order, or the first that does not gives its error |
| PolicyParser.ParsedInOrder | src/policy/mod.rs:325-331 | a source with several policies names the unnamed ones by their index, and keeps their order |
| PolicyParser.ParsedFields | src/policy/mod.rs:324-354 | a parsed source has one policy per file entry, in order, with the description, priority, enabled flag, parsed rules and name of that entry, its own fresh id and the time of parsing |
| PolicyParser.SourceParsesExactly | src/policy/mod.rs:324-348 | it parses if and only if all rules of all its entries do, and otherwise gives the error of the first that does not |
| PolicyTable.UpsertUpdates | src/policy/mod.rs:253-273 | a stored name takes description, rules, priority, enabled flag and update time of the upsert and keeps id and creation time; a new name is stored as it is; no other name is affected |
| PolicyTable.UpsertKeepsKeys | src/policy/mod.rs:253-273 | names and ids stay unique |
| PolicyTable.DeleteRemoves | src/policy/mod.rs:244-248 | the delete removes the row of that id and no other |
| PolicyTable.DeleteKeepsKeys | src/policy/mod.rs:244-248 | names and ids stay unique |
| PolicyTable.TableRefinesHistory | src/policy/mod.rs:244-276 | after any history a name is in the table exactly from its first upsert until a delete of its id, with description, rules, priority, enabled flag and update time of its latest upsert, and id and creation time of its first |
| PolicyEngine.Engine.constructor | src/policy/mod.rs:136-142 | a new engine has an empty cache |
| PolicyEngine.Engine.InvalidateCache | src/policy/mod.rs:303-305 | the cache is emptied |
| PolicyEngine.Engine.UpsertPolicy | src/policy/mod.rs:253-276 | upsert and clear; a failed statement changes nothing |
| PolicyEngine.Engine.RemovePolicy | src/policy/mod.rs:244-251 | delete and clear; a failed statement changes nothing |
| PolicyEngine.Engine.UpsertEach | src/policy/mod.rs:230-235 | the loop upserts in order up to the statement that fails and remembers the last policy; the cache is empty once one upsert has succeeded |
| PolicyEngine.Engine.AddPolicyFromToml | src/policy/mod.rs:224-236 | nothing is stored unless the whole source parses; then the policies are upserted in order, and the result is the last one, or the error of an empty source or of the failed statement; the cache is empty once anything was stored |
| PolicyEngine.AddedSourceIsStored | src/policy/mod.rs:224-276 | from the source to the row: the row of a name in the source has description, priority, enabled flag and parsed rules of the last entry of that name, under the id and creation time it had, or those stamped on the first |
| PolicyEngine.OtherNamesKeepTheirRows | src/policy/mod.rs:224-276 | every name that is not in the source keeps its row |
| PolicyEngine.Engine.CachedPolicies | src/policy/mod.rs:278-290 | a filled cache answers as it is; an empty one is filled with the answer of the query, or stays empty when the statement or a row fails; a result always lists the current rows |
| PolicyEngine.Engine.EvaluateAccess | src/policy/mod.rs:145-171 | through the cache or not, the decision is that of a valid listing of the current rows, and the only error is that of the query |
| PolicyEngine.AddingExtendsHistory | src/policy/mod.rs:230-234 | the loop of upserts extends the history of the table, so the history theorem covers it |
| PolicyEngine.ReturnedIdIsStored | src/policy/mod.rs:224-236 | the returned id is the stored one if and only if the name was not live |
| CacheProtocol.AlwaysOccurred | src/policy/mod.rs:244-305 | under every interleaving, the cache and every list a reader holds or returned list a table state that occurred, for a miss one current during the call; with no writer between commit and clear, nothing was committed since the cache was stored |
| CacheProtocol.FreshExactly | src/policy/mod.rs:278-305 | then a filled cache lists the current table if and only if the enabled rows are those it was loaded from |
| CacheProtocol.QuietRunsStayFresh | src/policy/mod.rs:278-305 | if no commit falls between a load and its store, the cache is then empty or lists the current table |
| CacheProtocol.QuietReadsSeeClears | src/policy/mod.rs:278-305 | and at any time a call that began after a writer cleared the cache returns a listing of a version no older than that writer's commit |
| CacheProtocol.ReadsSeeWrites | src/policy/mod.rs:244-290 | on the steps themselves: a call that begins after a writer has cleared returns a listing of the table that writer committed or of a later one, whatever else runs in between |
| CacheProtocol.MissedReadsAreCurrent | src/policy/mod.rs:278-290 | in any run, a call that finds the cache empty returns a listing of a table that was current between its beginning and its end |
| CacheProtocol.WholeReadIsSteps | src/policy/mod.rs:278-290 | a whole `cached_policies` of the engine is a check and, on a miss, a load and a store or a failed load, with the same cache and result |
| CacheProtocol.WholeWriteIsSteps | src/policy/mod.rs:244-276 | a whole upsert or delete is a commit and a clear |
| CacheProtocol.StaleRun | src/policy/mod.rs:286-288 | otherwise a stale list can be stored after the clear and stay |
| Audit.StepConserves | src/audit/mod.rs:80-100 | each of the five events keeps order, chunks, buffer bounds and the empty buffers of a stopped worker |
| Audit.StepTells | src/audit/mod.rs:73-111 | on the fields: a tick flushes whatever is in the batch; a receive takes one entry over and flushes exactly when that fills the batch, or flushes the rest and stops; flushed entries follow the old log if the transaction commits, and are in the last chunk either way; there is room for twice the batch size |
| Audit.AlwaysOpen | src/audit/mod.rs:75-98 | while the worker runs a tick can always come, a send exactly while there is room for twice the batch size, a receive exactly while an entry waits or the senders are gone |
| Audit.TickLeavesNothingBehind | src/audit/mod.rs:96-98 | after any run that ends in a tick, everything taken off the queue has been flushed, and if no flush failed the log and the queue are the accepted entries |
| Audit.OnlyFullBatches | src/audit/mod.rs:82-95 | without ticks, only full batches are flushed until the worker stops |
| Audit.AuditConservation | src/audit/mod.rs:73-111 | over all runs: flushed, in-flight and dropped entries are the accepted ones in order, each chunk whole in the log or whole outside; a stopped worker has flushed all, and logged exactly them if no flush failed |
| Audit.StepDrains | src/audit/mod.rs:82-98 | once the senders are gone each receive takes exactly one off what remains, and a tick nothing |
| Audit.Drains | src/audit/mod.rs:80-100 | in any run from there without a crash, ticks included, the worker has stopped exactly at one receive per queued entry and one more, and no chunk is lost if its flushes commit |
| Audit.CanDrain | src/audit/mod.rs:82-93 | and such a run always exists, whatever its flushes do |
| Audit.AuditWriter.constructor | src/audit/mod.rs:73-79 | a batch size of 0 counts as 1 |
| Audit.AuditWriter.Write | src/audit/mod.rs:106-111 | an entry is queued, or refused with the channel-closed error when the worker is gone |
| Audit.AuditWriter.FlushBatch | src/audit/mod.rs:218-247 | the batch is emptied first; its rows reach the log all together or not at all, at whichever step the database refuses |
| Audit.AuditWriter.OnReceive | src/audit/mod.rs:82-95 | the channel arm: push, flush when full, final flush and stop at the end |
| Audit.AuditWriter.OnTick | src/audit/mod.rs:96-98 | the ticker arm flushes |
| Audit.AuditWriter.Work | src/audit/mod.rs:76-101 | the loop goes through exactly the states of the state machine, whatever order the arms come in |
| Csv.ExportCsv | src/audit/mod.rs:162-193 | the decoder finds in the text written the twelve column names, then for each entry in order its twelve texts, empty where an id, reason or resource id is missing |
| Csv.ReadFieldBack | src/audit/mod.rs:277-283 | an escaped field is read back, whatever commas, quotes and line feeds it holds |
| Csv.DecodeLines | src/audit/mod.rs:162-193 | a quote-aware decoder recovers any non-empty records |
| Csv.CsvRoundTrip | src/audit/mod.rs:162-193 | so it recovers the header and the twelve texts of every exported row |
| Session.RowsPersist | src/session.rs:178-184 | over any run a stored row is never lost and only its revocation mark changes, exactly by revoking that id |
| Session.DeadStaysDead | src/session.rs:137-184 | once revoked or past its stored expiry, no later validation or activity check of that id succeeds |
| Session.RowsAreCreated | src/session.rs:111-123 | a row comes only from creating its id |
| Session.CreatedFields | src/session.rs:86-134 | the stored row, the session and the claims hold the fields of the request, the row in whole milliseconds and the claim in whole seconds; no other row changes |
| Session.ActiveExactly | src/session.rs:216-231 | active are exactly the stored, unrevoked rows whose milliseconds are ahead; an unknown id is an invalid token, a revoked row is revoked |
| Session.ValidatedExactly | src/session.rs:137-175 | only a token signed here, not past its second by more than the tolerance, for an active row validates, to the fields of that row; any other text is an invalid token |
| Session.TokenLife | src/session.rs:86-175 | a new token validates exactly while unrevoked and unexpired, to the same session with its expiry in whole milliseconds; past the tolerance it is invalid, revoked it is reported revoked, past the stored expiry expired, in this order |
| Session.SessionLifetime | src/session.rs:86-97 | so, unless revoked, it validates until its seconds have elapsed, up to the millisecond in which they have; 2^63 seconds or more wrap, and the session is born expired |
| Session.PagesAreComplete | src/session.rs:187-213 | following the next offset from 0 visits every row once, in order, in floor(n/limit)+1 pages |
| Session.PageIsPrefix | src/session.rs:198-210 | a page holds the next `limit` rows and names the next offset exactly when it is full |
| Session.ListedIsActive | src/session.rs:193-205 | listed are exactly the sessions of the agent that an activity check accepts |
| Session.HugeOffsetStartsOver | src/session.rs:202-203 | an offset of 2^63 or more is negative to the database and starts over |
| Session.ZeroLimitNeverEnds | src/session.rs:210 | limit 0 always announces the same offset again |
| Session.SessionManager.CreateSession | src/session.rs:86-134 | stores the row and returns the session with the fields of the request and the expiry its seconds give, or changes nothing on a failed insert |
| Session.SessionManager.ValidateSession | src/session.rs:137-175 | token, row, revocation and expiry are checked in this order |
| Session.SessionManager.RevokeSession | src/session.rs:178-184 | marks the row of that id if there is one |
| Session.SessionManager.AssertSessionActive | src/session.rs:216-231 | missing, revoked, expired or active, in this order |
| Session.SessionManager.ListActiveSessions | src/session.rs:187-213 | the page of the listing, newest first, or the error of the query; every item is an active session of the agent |
| Guard.Guard.constructor | src/guard.rs:45-49 | the guard starts with an idle writer of the configured batch size |
| Guard.Guard.WriteDirect | src/audit/mod.rs:196-216 | one row more, or an error and nothing |
| Guard.Guard.WriteAudit | src/guard.rs:168-193 | the finished record is queued, or written directly if the channel is closed, never both |
| Guard.Guard.CheckAccessWithTask | src/guard.rs:105-153 | the check makes exactly the step of the state machine, on the current session rows, with the decision of a valid listing of the current policies for the agent, workspace, role and scopes of the session, the task, resource and action of the call and its risk, or the error of the query; also when the record cannot be written |
| Guard.ScoreOfCall | src/guard.rs:129-139 | that risk is the score of the call's own action and resource |
| Guard.FinishedRecords | src/guard.rs:168-187 | the record tells session, action, resource, label, reason, mask fields and risk of the decision |
| Guard.StepKeepsInv | src/guard.rs:105-193 | every access check and worker event keeps the accounting |
| Guard.EveryDecisionIsAudited | src/guard.rs:105-193 | over any run, every decision (at its score) and every session error (at risk 1) has left its record, and the records left are those accepted by the queue followed by those written directly, in order |
| Guard.RecordsAppearOnce | src/guard.rs:189-192 | with fresh ids no record appears twice or on both ways |
| Guard.DrainedLogIsComplete | src/guard.rs:105-193 | after a drain without failed flush the log is exactly those records |
| Guard.RecordExactly | src/guard.rs:127-192 | a check leaves a record if and only if its session check failed or its evaluation gave a decision, and the queue is served or the direct insert succeeds; the record tells the error or decision, which the caller gets; otherwise nothing is written and the caller gets the error of the evaluation or of the insert |
| Guard.SessionErrorReasons | src/guard.rs:146-150 | a refused session is recorded as a denial at risk 1 with the text of its error |
| Guard.RecordsCounted | src/guard.rs:105-193 | over any run, as many records are queued or written as there are such checks |
| Guard.DeadSessionsAreRefused | src/guard.rs:127-151 | a revoked or expired session is refused by every later access check |

## Left out

- SQL text, connections and migrations: a table is a sequence or a map, a statement is one atomic change that happens or fails.
- The audit table is kept in two parts, worker rows and direct rows; how they interleave in it is not modelled.
- Writes to the tables by anything but this one engine are not modelled.
- `load_from_dir`, file reading and TOML lexing: the compiler starts from TOML values; booleans and dates, which it never accepts, are one value, and NaN or infinite thresholds are excluded.
- `query` filters and I/O errors of the CSV writer: the export starts from the entries the query returned.
- Numeric limits of time: dates chrono cannot represent make the code panic; the model computes with unbounded integers there, and wraps only where the code casts.
- `offset + limit` beyond 64 bits in `list_active_sessions`, which needs an offset no page returns.
- Floating-point rounding of the risk score.
- Policy.Evaluate: does not carry the mask type of a `MaskField` rule into the decision, because the code does not either.
- Session.TokenLife: takes the clock to be at or after 1970, a 64-bit time to live and the expiry in seconds below 2^63, because the code has no others; `Session.SessionLifetime` takes the same.
- Session.PagesAreComplete: takes a listing shorter than 2^63 rows and a 64-bit limit, because no table is larger.
- Guard.EveryDecisionIsAudited: takes it that an evaluation never fails with a session error, which no query or row of a policy gives.
- Audit.AuditWriter.Write: waiting for room is a condition of the call, so fairness and latency of the queue are not modelled.
- Audit.AuditWriter.Work: a torn-down worker is one event that loses what is in flight; why the runtime would do so is not modelled.
- Guard.Guard.CheckAccessWithTask: the answers of the database during the call are inputs, and a session row that does not decode is not among them; the policy cache is read and filled in one go; `CacheProtocol` covers its interleavings.
- API keys, gRPC, environment parsing, `check_tool_permission` and `check_access`, which passes its action as the task: they would add only easy members.
- `src/engine.rs` is not part of this model: the crate does not declare it.
