# O.W.A.S.A.K.A. — verified models of the trust-bearing core

This project models, in Dafny, the parts of the SIEM that other parts have to trust, and proves what
they promise:

* the **transparency log** (`MerkleTree`, `Inclusion`, `Consistency`, `KeyOrder`, `LogTree`): Merkle
  roots, recursive proof generators, bit-walking verifiers, and the persistent tree around them;
* the **RBAC policy compiler and matcher** (`Policies`, `Inheritance`, `Loader`, `Engine`, `Meaning`,
  `Reload`);
* the **kill-chain correlator** (`Correlator`, `CorrelatorRuns`, `CorrelatorHistory`, `CorrelatorAlerts`,
  `CorrelatorPairs`, `CorrelatorScenes`);
* the **hash-chained audit log** (`AuditLog`) and the **snapshot Merkle tree** (`Snapshot`);
* the **key lifecycle and event signatures** (`Keys`), the **migration runner** (`Migrations`) and the
  **token denylist** (`Revocation`).

`dafny verify dfyconfig.toml` checks everything.

## How things are modelled

* **Hashes.** SHA-256 is a parameter: every theorem holds for every function from byte strings to
  32-byte digests. No injectivity is assumed. Soundness theorems say "the two things are equal, or
  *this* pair collides", and the pair is computed by a function from the forged input
  (`PathCollision`, `ReachCollision`, `MemberCollision`, `ForgeryCollision`, `Divergence`,
  `UnseenBreak`, `ListCollision`). The mere existence of a collision would say nothing, since every
  such function has some.
* **Proof entries** are byte slices of any length; copying one into a 32-byte array truncates or
  zero-pads it (`ToDigest`), as in the verifiers.
* **Integers.** Indices and sizes are natural numbers. The verifiers only decrement a positive size,
  halve and compare, so 64-bit wrap-around cannot occur in them; the one place where it can, the doubling
  loop, is modelled on 64-bit words with its exact limit (`LargestPowerOfTwoLessThan`, `DoublingDiverges`).
* **Unordered Go maps.** A range loop over a map picks the next key nondeterministically. Where the
  result does not depend on the order, the contract pins it to a function of the input.
* **Storage.** A bolt bucket is a map, scanned in byte order; a transaction commits or fails as a whole,
  as an argument of the operation says. JSON is an encode/decode pair whose round trip is the hypothesis;
  in the audit log it is a function from each field to the text that is read back, which need not be the
  text that was written. Clocks, entropy and identifiers are arguments. Ed25519 is a pair of functions
  of which sign/verify agreement of generated keys is used, and in tamper detection, as an explicit
  hypothesis, that a signature which verifies was made by the private key.
* **Mutexes** make each method one step; runs are sequences of steps.

## Where the code and its comments differ

The model follows the code.

* `VerifyInclusion` says that a proof with surplus entries is caught by comparing roots; it is not, the
  surplus is ignored (`SurplusIgnored`). A proof that is too short, or empty, is accepted too, exactly
  for the node that its sides lead to from the root (`AcceptedIffOpens`): it still shows membership of
  the payload (`MembershipSound`), but not its index (`ShortProofMovesLeaf`).
* The audit log says that any tampering breaks the chain; it does not when a field contains `|`
  (`BarForges`): the last hash commits to a log exactly when no field does (`CommittedIffBarFree`).
* `Append` reports success for a field that JSON changes (bytes that are not UTF-8), but Verify refuses
  the log from then on (`CarelessRunRefused`).
* `dedupPermissions` says it removes exact duplicates; it removes equal keys, which lose a grant when a
  name contains a separator (`ClashLosesGrant`; `FlattenedExact` gives the exact condition). For the same
  reason a reload can report no change while answers change (`ClashHidesChange`).
* A chain whose window equals the eviction age misses an event precisely on the limit
  (`BoundaryIsVisible`; `EvictionBoundary` gives the exact condition).
* Clearing a matched chain is meant to stop events from firing again; within the same call it does not,
  because later chains still read the compacted array. Two chains with common types report the same events
  (`SharedTypesRepeat`), a chain that repeats a type reports one event twice (`RepeatedTypeDoubles`), and
  chains of three types report events in the wrong order (`StaleCellsReorder`). The first alert of a call is
  always genuine (`FirstAlertGenuine`); all of them are for chains of at most two different types, as the
  shipped ones are (`EveryAlertGenuine`, `ShippedAlerts`), and two is the exact bound (`TrustworthyIff`),
  provided that the callback is registered before the first event (`LateCallbackReorders`).
* The snapshot tree binds its blocks only for a known length (`RootBinds`); `SameRootIff` says exactly
  which other lists share the root.
* An expired key that is still active goes on signing events that nothing verifies (`ExpiredKeySigns`).

## Model

| member | source | states |
|---|---|---|
| Hashing.OpenedTwice | internal/storage/transparency/hash.go:30-38 | an inner hash determines both children, or the two preimages collide |
| Hashing.LeafIsNotInner | internal/storage/transparency/hash.go:11-27 | the 0x00/0x01 prefixes keep leaf and inner hashes apart: a value that is both is a collision |
| MerkleTree.SplitPoint | internal/storage/transparency/hash.go:48-49 | k(n): strictly less than n, at least half of it |
| MerkleTree.SplitPointUnique | internal/storage/transparency/hash.go:48-49 | k(n) is the only power of two in that range |
| MerkleTree.LargestPowerOfTwoLessThan | internal/storage/transparency/hash.go:50-59 | on 64-bit words the doubling loop returns k(n) for every n up to 2^63 |
| MerkleTree.DoublingDiverges | internal/storage/transparency/hash.go:54-57 | above 2^63 the product wraps and the loop guard holds after every number of steps |
| Inclusion.SidesHalve | internal/storage/transparency/proofs.go:36-50 | the sides of an audit path in a tree of n leaves are one side from the lowest level followed by those in the tree of ceil(n/2) pairs |
| Inclusion.SidesAreLevels | internal/storage/transparency/proofs.go:9-14 | the sides read off the recursive split equal the sides read off the bits of the index and of the last index, for every unbalanced size |
| Inclusion.PathLength | internal/storage/transparency/proofs.go:36-50 | no audit path is longer than ceil(log2 n), and the leftmost leaf attains it |
| Inclusion.FoldPath | internal/storage/transparency/proofs.go:36-50 | folding the generated path along its sides rebuilds the Merkle root |
| Inclusion.TreeHashRfc | internal/storage/transparency/hash.go:18-80 | the tree hash as RFC 6962 writes it: the empty string, 0x00 before a leaf, 0x01 before two subtrees split at the power of two |
| Inclusion.VerifyInclusion | internal/storage/transparency/proofs.go:69-104 | the (fn, sn) bit walk, skip loop included, computes the fold along the tree's sides for every proof, and the zero root out of range; it uses as many entries as there are sides, or all of them, and ends with sn = 0 exactly when the proof is long enough |
| Inclusion.InclusionComplete | internal/storage/transparency/proofs.go:28-104 | every generated proof rebuilds the root and has one entry for each side of the walk, at most ceil(log2 n) |
| Inclusion.SurplusIgnored | internal/storage/transparency/proofs.go:82-87 | entries past the path length never influence the result |
| Inclusion.PathSound | internal/storage/transparency/proofs.go:36-104 | a full-length path that folds to the root is the true path from the true leaf, or the first node where it leaves the tree collides |
| Inclusion.InclusionSound | internal/storage/transparency/proofs.go:69-104 | any accepted proof at least as long as the path proves leaf, index and every sibling, or exhibits a collision |
| Inclusion.AcceptedIffOpens | internal/storage/transparency/proofs.go:69-104 | a proof of any length is accepted for a hash exactly when the hash is that of the node reached from the root along the used sides and the used entries are its siblings, or a computed pair collides |
| Inclusion.MembershipSound | internal/storage/transparency/proofs.go:69-104 | any accepted proof of any length for a hashed payload shows that the payload is in the log, or exhibits a collision |
| Inclusion.ShortProofMovesLeaf | internal/storage/transparency/proofs.go:82-103 | why the index needs the full length: one entry instead of three passes leaf 4 of 5 off as leaf 1 |
| Consistency.SeamEven | internal/storage/transparency/proofs.go:185-192 | an even boundary can be halved along with the tree: the pre-walk loses nothing |
| Consistency.SeamOdd | internal/storage/transparency/proofs.go:131-149 | from an odd boundary the consistency proof follows the audit path of the last leaf of the smaller tree |
| Consistency.SeamIsLevels | internal/storage/transparency/proofs.go:182-249 | the recursive subproof and the (node, lastNode) walk meet the same siblings in the same order; the walk starts from root1 exactly when n1 is a power of two |
| Consistency.FoldSeam | internal/storage/transparency/proofs.go:131-149 | from the seed, all siblings rebuild the larger root |
| Consistency.FoldSmallSeam | internal/storage/transparency/proofs.go:131-149 | from the seed, the left siblings alone rebuild the smaller root |
| Consistency.SubProofParts | internal/storage/transparency/proofs.go:131-149 | a generated proof is the seed, omitted exactly for a power of two, followed by the siblings |
| Consistency.DropOnes | internal/storage/transparency/proofs.go:185-192 | the pre-walk loop drops the trailing one bits of node and as many bits of lastNode |
| Consistency.VerifyConsistency | internal/storage/transparency/proofs.go:171-259 | the three loops decide acceptance and compute root2 exactly as the tree shape dictates, for every input, refusals included |
| Consistency.ConsistencyComplete | internal/storage/transparency/proofs.go:121-259 | every generated proof is accepted, used up and yields the larger root |
| Consistency.SeamSound | internal/storage/transparency/proofs.go:213-249 | siblings and seed that rebuild the larger root are the true ones, or a collision is computed |
| Consistency.ConsistencySound | internal/storage/transparency/proofs.go:171-259 | an accepted proof leading to the root of d shows that root1 is the root of d's first n1 leaves, and is the honest proof entry by entry, or exhibits a collision |
| KeyOrder.BigEndianOrder | internal/storage/transparency/tree.go:194-200 | fixed-width big-endian keys compare byte-wise as the numbers they encode |
| KeyOrder.ScanIndexKeys | internal/storage/transparency/tree.go:75-85 | a byte-order scan of the bucket visits the leaves in index order |
| LogTree.RehydrateRecovers | internal/storage/transparency/tree.go:68-86 | rescanning an intact bucket recovers exactly the cached hashes |
| LogTree.Tree.Rehydrate | internal/storage/transparency/tree.go:68-86 | the scan loop succeeds exactly when every leaf decodes, and then caches the hashes in key order |
| LogTree.Tree.Open | internal/storage/transparency/tree.go:42-64 | opening never changes the bucket, and yields a log only if both transactions and every decode succeed |
| LogTree.Tree.AppendLeaf | internal/storage/transparency/tree.go:93-112 | a committed append adds the hash of the payload at the end of the cache and a record that decodes to the payload under the next index, changing no other record; otherwise nothing changes |
| LogTree.Tree.ServeRoot | internal/storage/transparency/tree.go:136-146 | a root for every size up to the current one, the empty root for zero |
| LogTree.Tree.ServeInclusion | internal/storage/transparency/tree.go:171-181 | served exactly for m < n up to the current size, and it rebuilds the root at n |
| LogTree.Tree.ServeConsistency | internal/storage/transparency/tree.go:185-192 | served exactly for 1 <= first <= second up to the current size, and it is accepted |
| LogTree.StepKeeps | internal/storage/transparency/tree.go:68-112 | a step adds the leaf of a committed append at the end of the log and changes nothing else, failed transactions and reopens included |
| LogTree.LogIsAppends | internal/storage/transparency/tree.go:68-112 | over every run bucket and cache hold exactly the payloads of the committed appends, in order |
| LogTree.AppendedIsServed | internal/storage/transparency/tree.go:93-181 | a committed append at size n is leaf n for ever, and every later proof served for n rebuilds every served root from the hash of its payload |
| LogTree.ProvedWasAppended | internal/storage/transparency/tree.go:93-181 | a long enough proof accepted against a root the log served shows that the payload was appended in the run at that index, or a computed pair collides |
| LogTree.RunLogs | internal/storage/transparency/tree.go:68-112 | over every run the contents form a chain of prefixes |
| LogTree.CacheIsRescan | internal/storage/transparency/tree.go:20-24 | after every step of every run the cache equals a rescan of the bucket |
| LogTree.RootsNeverChange | internal/storage/transparency/tree.go:136-146 | a root once served for a size is served for it for ever, across failures and reopens |
| LogTree.LaterInclusionVerifies | internal/storage/transparency/tree.go:171-181 | an inclusion proof served later verifies against a root served earlier |
| LogTree.LaterConsistencyVerifies | internal/storage/transparency/tree.go:185-192 | a consistency proof served later connects a root served earlier with the current one |
| Strings.SortCanonical | internal/authz/reload.go:122-129 | sorted lists are equal exactly when the lists are equal as multisets |
| Policies.KeyInjective | internal/authz/loader.go:151-158 | permission keys identify permissions when resources lack `:`, actions and values lack `;`, condition keys lack `=` |
| Policies.KeysClash | internal/authz/loader.go:151-158 | without that, two different grants share a key |
| Policies.DedupPermissions | internal/authz/loader.go:137-149 | the loop keeps the first permission of each key |
| Policies.SameConcat | internal/authz/loader.go:134-149 | concatenation respects equality up to duplicates |
| Policies.DedupMembers | internal/authz/loader.go:134-149 | with unambiguous keys deduplication loses and adds nothing |
| Policies.DedupExact | internal/authz/loader.go:134-158 | the condition is exact: deduplication keeps every permission only if keys are unambiguous |
| Inheritance.AcceptsIffAcyclic | internal/authz/loader.go:107-132 | every role expands exactly when the graph has neither a cycle nor an undefined role |
| Inheritance.RoleRefused | internal/authz/loader.go:113-119 | a cycle error comes from a real cycle, an unknown-role error from a really undefined role |
| Inheritance.UnfoldedIsHeld | internal/authz/loader.go:107-132 | own plus expanded permissions are exactly those declared along some path of ancestors |
| Inheritance.ExpandHalfway | internal/authz/loader.go:89-97 | expanding over a half rewritten policy gives the same verdict and the same list up to duplicates |
| Inheritance.RewriteRole | internal/authz/loader.go:89-97 | whichever roles were rewritten before, a role gets the same final list |
| Loader.SortedConditions | internal/authz/loader.go:65-74 | whatever order the map was visited in, the conditions are its entries, key as key and value as value, each once, by strictly increasing key |
| Loader.HydratePermissions | internal/authz/loader.go:60-80 | every permission carries the resource, the action and the conditions of its entry, or the list is refused for an empty resource or action |
| Loader.HydrateRoles | internal/authz/loader.go:55-87 | pass 1 yields the declared roles, or a justified refusal |
| Loader.ExpandInherits | internal/authz/loader.go:110-132 | terminates on every graph, returns the depth-first expansion and restores the visit stack |
| Loader.FlattenRoles | internal/authz/loader.go:89-97 | pass 2, in any order and in place, yields the order-free flattening or a justified refusal |
| Loader.Validate | internal/authz/loader.go:165-184 | accepts exactly policies with an unconditional `*:admin` and no other action on `*` |
| Loader.LoadBytes | internal/authz/loader.go:44-105 | accepts exactly the acceptable files, which have no empty names and use `*` only with admin; the policy is a function of the file with its version, role names, descriptions and parents; every error is justified by the file |
| Engine.EvaluateConditions | internal/authz/engine.go:191-213 | true exactly when every condition holds; missing attributes fail closed (what holding means: `Meaning.PermitsMeans`) |
| Engine.Search | internal/authz/engine.go:78-104 | the nested loop returns the first permitting permission of the first permitting role |
| Engine.DecideIff | internal/authz/engine.go:78-109 | a request is granted exactly when some known role of the principal has a permitting permission |
| Engine.PolicyEngine.Allowed | internal/authz/engine.go:55-109 | no policy is an error and no principal a denial; otherwise the answer is the one that `Meaning.GrantedIffAllowed` describes; the caller's attributes gain at most principal_id |
| Meaning.PermitsMeans | internal/authz/engine.go:165-213 | a permission allows a request exactly when `*` or the resource, and `admin`, `*` or the action match, every ordinary condition equals its attribute and every not-self attribute is present and differs from principal_id |
| Meaning.GrantedIffAllowed | internal/authz/engine.go:55-109 | a request is granted exactly when some role of the principal has such a permission, and the grant names one, with principal_id defaulting to the principal |
| Meaning.BlockedIsDenied | internal/authz/engine.go:191-213 | when every permission that covers the request has a condition whose attribute is missing, is the principal itself for not-self, or is another text, the answer is a denial |
| Meaning.RoleNames | internal/authz/engine.go:120-162 | typed roles win; without them the names come from the roles claim, blank and non-text items skipped |
| Meaning.LoadedFileAnswers | internal/authz/loader.go:55-132 | from file to answer: an engine that loaded the file grants only what an entry of a role of the principal or of an ancestor allows, conditions read from the map, and all of it without clashing keys |
| Engine.PolicyEngine.Replace | internal/authz/engine.go:38-43 | a nil policy is ignored, any other takes over |
| Engine.FlattenedIsHeld | internal/authz/types.go:42-58 | the flat list of a role holds nothing but what the role and its ancestors declare, and all of it when no two of those permissions share a key |
| Engine.FlattenedExact | internal/authz/loader.go:89-158 | the flat list of a role loses no declared permission exactly when no two permissions of its ancestry share a key |
| Engine.FlatteningPreservesMeaning | internal/authz/loader.go:89-132 | the flat matcher on a loaded policy grants only what the inheritance graph of the file entitles to, and all of it when no role of the principal has clashing keys in its ancestry |
| Engine.KeySafeClashless | internal/authz/loader.go:151-158 | names without misplaced separators never clash |
| Engine.ClashLosesGrant | internal/authz/loader.go:134-158 | an accepted file with a separator in a name that entitles a principal to a request which the loaded policy denies |
| Engine.AcceptedHasAdmin | internal/authz/loader.go:160-184 | every accepted policy has a role whose holder is granted every request |
| Reload.RolePermsEqual | internal/authz/reload.go:108-129 | true exactly when the key multisets agree |
| Reload.DiffPolicies | internal/authz/reload.go:72-103 | each list is sorted and names exactly the added, removed or changed roles |
| Reload.EmptyDiffUnchanged | internal/authz/reload.go:50-52 | the diff is empty exactly when roles and their keys are the same |
| Reload.SameKeysSameMembers | internal/authz/reload.go:108-129 | two loaded lists with the same keys hold the same permissions exactly when equal keys mean equal permissions across them |
| Reload.EmptyDiffSameAnswers | internal/authz/reload.go:40-52 | when equal keys mean equal permissions across the two policies, an empty diff leaves every answer, and the granting role, unchanged for all principals and requests |
| Reload.KeySafeAgree | internal/authz/reload.go:108-129 | which holds for all files whose names lack misplaced separators |
| Reload.ClashHidesChange | internal/authz/reload.go:72-129 | two accepted files with an empty diff that answer one request differently |
| Reload.ReloadBytes | internal/authz/reload.go:30-38 | a refused file leaves the engine untouched; an accepted one takes over and is described by the diff |
| Correlator.MatchChain | internal/analytics/correlation/temporal.go:139-162 | the loop returns the greedy match |
| Correlator.MatchIffSubsequence | internal/analytics/correlation/temporal.go:137-162 | a chain matches exactly when its sequence is a subsequence of the in-window events |
| Correlator.ClearInPlace | internal/analytics/correlation/temporal.go:205-211 | compaction in the shared array keeps the unmatched events in order and leaves the cells behind them as they were |
| Correlator.Evict | internal/analytics/correlation/temporal.go:117-125 | keeps exactly the events younger than the cutoff |
| Correlator.TemporalCorrelator.constructor | internal/analytics/correlation/temporal.go:81-94 | maxAge is the longest window, at least one minute |
| Correlator.TemporalCorrelator.SetAlertCallback | internal/analytics/correlation/temporal.go:96-99 | registers or removes the callback and nothing else; in runs each call says whether one is registered by then |
| Correlator.TemporalCorrelator.Observe | internal/analytics/correlation/temporal.go:103-135 | windows and alerts after a call, stale cells of the shared array included; alerts and events without a source change nothing, other sources are untouched, and the event is stored with its own time or else the clock's |
| CorrelatorRuns.FireWindow | internal/analytics/correlation/temporal.go:129-134 | after a call the stored window lacks exactly the reported IDs, and every reported ID came from the cells |
| CorrelatorRuns.NoEventSpentTwice | internal/analytics/correlation/temporal.go:198-212 | with unique IDs no event is reported by two different calls, over every run and every set of chains |
| CorrelatorRuns.FireBehind | internal/analytics/correlation/temporal.go:129-134 | events older than every chain window in front of the cells change no alert |
| CorrelatorRuns.EvictionInvisible | internal/analytics/correlation/temporal.go:117-127 | all alerts of every call, for runs with time not running back, unique IDs and no event pair exactly maxAge apart unless every chain is shorter: eviction changes none |
| CorrelatorScenes.RepeatedIdVisible | internal/analytics/correlation/temporal.go:198-212 | why that needs unique IDs: a run with a repeated ID, all chains shorter than maxAge, in which eviction changes the number of alerts |
| CorrelatorScenes.BackwardClockVisible | internal/analytics/correlation/temporal.go:111-125 | why it needs time not to run back: a run in which an event evicted by a later one is missing when time returns |
| CorrelatorHistory.EvictionBoundary | internal/analytics/correlation/temporal.go:117-152 | eviction changes no match of a chain, whatever its sequence, exactly when its window is shorter than maxAge or no event lies on the limit |
| CorrelatorHistory.StoredIsRecent | internal/analytics/correlation/temporal.go:117-127 | over every run with time not running back, what is stored for a source is its unevicted history without the events older than maxAge |
| CorrelatorHistory.EvictionHidesNothing | internal/analytics/correlation/temporal.go:117-152 | at every call of every such run, a chain shorter than maxAge matches as if nothing had ever been evicted; one as long as maxAge does, whatever its sequence, exactly when no unspent event lies on the limit |
| CorrelatorHistory.CallStarts | internal/analytics/correlation/temporal.go:117-134 | a call alerts exactly when some chain matches the unevicted history, and first for the first such chain |
| CorrelatorHistory.BoundaryIsVisible | internal/analytics/correlation/temporal.go:122-150 | every chain of two types as long as maxAge, completed by two events exactly that far apart, loses its alert to eviction |
| CorrelatorAlerts.FirstAlertGenuine | internal/analytics/correlation/temporal.go:129-190 | over every run the first alert of a call names distinct observed events of the source, in order, with the chain's types and inside its window; it carries the chain's name, tactic and severity (HIGH by default), the source as destination and the event as trigger |
| CorrelatorAlerts.AlertsNameObserved | internal/analytics/correlation/temporal.go:129-190 | over every run every alert carries those labels, and each entry names an observed event of the source, of the type at that place of the chain and inside its window |
| CorrelatorAlerts.CallSpendsOnce | internal/analytics/correlation/temporal.go:129-134 | chains of any length, with unique IDs: when no chain repeats a type and no two share one, all alerts of a call together name each event at most once |
| CorrelatorPairs.StoredIsSilent | internal/analytics/correlation/temporal.go:117-134 | chains of at most two different types, callback from the start, time not running back, unique IDs: no chain ever matches what is stored between calls |
| CorrelatorPairs.EveryAlertGenuine | internal/analytics/correlation/temporal.go:129-190 | over every such run every alert of every call carries those labels and names distinct observed events of the source, in order, with the chain's types and inside its window |
| CorrelatorPairs.AlertsEndNow | internal/analytics/correlation/temporal.go:129-134 | over every such run every alert ends in the event of its call, and a call raises at most as many alerts as chains end in its type |
| CorrelatorPairs.SpendsOnceIff | internal/analytics/correlation/temporal.go:129-134 | over every such run a call names each event at most once exactly when it raises at most one alert |
| CorrelatorPairs.DistinctEndsSpendOnce | internal/analytics/correlation/temporal.go:129-134 | which is the case for every call when no two chains end in the same type, whatever else they share |
| CorrelatorPairs.ShippedAlerts | internal/analytics/correlation/temporal.go:39-78 | with the shipped rules every alert is genuine, and only a port scan can make one call name an event twice |
| CorrelatorScenes.TrustworthyIff | internal/analytics/correlation/temporal.go:126-134 | all alerts of all such runs are genuine, for all chains without repeated types up to a length, exactly when that length is at most two |
| CorrelatorScenes.SharedEndRepeats | internal/analytics/correlation/temporal.go:198-212 | a run in which two chains that end alike both name the event they end in |
| CorrelatorScenes.LateCallbackReorders | internal/analytics/correlation/temporal.go:96-99 | a run in which a callback registered late lets a chain of two types report its events in the wrong order |
| CorrelatorScenes.SharedTypesRepeat | internal/analytics/correlation/temporal.go:198-212 | a run in which two chains with common types report the same events in one call |
| CorrelatorScenes.RepeatedTypeDoubles | internal/analytics/correlation/temporal.go:198-212 | a run in which the compaction doubles an event and a chain that repeats a type reports it twice |
| CorrelatorScenes.StaleCellsReorder | internal/analytics/correlation/temporal.go:198-212 | a run, with all types different, whose second alert names its events in the wrong order |
| AuditLog.AmbiguousIffBar | internal/storage/integrity/auditlog.go:134-145 | a payload identifies its entry exactly when action, subject and details lack the separator |
| AuditLog.ParseAll | internal/storage/integrity/auditlog.go:98-108 | one corrupt line refuses the file, blank lines are skipped |
| AuditLog.Verify | internal/storage/integrity/auditlog.go:92-128 | accepts exactly the files whose entries form a hash chain from genesis |
| AuditLog.TipCommits | internal/storage/integrity/auditlog.go:24-27 | two accepted logs with one final hash are equal entry by entry, or a collision is computed; only one of them needs separator-free fields |
| AuditLog.BarForges | internal/storage/integrity/auditlog.go:134-145 | every accepted log with the separator in a field of any entry has a different accepted log with the same final hash |
| AuditLog.CommittedIffBarFree | internal/storage/integrity/auditlog.go:92-145 | the final hash of an accepted log commits to it, up to a computed collision, exactly when no field contains the separator |
| AuditLog.CarefulRunVerifies | internal/storage/integrity/auditlog.go:55-83 | a run of appends, failed writes and reopens that never writes on top of a lost entry, nor a text that JSON changes, leaves an accepted log |
| AuditLog.CarelessRunRefused | internal/storage/integrity/auditlog.go:59-80 | any other run leaves a log that Verify refuses from then on, or a collision is computed |
| AuditLog.SuccessfulRun | internal/storage/integrity/auditlog.go:55-83 | a run of successful appends and reopens stores all fields, as JSON leaves them, in order, numbered 1..n, and is accepted when JSON changes none |
| AuditLog.AuditLogFile.RecoverState | internal/storage/integrity/auditlog.go:147-164 | state is recovered from the last parsable line |
| AuditLog.AuditLogFile.AppendEntry | internal/storage/integrity/auditlog.go:55-83 | memory advances before the write, so also when the write fails |
| Snapshot.BuildTree | internal/storage/integrity/merkle.go:17-59 | terminates on every input, reads no node past a level, and returns leaves, all levels and the root: the nodes start with the leaves, end in the root, and each other one is a leaf or the hash of two of them |
| Snapshot.RootBinds | internal/storage/integrity/merkle.go:17-59 | block lists of equal length with equal roots are equal, or a collision is computed |
| Snapshot.RootOfHalves | internal/storage/integrity/merkle.go:39-52 | the shape of the tree: two blocks hash in order, and equal halves of a power-of-two list combine left before right |
| Snapshot.SameRootIff | internal/storage/integrity/merkle.go:17-59 | block lists of any lengths share a root exactly when, padded in full and hashed up to the depth of the shallower tree, they are the same list, or a computed pair collides |
| Snapshot.RepeatedBlockSameRoot | internal/storage/integrity/merkle.go:29-34 | padding at the base: an odd list and the list with its last block repeated share a root |
| Snapshot.RepeatedPairSameRoot | internal/storage/integrity/merkle.go:48-50 | padding at an inner level: six blocks and the same with the last two repeated share a root |
| Snapshot.LevelShiftSameRoot | internal/storage/integrity/merkle.go:22-46 | no prefix separates levels: four blocks and their two concatenated hash pairs share a root |
| Keys.StepAdvances | internal/storage/pki/authority.go:71-156 | no operation loses a key or changes anything but its status, which only moves forward |
| Keys.RunAdvances | internal/storage/pki/types.go:41-57 | over every run statuses only move from active to rotating to retired |
| Keys.VerdictMeans | internal/events/verifier.go:51-82 | exactly when each verdict is given; valid only for a known, unexpired, unretired event-signing key whose public half verifies the canonical bytes |
| Keys.SignedVerifies | internal/events/verifier.go:51-82 | an event signed in a run verifies later exactly while its key is not retired and the clock has not passed NotAfter |
| Keys.AcceptedIffSigned | internal/events/verifier.go:44-82 | unless its signature was forged, an event is accepted exactly when its canonical bytes were signed in the run with the key it names, its signature is the one made then, and the key is neither retired nor past its end |
| Keys.TamperedIsRefused | internal/events/verifier.go:48-50 | an event changed after signing is refused for ever, for keys that accept only what their private half makes, unless that signs both byte strings alike |
| Keys.RetiredRefuses | internal/storage/pki/authority.go:134-138 | once a key is retired no event of that key is accepted again |
| Keys.RotationKeepsSignatures | internal/storage/pki/authority.go:116-132 | any number of rotations leaves signatures valid |
| Keys.NeverAgain | internal/storage/pki/authority.go:134-138 | an event that stopped verifying never verifies again under a clock that does not run back |
| Keys.ExpiredKeySigns | internal/storage/pki/keystore.go:61-70 | the active key is not checked for expiry; what it signs then does not verify |
| Keys.ExpiredKeyRun | internal/storage/pki/keystore.go:61-70 | it happens in a run of one generated key and a clock past its end |
| Keys.Authority.ActiveByPurpose | internal/storage/pki/keystore.go:61-70 | some active key of the purpose, or none exists |
| Keys.Authority.GenerateKeyPair | internal/storage/pki/authority.go:71-97 | a fresh active key of the purpose is stored, valid from now for the given time, other keys untouched, unless the purpose is empty or entropy fails |
| Keys.Authority.RotateKey | internal/storage/pki/authority.go:121-132 | one active key becomes rotating, if there is one, then a key is generated |
| Keys.Authority.RetireKey | internal/storage/pki/authority.go:136-138 | a known key is retired, other keys untouched |
| Keys.Authority.EnsureRootCA | internal/storage/pki/authority.go:147-156 | a root key is generated exactly when none is active |
| Keys.Authority.Sign | internal/events/signer.go:46-72 | signs in place with an active event key; a failed encoding leaves no signature |
| Migrations.Register | internal/storage/migrations/migrations.go:56-66 | refuses exactly duplicate identifiers |
| Migrations.AllOrders | internal/storage/migrations/migrations.go:70-77 | the listing holds the registered migrations in increasing order |
| Migrations.PendingSuffix | internal/storage/migrations/migrations.go:145-151 | pending migrations are the final stretch above the applied ID |
| Migrations.RunConsistent | internal/storage/migrations/runner.go:10-17 | over every run of RunUp, RunDown and CheckBoot with failing steps, the migrations in effect are the registered ones up to the applied ID |
| Migrations.RanUpMeans | internal/storage/migrations/runner.go:18-54 | RunUp applies the registered migrations above the applied ID in order, each once, and stops only at the highest or in front of one that has no Up or does not commit |
| Migrations.RanUpRetry | internal/storage/migrations/runner.go:37-53 | any number of interrupted RunUps followed by a complete one ends where a single complete one does, migrations without an Up included |
| Migrations.BelowIsHighest | internal/storage/migrations/runner.go:90-95 | the new applied ID is the highest below the reverted one |
| Migrations.Database.RunUp | internal/storage/migrations/runner.go:18-54 | applies pending migrations in order up to the first failure; succeeds exactly when the schema ends current |
| Migrations.Database.RunDown | internal/storage/migrations/runner.go:62-107 | reverts the applied migration exactly when it is registered, reversible and the transaction commits: it goes out of effect, nothing else does, and the applied ID becomes the highest registered one below it |
| Migrations.Database.CheckBoot | internal/storage/migrations/runner.go:119-142 | succeeds exactly with applied equal to the highest available; downgrade and pending errors exactly in their cases |
| Revocation.RunMirrors | internal/identity/revocation/store.go:40-44 | over every run cache and bucket hold the same tokens |
| Revocation.AnswersMatchBucket | internal/identity/revocation/store.go:113-121 | IsRevoked answers as the persisted bucket would |
| Revocation.StepKeepsRecord | internal/identity/revocation/store.go:75-110 | a record is never rewritten, and dropped exactly by a committed collection whose clock is past its expiry date |
| Revocation.RevokedIsStored | internal/identity/revocation/store.go:80-110 | a committed revocation of a new token puts its reason, revoker, expiry and time on file and touches no other record |
| Revocation.StaysRevoked | internal/identity/revocation/store.go:144-189 | a revoked token keeps its first record until a collection whose clock is past its expiry |
| Revocation.BoltStore.Open | internal/identity/revocation/store.go:51-70 | opening never changes the bucket; without a database or when the transaction fails there is no store, otherwise the cache holds exactly the keys of the bucket |
| Revocation.BoltStore.RevokeToken | internal/identity/revocation/store.go:80-110 | idempotent; bucket and cache change together or not at all, and a new token is stored with what the caller said |
| Revocation.BoltStore.GC | internal/identity/revocation/store.go:149-189 | removes exactly the expired entries from bucket and cache, or nothing |
| Revocation.BoltStore.FindExpired | internal/identity/revocation/store.go:153-166 | one undecodable record stops the collection |

## Left out

- HTTP handlers, middleware, WebSocket hub, command line, front ends and notifier: plumbing.
- Network sensors and discovery: wrappers over foreign systems.
- SHA-256, Ed25519, X.509, JWT, YAML, JSON and bolt internals: parameters, codecs and atomic maps.
- Signed tree heads (`sth.go`): a fixed-width encoding of size, root and time, signed and stored under one key; the roots and sizes it covers are modelled, its bytes are not.
- Isolation forest, entropy, baselines, rate windows, topology, retention, backup: floating point or single-branch facts.
- Interleaving of threads inside a method: each mutex-protected method is one step.
- Fields that JSON does not give back unchanged, in the tree leaves and the denylist records: there the round trip is a hypothesis (`RoundTrips`). In the audit log they are modelled, on the assumption that a changed text gets longer (`Lengthens`), as replacing an invalid byte by U+FFFD does.
- Error texts, log lines, descriptions and the Reason strings of decisions.
- Torn audit lines: a failed write leaves the file unchanged, and reopening can read the file.
- Correlator.TemporalCorrelator.Observe: stored windows are values between calls; only within a call is the backing array shared, which is where the code can observe it.
- Keys.Authority.GenerateKeyPair: key pairs are stored as values, so a caller who keeps a reference does not see later status changes; identifiers are fresh, as UUIDs are taken to be.
- Migrations.Database.RunUp: the applied ID is a number, not four bytes of a bucket, so a record of the wrong length does not occur.
- Loader.LoadBytes: which of several justified errors is returned depends on the map order and is not fixed.
- LogTree.Tree.AppendLeaf: the log holds fewer than 2^63 leaves, as a slice does.
