# ForgeGuard in Dafny

A model of the parts of ForgeGuard whose correctness rests on an argument rather than on a glance: the
append protocol of the event log, the organizational spine and everything resolved over it, nested
principal-sets and groups, the decision caches, signed requests, signing keys, and the request pipeline.

`dafny verify dfyconfig.toml` checks all of it.

## How the model is laid out

| modules | what they model |
|---|---|
| `EventLog`, `EventLogProofs`, `EventLogTheorems` | Any number of `append` and `append_with_delete` calls racing on one organization. The table (counter, events, state items) is shared; reading the counter and submitting the transaction are separate steps of each call, interleaved in any order. A transaction is one atomic step that evaluates every condition. Transactions may also be cancelled for no reason, fail, or commit and lose their reply. |
| `EventKeys`, `EventPaging`, `EventLogLimits` | Sort keys, the range query behind `events_after`, a reader that follows a growing log, and runs that take the counter and the retry ceiling to their limits. |
| `Names` | Segments, native ids, FGRNs, Cedar identifiers, action ids. |
| `Graphs`, `GroupNesting`, `PrincipalSets`, `Delegation`, `Circularity` | The two cycle checks, the search through nested sets, effective verbs of a delegation chain, and how these relate. |
| `Spines`, `SpineMoves`, `OrgSpine` | The tree of org-units: what a tree is, what additions and moves do to paths, and the `Spine` object with the code that builds and changes it. |
| `Selectors`, `Visibility` | Selectors resolved over a spine, and subtree visibility. |
| `CacheKeys`, `EngineRequests`, `Lru`, `AuthzCaches`, `TieredCaches` | The cache key of a policy query and the request it stands for, the LRU list with expiry, the in-memory cache object, and any number of instances over one shared store. |
| `Payloads`, `SignedRequests`, `SignatureResolver`, `SigningKeys` | Canonical payloads, header injection and extraction, what the receiver makes of a signed request, and the life of signing keys. |
| `Pipeline` | The ten phases of a request. |
| `Text`, `Sorting`, `Sets`, `Wrappers` | String order, joining and cutting, decimal numerals, stable sorting, set sizes, `Option` and `Result`. |

What the model takes as given: `build(r)` yields an envelope with revision `r`; state items live under keys
other than those of the counter and the events; the clock does not run backwards; signing and verifying obey
the laws in `SignedRequests.Correct`; identity resolvers, membership resolvers, route matchers, flag
evaluation and policy engines are arbitrary functions passed in as parameters. Hash-map and hash-set
iteration is an arbitrary choice of the next element, so results proved here hold for every order.

## Where the code and its documentation part

- `current + 1` on the event counter wraps at 2^64 in a release build. The model wraps too, and
  `EventKeysAreContiguous` says exactly when the stored keys are 1..counter; `CounterWraps` gives a run in
  which they are not. (A debug build panics instead.)
- `events_after` is documented as strictly after the cursor; the successor saturates at the largest integer.
  `LargestCursorRepeats` gives a run in which an event comes twice and `StrictlyAfterIff` the exact condition.
- `to_cedar_ident` is documented to turn every segment into a valid identifier; a segment may start with a
  digit and an identifier may not. `DigitFirstSegmentIsNoIdent` gives one and `CedarIdentIff` the condition.
- `vp_action_id` joins segments with hyphens, which segments may hold: `VpActionIdCollides`,
  `VpActionIdIdentifiesIff`.
- A selector does not survive printing and parsing when an id of its path holds a dot or a slash:
  `DottedIdIsLost`, `ParseOfPrintIff`. Parsing then printing always gives back the text.
- A query without tenant and one with a tenant named `none` have the same cache key: `NoneTenantCollides`,
  `KeyCollidesIff`. The engine refuses queries without tenant before it builds a key.
- The cache key shows neither the entity type given for a resource nor the source of its owner, and the
  engine's request depends on both: `OwnerIsNotInTheKey`, `EqualKeysEqualRequestsIff`.
- The receiver looks header names up in any letter case, but signs for identity names as they arrive. A
  request whose identity names changed case does not rebuild the signed payload: `CaseMatters`,
  `RecasedRoundTrip`.
- The receiver of signed requests demands an organization header among the signed ones, and
  `inject_signed_headers` never sends it. `InjectedIsRefused` says that every request with the injected
  headers is refused although its signature is in order, `ResolvedWasNotInjected` that no resolved request has
  an injected payload, and `SignedIsResolved` exactly which signed requests are resolved.
- When two sets bear one FGRN, `set_contains` looks at the first and `assert_acyclic` at the last.
  `ChecksContradict` gives a batch on which they contradict each other, `LookupsAgreeIff` the exact condition
  under which they look at the same sets, and `SelfContainingIffCircularBackwards` what relates them always.

## Model

| member | source | states |
|---|---|---|
| `EventLogProofs.RunKeeps` | crates/control-plane/src/event_log.rs:256-440 | Every interleaving of any calls, from any initial items, keeps the invariant that ties counter, events, items, the log of commits and the phase of every call together. |
| `EventLogTheorems.ReadDecides` | crates/control-plane/src/event_log.rs:178-238 | A read hands the call the stored counter, zero if there is none, and ends it with a mismatch if and only if it expected another. |
| `EventLogTheorems.TransactDecides` | crates/control-plane/src/event_log.rs:262-339 | A transaction commits counter, event and state item together if and only if the counter has not moved, the event is new and the state allows it; otherwise it changes nothing and ends as conflict (put) or gone (delete) when the state is at fault, and else is retried, fifty times in all. |
| `EventLogTheorems.EventKeysAreContiguous` | crates/control-plane/src/event_log.rs:206-223 | In every reachable state every event sits under its own sequence number, and the stored keys are exactly 1..counter if and only if the counter is not stored as zero, that is, fewer than 2^64 transactions have committed; never more than that commit. |
| `EventLogTheorems.EventsAreImmutable` | crates/control-plane/src/event_log.rs:240-248 | However a run continues, the log is only extended and no stored event is overwritten or removed. |
| `EventLogTheorems.SuccessIsStored` | crates/control-plane/src/event_log.rs:262-297 | A success at a revision means that an envelope of that revision with the call's own draft is stored there; with an expected revision it is the successor of that, wrapping at 2^64. |
| `EventLogTheorems.RevisionsAreDistinct` | crates/control-plane/src/event_log.rs:256-346 | Distinct successful calls return distinct revisions. |
| `EventLogTheorems.RevisionsFollowRealTime` | crates/control-plane/src/event_log.rs:256-346 | A successful call that read the counter after another had ended returns the later revision, until the counter wraps. |
| `EventLogTheorems.CallsCommitAtMostOnce` | crates/control-plane/src/event_log.rs:296-339 | A call commits at most once over all its attempts: once if it reports success, never if it reports a conflict, a missing item or contention or is still running. |
| `EventLogTheorems.RefusalsAreTrue` | crates/control-plane/src/event_log.rs:309-325 | A conflict, missing-item or revision-mismatch reply was true of the table at the very moment the call ended, which is not before its last read nor before any attempt it gave up had ended. |
| `EventLogTheorems.StateIsReplay` | crates/control-plane/src/event_log.rs:383-398 | The state items equal the replay of the committed operations in sequence order, and every logged tombstone removed an item that was present. |
| `EventLogTheorems.ItemsAreLatest` | crates/control-plane/src/event_log.rs:272-294 | In every reachable state an item has the value of the last put about it, is absent if the last transaction about it was a tombstone, and is as it was at first if there was none. |
| `EventLogTheorems.RecreationNeedsTombstone` | crates/control-plane/src/event_log.rs:272-294 | Between a put of an item and a later create-only put of it there is a tombstone for it. |
| `EventLogTheorems.ContentionNeedsFiftyCommits` | crates/control-plane/src/event_log.rs:262-339 | While fewer than 2^64 transactions have committed, and if cancellations come only from failed conditions, each cancelled attempt saw the log grow between its own read and its own transaction, in disjoint intervals; a call gives up only if at least fifty commits of other calls fell into them. |
| `EventLogTheorems.FewCallsNeverContend` | crates/control-plane/src/event_log.rs:27-33 | With at most fifty calls in all, a call none of whose cancellations is spurious never gives up from contention. |
| `EventLogLimits.LoserContends` | crates/control-plane/src/event_log.rs:27-33 | With fifty-one unconditional calls a run exists in which one gives up, without a spurious cancellation: the ceiling clears exactly fifty. |
| `EventKeys.EventSkOrder` | crates/control-plane/src/event_log.rs:74-76 | On all unsigned 64-bit integers, text order of padded sort keys is numeric order, and keys are distinct. |
| `EventKeys.EventSkBelowMax` | crates/control-plane/src/event_log.rs:22-26 | Every event key lies at or below the upper end of the query range. |
| `EventKeys.EventSkText` | crates/control-plane/src/event_log.rs:74-76 | A sort key is the prefix and twenty digits that denote the number. |
| `EventKeys.RangeIsEventKeys` | crates/control-plane/src/event_log.rs:21-26 | Whatever lies in the query range has the event prefix, so the counter's key does not. |
| `Text.LeIff` | crates/control-plane/src/event_log.rs:22-26 | The order of sort keys, ids and header names: one is the beginning of the other, or is smaller where they first differ. |
| `EventPaging.EventsAfterIsExact` | crates/control-plane/src/event_log.rs:443-482 | Below the largest cursor, whether or not the counter has wrapped, the reply is a run of at most `limit` events directly after it, in order and without gaps, and non-empty if and only if there is any. |
| `EventPaging.SaturatedCursorRepeats` | crates/control-plane/src/event_log.rs:451-456 | At the largest cursor the reply is that cursor's own event if it is stored, and empty otherwise. |
| `EventPaging.StrictlyAfterIff` | crates/control-plane/src/event_log.rs:451-456 | The reply is strictly after the cursor if and only if the cursor is not the largest integer with its own event stored. |
| `EventPaging.FollowingYieldsPrefix` | crates/control-plane/src/event_log.rs:443-482 | Polling after the last event seen, with any positive page sizes and appends in between, collects a prefix of the log, each event once, in order, no gaps, if and only if the reader never polls after the largest revision; then an empty page means that everything was seen. |
| `EventPaging.RunIsReadable` | crates/control-plane/src/event_log.rs:444-482 | Every state of a run meets what the reader needs, and later states have longer logs. |
| `EventLogLimits.EveryLengthIsReached` | crates/control-plane/src/event_log.rs:206-223 | Enough unconditional puts, each reading and committing in turn, take the log to every length up to 2^64. |
| `EventLogLimits.WritersExist` | crates/control-plane/src/event_log.rs:256-297 | There are that many calls. |
| `EventLogLimits.CounterWraps` | crates/control-plane/src/event_log.rs:262-297 | That run ends with the counter at zero and stored keys that are not 1..counter. |
| `EventLogLimits.LargestCursorRepeats` | crates/control-plane/src/event_log.rs:451-456 | When the largest revision is stored, before the counter wraps and after, the reply after the largest cursor exists and is that very event again. |
| `Names.ParseOfPrint` | crates/core/src/fgrn.rs:100-137 | Every valid FGRN is recovered from its printed form. |
| `Names.PrintOfParse` | crates/core/src/fgrn.rs:100-137 | Whatever parses is valid and prints back to the same text. |
| `Names.ResourceRoundTrip` | crates/core/src/fgrn.rs:174-229 | A built resource FGRN is valid and gives back type and native id, even when the id holds slashes. |
| `Names.CedarIdentIff` | crates/core/src/segment.rs:90-99 | A segment maps to a valid Cedar identifier if and only if it does not start with a digit. |
| `Names.DigitFirstSegmentIsNoIdent` | crates/core/src/cedar_ident.rs:25-53 | A concrete segment whose image is not a valid identifier. |
| `Names.CedarEntityTypeInjective` | crates/core/src/cedar_ident.rs:86-103 | An entity type determines its namespace and its entity. |
| `Names.VpActionIdCollides` | crates/core/src/action.rs:246-253 | Two different actions with one id. |
| `Names.VpActionIdIdentifiesIff` | crates/core/src/action.rs:246-253 | Two actions with one id are equal if and only if their namespaces hold equally many hyphens and so do their entities. |
| `GroupNesting.Search.Dfs` | crates/http/src/validate.rs:127-155 | From an unvisited node the search visits what it reaches, restores the stack, keeps finished nodes in topological order while no error is found, and every error it adds lies on a cycle. |
| `GroupNesting.CheckCircularNesting` | crates/http/src/validate.rs:99-124 | An error is reported if and only if the group graph has a cycle, and every reported edge closes one. |
| `PrincipalSets.Chain.Visit` | crates/core/src/principal_set.rs:134-158 | On success the path is restored and no walk from the set is endless; on failure there is a cycle. Terminates on every graph. |
| `PrincipalSets.AssertAcyclic` | crates/core/src/principal_set.rs:118-132 | Succeeds if and only if the membership graph has no cycle; shared descendants are accepted. |
| `Graphs.PresentKeepsCycles` | crates/core/src/principal_set.rs:150-154 | Ignoring members that refer to absent sets neither makes nor breaks a cycle. |
| `Circularity.LookupsAgreeIff` | crates/core/src/delegation.rs:138-140 | First and last lookup agree on all names if and only if of every name the first set in the batch equals the last. |
| `Circularity.ChecksContradict` | crates/core/src/principal_set.rs:118-119 | For any two principal-sets, a batch that the cycle check accepts and in which a set contains itself; within one organization every set of it can be built by adding members. |
| `Circularity.SelfContainingIffCircularBackwards` | crates/core/src/delegation.rs:131-153 | Of any batch, some set contains itself if and only if the cycle check finds the reversed batch circular. |
| `Circularity.CircularIffSelfContaining` | crates/core/src/principal_set.rs:113-132 | A batch in which of every FGRN the first set equals the last is circular if and only if some set contains itself by the search that decides membership. |
| `Circularity.DetectorsAgree` | crates/http/src/validate.rs:99-155 | On the same nesting, given as sets or as groups under any names that tell the sets apart, the graphs the two checks decide are circular together, so the checks agree. |
| `Circularity.IdsTellApart` | crates/core/src/principal_set.rs:83-106 | One organization's sets and groups named by their ids get the same verdict. |
| `Circularity.GroupsAreSets` | crates/http/src/validate.rs:99-124 | Every configuration of groups with valid names is the nesting of a batch of sets with valid FGRNs of any organization, and is circular if and only if that batch is; a set of it can be built by adding members if and only if its group does not list itself. |
| `Delegation.Walk.Find` | crates/core/src/delegation.rs:132-151 | Positive answers are backed by a membership chain; after a negative one everything reachable has been searched. |
| `Delegation.SetContains` | crates/core/src/delegation.rs:131-153 | True if and only if a finite chain of present sets leads to one that holds the principal, on circular sets too. |
| `Delegation.VerbsHeld` | crates/core/src/delegation.rs:118-126 | Exactly the verbs of grants on the resource to the link or to a set that contains it. |
| `Delegation.EffectiveVerbs` | crates/core/src/delegation.rs:93-114 | Despite the early stop, exactly the verbs held by all links; fails exactly on a target that is not a resource. |
| `Delegation.LinksOnlyNarrow` | crates/core/src/delegation.rs:89-114 | More links only take verbs away; reordering and repeating links changes nothing. |
| `Delegation.GrantsOnlyWiden` | crates/core/src/delegation.rs:116-126 | More grants only add verbs. |
| `Spines.RootPathUnique` | crates/core/src/spine.rs:208-231 | A unit has one path from a root. |
| `Spines.PathHasNoRepeats` | crates/core/src/spine.rs:208-231 | No unit occurs twice on a path. |
| `Spines.BelowIsTreeOrder` | crates/core/src/spine.rs:234-243 | Being at or below is a partial order, and the units above a unit form a chain. |
| `Spines.RootedIsAcyclic` | crates/core/src/spine.rs:149-162 | When every unit has a path from a root the hierarchy has no cycle. |
| `Spines.LongDescentIsCyclic` | crates/core/src/spine.rs:149-162 | A descent through more units than there are runs around a cycle: the step-count test is sound. |
| `SpineMoves.AddKeepsTree` | crates/core/src/spine.rs:253-282 | After an addition there is a tree with the same root; the new unit's path is its parent's followed by itself and no other path changes. |
| `SpineMoves.MoveKeepsTree` | crates/core/src/spine.rs:285-315 | After an accepted move every unit at or below the moved one has the new parent's path followed by its old suffix, every other path is unchanged, and it is still a tree. |
| `SpineMoves.MoveCyclesIff` | crates/core/src/spine.rs:304-309 | The updated parents are circular if and only if the new parent is at or below the moved unit. |
| `SpineMoves.RunKeepsTree` | crates/core/src/spine.rs:253-315 | Every run of additions and moves, accepted or refused, leaves a tree with the same root and no fewer units. |
| `OrgSpine.Gather` | crates/core/src/spine.rs:107-138 | The first pass collects distinct units of one organization with at most one root, or blames a fault that the list has. |
| `OrgSpine.Climb` | crates/core/src/spine.rs:149-162 | The bounded climb succeeds if and only if the unit has a path from a root; otherwise there is a cycle. |
| `OrgSpine.CheckParents` | crates/core/src/spine.rs:140-147 | Finds a parent that is not a unit if and only if there is one. |
| `OrgSpine.CheckCycles` | crates/core/src/spine.rs:149-162 | Finds nothing if and only if every unit has a path from a root; otherwise there is a cycle. |
| `OrgSpine.TryNew` | crates/core/src/spine.rs:95-169 | Succeeds if and only if the units are non-empty, distinct, of one organization, with one root, known parents and no cycle; otherwise the error names a fault of the list. |
| `OrgSpine.Spine.Path` | crates/core/src/spine.rs:208-231 | Returns the path from the root, or the unknown unit. |
| `OrgSpine.Spine.IsAtOrBelow` | crates/core/src/spine.rs:234-243 | Decides whether the ancestor is on the node's path, or names the unknown unit. |
| `OrgSpine.Spine.Add` | crates/core/src/spine.rs:253-282 | Keeps the tree; accepts and changes exactly as specified, and a refusal gives its reason. |
| `OrgSpine.Spine.Reparent` | crates/core/src/spine.rs:285-315 | Keeps the tree; refuses as a cycle if and only if the updated parents would be circular; a refusal changes nothing and gives its reason. |
| `Selectors.ParseOfPrintIff` | crates/core/src/selector.rs:99-142 | Printing then parsing gives back a selector if and only if no id of its path holds a dot or a slash. |
| `Selectors.DottedIdIsLost` | crates/core/src/selector.rs:99-142 | A valid selector that printing and parsing does not give back. |
| `Selectors.PrintOfParse` | crates/core/src/selector.rs:112-142 | Whatever parses is valid and prints back to the same text. |
| `Selectors.PositionUnique` | crates/core/src/selector.rs:62-83 | One unit at most has a given sequence of ids below the root. |
| `Selectors.FindChild` | crates/core/src/selector.rs:69-82 | Finds the child with the id, if there is one, in any order of visiting. |
| `Selectors.Descend` | crates/core/src/selector.rs:62-83 | Finds the unit whose path spells the selector's ids, and fails if and only if there is none. |
| `Selectors.Collect` | crates/core/src/selector.rs:85-93 | Collects each unit at or below the given one once and no other. |
| `Selectors.Resolve` | crates/core/src/selector.rs:62-96 | A node selector yields the unit at its position, a subtree selector the units at or below it in ascending order of their ids; each failure is characterized. |
| `Selectors.DenotationUnique` | crates/core/src/selector.rs:62-96 | A selector denotes one list of units, so the order of visiting does not matter. |
| `Visibility.SubtreeVisible` | crates/core/src/visibility.rs:48-102 | Succeeds if and only if all arguments are of the right kind and in the spine, and then decides visibility. |
| `Visibility.VisibleFromAbove` | crates/core/src/visibility.rs:48-102 | What a requester sees from a scope it sees from every scope above. |
| `Visibility.VisibleAfterMove` | crates/core/src/spine.rs:285-315 | Exactly who sees what after a move, for resources inside and outside the moved subtree. |
| `CacheKeys.GroupsTextIff` | crates/authz/src/cache.rs:65-75 | The groups part of two keys is equal if and only if the groups are, up to order. |
| `CacheKeys.KeysEqualIff` | crates/authz/src/cache.rs:44-80 | Two keys are equal if and only if all parts are: the resource by its displayed triple, groups up to order and the tenant as shown. |
| `CacheKeys.KeyIdentifiesTenantedQuery` | crates/authz/src/cache.rs:44-80 | With tenants present, keys are equal if and only if kind, user, action, displayed triple of the resource, tenant and multiset of groups are. |
| `CacheKeys.KeyCollidesIff` | crates/authz/src/cache.rs:59-63 | Queries that differ in the tenant only collide if and only if one has none and the other one named `none`. |
| `CacheKeys.NoneTenantCollides` | crates/authz/src/cache.rs:59-63 | Such a collision exists for every query. |
| `EngineRequests.ConsultedKeysEqualIff` | crates/authz/src/engine.rs:139-149 | Behind the refusal of queries without tenant, keys are equal if and only if everything displayed is. |
| `EngineRequests.EqualKeysEqualRequestsIff` | crates/authz/src/translate.rs:32-70 | Equal keys stand for equal engine requests, up to the order of groups, if and only if the resources are also given the same entity type and the same owner. |
| `EngineRequests.RequestsEqualExactly` | crates/authz/src/translate.rs:94-197 | Two requests are equal if and only if they agree on the principal's kind, id and tenant, a user's groups (a machine's do not count), the action's id, and the resource's type, id and owner, which is its own id or the tenant. |
| `EngineRequests.OwnerIsNotInTheKey` | crates/authz/src/translate.rs:172-179 | For every query whose resource is not named like its tenant, taking the owner from the other source keeps the key and changes the request. |
| `Lru.RunIsBounded` | crates/authz/src/cache.rs:109-119 | After any operations the list holds distinct keys and at most its capacity. |
| `Lru.EntriesAreLatest` | crates/authz/src/cache.rs:122-153 | An entry is the last insertion under its key. |
| `Lru.MissingIsAccounted` | crates/authz/src/cache.rs:122-153 | An inserted key is missing only if it expired or at least as many other keys as the list holds were used since its last use. |
| `AuthzCaches.AuthzCache.constructor` | crates/authz/src/cache.rs:109-119 | An empty cache of the given capacity, or of one for zero. |
| `AuthzCaches.AuthzCache.Get` | crates/authz/src/cache.rs:122-140 | A hit is the last inserted decision, younger than the time to live; a miss means that there was none, that it is older, or that as many other keys as the cache holds were used since; hits and misses add up to the lookups. |
| `AuthzCaches.AuthzCache.Insert` | crates/authz/src/cache.rs:143-153 | The decision becomes the last insertion under its key, and counters stay. |
| `TieredCaches.RunIsGood` | crates/authz/src/tiered_cache.rs:45-124 | Every interleaving of lookups, evaluations, delayed or lost writes and replies, by any number of instances with settings of their own, keeps every entry, write, reply and answer traceable to an evaluation and within its times. |
| `TieredCaches.AnswersAreRecentEvaluations` | crates/authz/src/tiered_cache.rs:45-87 | Every decision returned was evaluated earlier for the same key, and is younger than the returning instance's memory time, plus the time its evaluator set in the shared store if it came from there, plus the delays of its own write and reply; without a shared store an instance returns its own evaluations. |
| `TieredCaches.SharedLifeIsFixed` | crates/authz/src/tiered_cache.rs:92-124 | What the shared store holds landed once, straight from an evaluation, and expires max(1, whole seconds) later by the setting of its evaluator; copying into memory never prolongs it. |
| `TieredCaches.L2TtlIs` | crates/authz/src/tiered_cache.rs:100-100 | The shared time is one second below two, and otherwise the whole seconds of the setting. |
| `TieredCaches.StoredIsFound` | crates/authz/src/tiered_cache.rs:45-69 | When memory misses and the shared store holds an unexpired decision, lookup and reply answer with exactly that decision, and the next lookup finds it in memory. |
| `TieredCaches.RememberedIsFound` | crates/authz/src/tiered_cache.rs:45-49 | A key that memory holds unexpired is answered from there, with the time it went in, and nothing is sent for. |
| `TieredCaches.EvaluatedIsStored` | crates/authz/src/tiered_cache.rs:92-124 | An evaluated decision is answered from memory at once, and is what the shared store holds, for its time, when the write lands; without a shared store nothing is written. |
| `Payloads.BuildPayload` | crates/authn-core/src/signing.rs:164-180 | The buffer loop yields preamble and sorted header lines, each ended by a newline. |
| `Payloads.LinesAscend` | crates/authn-core/src/signing.rs:164-180 | The header lines stand in ascending order of names, each header as often as given. |
| `Payloads.PayloadForgetsOrder` | crates/authn-core/src/signing.rs:164-180 | Reordering headers with distinct names does not change the payload. |
| `Payloads.PayloadDetermines` | crates/authn-core/src/signing.rs:164-180 | Without newlines in values and trace id, and colons or newlines in names (sections 5.1 and 5.5 of RFC 9110), payload bytes determine trace id, timestamp and sorted headers. |
| `Payloads.PayloadsEqualIff` | crates/authn-core/src/signing.rs:164-180 | Of printable headers, distinct on one side, payloads agree if and only if trace id, timestamp and headers do, in any order. |
| `SignedRequests.InjectHeaders` | crates/http/src/headers.rs:104-135 | Each field that is there yields its header once, under its own lowercase name, and nothing else is pushed. |
| `SignedRequests.InjectSignedHeaders` | crates/http/src/headers.rs:144-177 | The identity headers, followed by four protocol headers that sign them if there is a key; then from every request in which they arrive, reordered and mixed with unrelated headers, the signed payload is rebuilt and the signature check succeeds. Whether the receiver resolves it is `InjectedIsRefused`. |
| `SignedRequests.FindHeaderIff` | crates/http/src/credential.rs:7-12 | A lookup gives the first header of the name in any letter case, and nothing if and only if there is none. |
| `SignedRequests.BearerIff` | crates/http/src/credential.rs:43-53 | The bearer token is found if and only if the first authorization header is the scheme in any letter case and a token, up to white space around and between. |
| `SignedRequests.ApiKeyIff` | crates/http/src/credential.rs:55-61 | The API key is found if and only if the first such header is the key up to white space around it. |
| `SignedRequests.CredentialIff` | crates/http/src/credential.rs:42-85 | Exactly which credential is extracted: a bearer token before an API key, both before a signature, of which four headers and a 64-bit timestamp are needed. |
| `Text.ParseU64Iff` | crates/http/src/credential.rs:68-68 | A timestamp is read if and only if it is digits, after a plus sign or not, that denote an unsigned 64-bit integer. |
| `SignedRequests.FindProtocol` | crates/http/src/credential.rs:7-13 | Each protocol header sent is what a case-insensitive lookup finds, in any order and letter case of headers. |
| `SignedRequests.ExtractedIdentity` | crates/http/src/credential.rs:69-76 | Extraction keeps exactly the identity headers that were sent. |
| `SignedRequests.SignedRoundTrip` | crates/http/src/credential.rs:42-85 | However the sent headers are reordered and mixed with unrelated ones, extraction recovers key id, timestamp and trace id, the signed payload is rebuilt byte for byte and the signature check over it succeeds. |
| `SignedRequests.RecasedRoundTrip` | crates/http/src/credential.rs:42-85 | With header names changed in letter case as well, key id, timestamp and trace id are still found, and for single-line values the signed payload is rebuilt if and only if no identity name changed; then the signature is accepted. |
| `SignedRequests.CaseMatters` | crates/http/src/credential.rs:69-76 | For every projection with single-line values, the request with one letter of one name changed arrives, is found to be signed, and does not rebuild the signed payload. |
| `SignedRequests.PayloadRebuiltIff` | crates/http/src/credential.rs:69-76 | From any printable identity headers, changed, added or dropped, the signed payload is rebuilt if and only if they are those that were sent. |
| `SignatureResolver.SignedIsResolved` | crates/authn/src/ed25519_resolver.rs:69-104 | Whatever identity headers are signed, a receiver that knows the key resolves the request to key id and organization if and only if an organization is named, the clocks are close enough and both names are valid; otherwise the error is that of the first check that fails. |
| `SignatureResolver.ResolvedIff` | crates/authn/src/ed25519_resolver.rs:69-104 | Any credential is resolved if and only if it names an organization with the key on file, that key verifies the signature over what arrived, the timestamp is within the drift, and both names are valid; the identity is then key id and organization. |
| `SignatureResolver.RefusedIff` | crates/authn/src/ed25519_resolver.rs:69-104 | Exactly which check refuses a credential. |
| `SignatureResolver.ResolvedIsUntampered` | crates/authn/src/ed25519_resolver.rs:77-82 | If a signature of one text verifies no other, a request resolved under the signer's key carries exactly the headers, trace id and timestamp that were signed. |
| `SignatureResolver.InjectedIsRefused` | crates/authn/src/ed25519_resolver.rs:29-38 | Every request with the injected headers has its signature in order and is refused by every receiver, for want of an organization header. |
| `SignatureResolver.ResolvedWasNotInjected` | crates/authn/src/ed25519_resolver.rs:69-104 | No credential that a receiver resolves has the payload of an injected projection, whatever was changed or added on the way. |
| `SignatureResolver.OrgIdAloneResolves` | xtask/src/control_plane/curl.rs:52-68 | For every organization and key with valid names, a request that signs the organization header alone is resolved. |
| `SigningKeys.RotateEntries` | crates/control-plane/src/signing_key.rs:269-299 | Fails if and only if the key is unknown or not active; otherwise the key is usable exactly until now plus grace, other entries are unchanged, the new entry comes last and as many keys are active as before. |
| `SigningKeys.RevokeEntries` | crates/control-plane/src/signing_key.rs:305-317 | Nothing to do if and only if the key is unknown or revoked; otherwise it is usable at no time and other entries are unchanged. |
| `SigningKeys.UnusableForGood` | crates/control-plane/src/signing_key.rs:181-187 | Over every run of generations, rotations and revocations, a known key that is unusable at a time is unusable at every later time. |
| `SigningKeys.ExpiryNeverMoves` | crates/control-plane/src/signing_key.rs:196-199 | Over every run, a rotating key keeps its expiry or is revoked. |
| `SigningKeys.RunMirrors` | crates/control-plane/src/signing_key.rs:190-199 | Over every run, the expiry field is the rotation's expiry while rotating and empty otherwise. |
| `SigningKeys.RotationsKeepActiveCount` | crates/control-plane/src/signing_key.rs:269-299 | Over every run of generations and rotations, the number of active keys grows by the generations alone. |
| `Pipeline.EvaluatePipeline` | crates/proxy-core/src/pipeline.rs:45-258 | The phases, with their early returns, yield the specified outcome, of which the rows below say what it is; whatever is forwarded is justified and whatever is denied by policy was identified, routed and denied by the engine. |
| `Pipeline.Admitted` | crates/proxy-core/src/pipeline.rs:65-167 | A request that is not turned away has the identity its credential proves, in its own tenant or in the organization it asked for and is a member of; if it is not public there is one, with a tenant if memberships are resolved. |
| `Pipeline.EvaluateIsJustified` | crates/proxy-core/src/pipeline.rs:169-258 | A forwarded request carries that identity, its flags, the matched route with an open gate, and the engine's record and verdict; under enforcement the engine allowed it. |
| `Pipeline.EngineDecides` | crates/proxy-core/src/pipeline.rs:191-227 | A request forwarded with an identity on a route was put to the engine with its principal, action, resource, tenant, groups, address and claims: under enforcement the engine answered and allowed it, under observation the effect and record are its answer, a failing engine counting as denial without record. |
| `Pipeline.EngineDenies` | crates/proxy-core/src/pipeline.rs:208-218 | Under enforcement a request is denied by policy, with 403 and its action, if and only if it is identified and routed and the engine denies or fails. |
| `Pipeline.OwnPaths` | crates/proxy-core/src/pipeline.rs:55-63 | The health path always, and the debug path in debug mode, are answered by the proxy itself. |
| `Pipeline.RefusedIff` | crates/proxy-core/src/pipeline.rs:65-167 | Exactly which requests are turned away before routing, with 401, 400, 403 or 500, in terms of resolver, header and membership; members are not. |
| `Pipeline.RoutedIff` | crates/proxy-core/src/pipeline.rs:169-258 | What becomes of the others by route, default policy and gate: the gate is open if and only if the flags evaluated for tenant, user and groups switch it on. |
| `Pipeline.EnforceIsObserveCarriedOut` | crates/proxy-core/src/pipeline.rs:195-227 | The enforced outcome is the observed one with its verdict carried out, equal in everything else; enforcement denies by policy if and only if observation reports that it would. |
| `Pipeline.QuestionIsTenanted` | crates/http/src/query.rs:19-47 | Every query put to the engine is built from validated names, and has a tenant if the request is not public and memberships are resolved. |
| `Pipeline.QuestionsShareKeyIff` | crates/authz/src/engine.rs:139-149 | The engine refuses a query if and only if it has no tenant; of any two others, through any proxies, the cache keys agree if and only if principal, action, displayed resource, tenant and groups do, and with the same resource in full so do the requests. |

## Left out

- DynamoDB, Redis, HTTP and async plumbing: only atomic transactions, consistent reads of the counter and expiring keys are modelled; the backoff between attempts has no effect on the table.
- Event queries read committed state; the code does not ask for consistent reads there, so a real page may lag behind.
- Ed25519, base64, PEM and JWT: signing and encoding are functions with the laws that what is signed verifies and what is encoded decodes; nothing is said about forging. The key store of the receiver is a function of organization and key id.
- The order of groups in an engine request, which its entity list does not give a meaning, and failures of its builders.
- Route matchers, flag evaluation, identity chain, policy engines and `fold_events`: parameters of the pipeline or not part of this model.
- TieredCaches.AnswersAreRecentEvaluations: delays of writes and replies are measured, not bounded, because the code bounds neither; the shared store's hit, miss and error counters are not modelled.
- The tiered cache is modelled as steps over values, since its reads and writes interleave between instances; the object with its fields is modelled for the in-memory cache only.
- AuthzCaches.AuthzCache.Get: a poisoned lock, which makes the code miss without counting, and wrap-around of the 64-bit counters are not modelled; the lock makes each operation one step.
- `append` and `append_with_delete` are modelled as steps over values rather than as loops over an object, since the calls interleave; serialization of items and replies that fail to parse are part of a failed client.
- SignedRequests.SignedRoundTrip: strings are sequences of characters, so slicing a header value is per character where the code slices bytes.
- SigningKeys: time is an integer without the range of the date type; storing key lists through the event log is not part of this model.
- Pipeline.EvaluatePipeline: bodies are values, not JSON text, and the health and debug bodies are parameters.
- `OrgUnit::try_new`, `PrincipalSet::try_new`, `add_member`, `remove_member` and `DelegationChain::try_new`: single checks; what they ensure is what `ValidUnit` and the `requires` on links say.
- `OrgStatus`, `Percentage`, `HttpMethod`, configuration parsing, CORS, etags, the command line: one-branch facts or I/O.
- `VpFgrn`, beyond the text it gives a principal, and the signing code under `xtask`: a legacy type, and a copy of the code modelled here.
