# Zanguard check engine and in-memory store: a Dafny model

Zanguard answers permission checks over relation tuples, tenant by tenant, in the style of Zanzibar. This
project models its check engine, its in-memory store, its schema compiler and validator and its tenant
lifecycle, and proves what they promise.

## What is modelled

**The check walk** (`Walk.dfy`, `Engine.dfy`). Seven mutually recursive walkers share one mutable visited
set over a possibly cyclic tuple graph, with a depth limit and short-circuiting. `Engine.dfy` has the walkers
as methods over a class `VisitedSet`, with the source's loops and early returns; each is proved equal to a
function in `Walk.dfy` that threads a `Trail` (visited set, number of store calls, successful visited lookups,
keys expanded). Every store call is answered from its own `View`, so a check may overlap writes, deletes,
expiry and status changes. Condition texts are uninterpreted: `compiles` says which compile, `holds` what
each yields.

**The meaning of a schema** (`Rules.dfy`). Rewrite rules over a set of tuples and their least fixed point,
`Granted`, which mention no visited set, depth or order. Because exclusion is not monotone, the rules take two
sets of facts: one read by ordinary children and one read by excluded children.

**The two agree** (`Reach.dfy`, `Bracket.dfy`, `Complete.dfy`, `Root.dfy`, `Limits.dfy`, `Checks.dfy`,
`Changes.dfy`). Soundness, exactness, the bracket for checks that overlap writes, the depth bound, and
monotonicity. A definition is *linear* when every child of an intersection except the last is a leaf and every
exclusion consists of leaves; a leaf is an inline condition, or a relation none of whose live usersets names a
permission. Where definitions are linear an allow inside the walk always reaches the root, so while a walk is
denying every finished key is a true deny. Only the definitions a check can reach have to be linear, and its
root may do more: nothing has been visited before its children, so it may have one non-leaf anywhere in an
intersection and any base in an exclusion.

**Where they differ** (`Limitations.dfy`, `Linearity.dfy`, `Contexts.dfy`). The walk answers "deny" on a second
visit even when the first visit allowed. Six families of inputs show what that costs: an intersection of two
arrows denies a granted request, an exclusion of an arrow allows an ungranted one, a key collision denies a
granted one, a granted document is denied when its folders exclude a leaf from an arrow, or intersect an arrow
with a leaf after it, and a union denies a granted request when an inline condition reads the request context,
which usersets drop. So neither clause of linearity can be dropped below the root, nor can the hypothesis on
inline conditions. Soundness asks less: only the excluded children have to be leaves.

**The store** (`StoreSpec.dfy`, `Store.dfy`, `Runs.dfy`). `Store.dfy` keeps the source's per-tenant maps and
updates slices in place (regrant over an expired slot, append, delete by shifting); each method is proved to
take the step `Runs.Apply` describes on its own tenant and to leave all others as they were. The source holds
one lock for each method body, so a run is a sequence of steps with clock readings. Over runs: the
representation invariant, replay of the changelog, visibility, non-interference, lifecycle.

**The rest.** `Compiler.dfy` and `Text.dfy` (compiling and validating schemas, string handling), `Keys.dfy`
(printed keys), `Expiry.dfy` (time to live), `Paging.dfy` (changelog cursors), `Registry.dfy` (loaded schemas,
and a check around its walk), `Isolation.dfy` (whole checks and other tenants), `Service.dfy` (accepted
schemas on the store), `Answers.dfy` (whole checks on the engine), `Attributes.dfy` (what conditions see),
`Effects.dfy` (what each step does), `Meaning.dfy` (what a compiled schema means to its author).

`dafny verify dfyconfig.toml` checks the whole project.

Every lemma is marked `{:induction false}` and spells out its recursive calls. Under Dafny 4.11 the hypotheses of
automatic induction assume that the functions in a precondition are well formed at values of every type, from
which some false statements about recursive functions follow, so no proof here may rest on them.

## Where code and documentation disagree

The model follows the code.

- `docs-site/docs/examples/group-membership.md:207-228` describes nested groups. The code gives a userset whose
  relation is not a permission one direct lookup and goes no further (`pkg/engine/check.go:220-231`).
- `docs-site/docs/multi-tenancy/lifecycle.md:55-56` says that purging needs a writable tenant. The in-memory
  store checks no status (`pkg/storage/memory/store.go:592-608`).
- The comment in `pkg/tenant/manager.go:16` says that tenant ids have 3 to 128 characters, and the error text
  in line 32 shows `{1,126}`. The expression in line 17 also accepts two characters.
- `docs-site/docs/api/management.md:805` calls the changelog append-only; a purge empties it and restarts its
  numbering (`pkg/storage/memory/store.go:605-606`).

## Model

| member | source | states |
|---|---|---|
| Checks.CheckExact | pkg/engine/check.go:33-290 | Over any finite store, cyclic ones included, an error-free check allows if and only if the request is in the least fixed point of the rules and the root condition allows, provided the schema is linear on some nodes that enclose the check; the root itself may have one non-leaf anywhere in an intersection and any base in an exclusion, and its condition may read the request context |
| Checks.UnionCheckExact | pkg/engine/check.go:63-82 | The same for every schema of resolve, union and arrow, without a linearity hypothesis: the shared visited set never causes a wrong deny |
| Checks.ConcurrentCheckBracketed | pkg/engine/check.go:187-256 | With the store changing between calls, under the hypotheses of the exactness theorem: an allow is derivable from tuples visible at some call, and an error-free deny rules out every derivation from tuples visible at every call, excluded children read the other way round |
| Checks.ConcurrentPositiveCheckBracketed | pkg/engine/check.go:187-256 | Without exclusion the bracket is between two least fixed points |
| Checks.AllowIsSound | pkg/engine/check.go:41-141 | With exclusion too, as long as every excluded child in reach is a leaf and keys tell nodes apart (bases and intersections arbitrary), an allow passes the root condition and has a finite derivation from tuples visible at some call, excluded children read in those visible at every call; a non-empty path is one entry and names a live direct tuple of the requested subject |
| Checks.SteadyAllowIsSound | pkg/engine/check.go:41-141 | Under the same hypotheses, on a steady store, an allow is granted by the rules |
| Checks.AllowIsDerived | pkg/engine/check.go:41-106 | Without exclusion, whatever the visited set and the depth limit do, allow implies a finite derivation; a non-empty path is one entry and names a live direct tuple of the requested subject |
| Checks.ConcurrentRevisitFreeBracketed | pkg/engine/check.go:46-141 | A run without a successful visited lookup is bracketed for all four operators while the store changes |
| Checks.RevisitFreeExact | pkg/engine/check.go:46-141 | A run without a successful visited lookup decides as plain recursive evaluation does, exclusion included, at the depth of the limit and at every greater one |
| Checks.DepthLimitUnneeded | pkg/engine/check.go:41-49 | With N keys reachable, a limit of N-1 is never exceeded, at most N keys are expanded, each once, and a higher limit changes nothing |
| Checks.DepthLimitForStore | pkg/engine/check.go:41-43 | A limit of stored tuples times permission names always suffices |
| Checks.FiniteKeys | pkg/engine/check.go:27-30 | A finite set of nodes has at most as many visit keys |
| Changes.GrantsMonotone | pkg/engine/check.go:63-106 | Wherever checks are exact and nothing in reach is excluded, more tuples, more children of a union or fewer of an intersection never revoke an allow |
| Changes.OrderIndependent | pkg/engine/check.go:201-288 | Wherever checks are exact, exclusion included, the order of children and of stored tuples, and repetitions, do not change the decision |
| Checks.OnlyExpectedFaults | pkg/engine/check.go:51-60 | On a readable tenant and a known permission only the depth limit and conditions can fail |
| Checks.CheckAnswers | pkg/engine/engine.go:133-155 | With a readable store, working conditions and a depth limit that suffices for the keys in reach, every check of a known permission is answered |
| Checks.ErrorsSurface | pkg/engine/check.go:72-76 | An error of the store or of a condition in the first child, and an operation without a name, is the answer of the check, not a deny |
| Checks.LookupErrorSkipped | pkg/engine/check.go:221-231 | The error of looking up a userset that names no permission counts as no tuple |
| Checks.AllowNamesTuple | pkg/engine/check.go:191-193 | Where only tuples can allow, every allow carries the text of a live direct tuple for the requested subject |
| Bracket.PermissionBracket | pkg/engine/check.go:33-61 | Invariant of a walk in the middle of a check: an allow is derivable from what was seen at some call, and a deny met without revisits refutes what was seen at every call |
| Bracket.ExclusionBracket | pkg/engine/check.go:109-141 | The same for the base and the excluded children of an exclusion |
| Bracket.SubBracket | pkg/engine/check.go:201-242 | The same for the loop over usersets or arrow targets |
| Complete.PermissionComplete | pkg/engine/check.go:46-49 | A denying walk leaves its key visited, and every key it finished is refuted: no rule derives it from unvisited nodes |
| Complete.ExclusionComplete | pkg/engine/check.go:109-141 | A denied exclusion of leaves is refuted and leaves the visited set as it was |
| Complete.RefutedUnderivable | pkg/engine/check.go:46-49 | When all visited keys are so refuted, none is derivable at any depth |
| Complete.LeafKeeps | pkg/engine/check.go:220-231 | Evaluating a leaf does not change the visited set |
| Roots.RootRefuted | pkg/engine/check.go:85-141 | A check whose walk denies leaves its root underivable, also when the root intersects one non-leaf with leaves before and after it, or excludes leaves from a non-leaf |
| Roots.RootList | pkg/engine/check.go:85-106 | A denied root intersection has a leaf the rules refute, or everything visited is refuted |
| Reach.PermissionStays | pkg/engine/check.go:41-49 | A call at depth d that enters with d keys visited and its own key fresh stays among the reachable keys and, when these are few enough, never raises the depth error |
| Reach.SubStays | pkg/engine/check.go:213-240 | The loop over sub-requests, entered and left with more keys visited than its depth, stays among the reachable keys and, when these are few enough, raises no depth error |
| Limits.PermissionLimit | pkg/engine/check.go:41-43 | A walk that does not hit the depth limit is the same walk under every higher limit |
| Limits.PermissionExplained | pkg/engine/check.go:33-290 | Every error of a walk has its cause: a store that refuses, an operation without a name, or an inline condition that does not compile or fails; and where only tuples can allow, an allow has a path |
| Rules.GrantedIsFixedPoint | pkg/engine/check.go:63-141 | The reference meaning satisfies the rewrite rules exactly, for every schema whose excluded children are leaves |
| Rules.GrantedIsLeast | pkg/engine/check.go:63-141 | Every set of requests closed under the rules contains the granted ones |
| Limitations.IntersectionDeniesGranted | pkg/engine/check.go:85-106 | For every document, folder and user: an intersection of two arrows to one folder is granted by the rules and denied by the check |
| Limitations.ExclusionAllowsUngranted | pkg/engine/check.go:109-141 | An exclusion between two arrows to one folder is derivable at no depth and allowed by the check |
| Limitations.KeyCollisionDeniesGranted | pkg/engine/check.go:213-216 | A userset that prints like the folder being checked is skipped as visited, and a granted request is denied |
| Linearity.ArrowBaseDeniesGranted | pkg/engine/check.go:109-141 | For every document in two folders of one organisation: when a folder is an arrow minus a leaf, the document is granted through its second folder and denied by the check |
| Linearity.ArrowBeforeLeafDeniesGranted | pkg/engine/check.go:85-106 | The same when a folder is an arrow intersected with a leaf after it |
| Contexts.ContextDeniesGranted | pkg/engine/check.go:206-216 | For every document, folder, user, context and condition that needs it: a union of a userset and an arrow to one folder is granted by the rules and denied by the check, because the userset visit drops the context |
| WalkSpec.PermissionWalk | pkg/engine/check.go:33-61 | The visited set, the calls and the revisits only grow, each expansion adds one fresh key, and a deny carries no path |
| WalkSpec.RelationIgnoresContext | pkg/engine/check.go:206-212 | A relation, with everything walked behind its usersets, answers the same whatever request context the request carries |
| Engine.Engine.WalkPermission | pkg/engine/check.go:33-61 | The method with the shared mutable visited set answers, and leaves the visited set and the store calls, as the walk function does |
| Engine.Engine.WalkUnion | pkg/engine/check.go:64-82 | The first allowing child answers, children are walked in order |
| Engine.Engine.WalkIntersect | pkg/engine/check.go:85-106 | The first denying child answers; no children means deny |
| Engine.Engine.WalkExclusion | pkg/engine/check.go:109-141 | Base first, then the excluded children until one allows |
| Engine.Engine.WalkChild | pkg/engine/check.go:144-175 | Dispatch on the kind of reference; an inline condition that does not compile is an error |
| Engine.Engine.WalkRelation | pkg/engine/check.go:178-199 | Direct lookup, then usersets |
| Engine.Engine.WalkSubjects | pkg/engine/check.go:201-242 | The loop over subjects: visited ones skipped, plain relations looked up once and errors there ignored, request context dropped |
| Engine.Engine.WalkArrow | pkg/engine/check.go:246-259 | The objects of every matching tuple, usersets included |
| Engine.Engine.WalkTargets | pkg/engine/check.go:261-289 | The loop over targets, request context kept |
| Engine.Engine.Check | pkg/engine/engine.go:114-156 | Tenant gate, schema lookup, walk from an empty visited set, then the condition of the root permission only; the rows of `Answers` say what this means |
| Answers.GateFaults | pkg/engine/engine.go:115-136 | No tenant context, a deleted tenant, a pending tenant, an unknown schema mode, no loaded schema, an unknown permission: each fault occurs exactly in its case |
| Answers.ReadableCheckDecides | pkg/engine/engine.go:128-155 | On an active and on a suspended tenant the check is decided by the schema last loaded for it |
| Answers.RootConditionDecides | pkg/engine/engine.go:138-155 | A deny or an error of the walk stands; an allow becomes what the root condition yields on the object's attributes, the subject's attributes and the request context |
| Answers.WholeCheckExact | pkg/engine/engine.go:114-156 | An answered check of an active or suspended tenant on a steady store allows if and only if its schema grants the request and the root condition allows |
| Answers.CheckDecidedByLog | pkg/engine/engine.go:114-156 | After any run without external appends and any loads, an answered check in an accepted schema that is linear in reach allows exactly when the rules derive the request from the tuples the log last inserted, unexpired, and the attributes last set, and the root condition allows on the attributes last set |
| Answers.OverlappingCheckBracketedByLog | pkg/engine/engine.go:114-156 | A whole check that overlaps a run is bracketed in terms of the log: by what it had last inserted, unexpired, at the moment of some call and at the moment of every call |
| Answers.BracketTuplesLogged | pkg/storage/memory/store.go:220-301 | The bracketing tuples are those the log had last inserted, unexpired, at some call and at every call |
| Answers.BracketConditionsSet | pkg/engine/condition.go:19-36 | The bracketing conditions are read on the attributes last set before each pair of attribute reads |
| Engine.Engine.EvaluateCondition | pkg/engine/condition.go:14-48 | Two attribute reads, the object's and then the subject's, missing or failed ones read as empty, then the condition |
| Attributes.AttrsFollowRun | pkg/storage/memory/store.go:355-463 | After any run a condition sees, for an object and for a subject, the attributes of the last accepted step that set them since the last purge, and none if there is no such step |
| Attributes.AttributeKeyInjective | pkg/storage/memory/store.go:388 | For types without ':' no other object's or subject's attributes are set |
| Engine.Engine.LoadSchema | pkg/engine/engine.go:66-70 | From then on every context of that tenant in own or inherited mode finds the new schema, and every other context exactly what it found before |
| Engine.Engine.LoadSharedSchema | pkg/engine/engine.go:73-77 | From then on every context in shared mode with that reference finds the new schema, and every other context exactly what it found before |
| Registries.LastLoadDecides | pkg/engine/engine.go:66-111 | Over any sequence of loads a check uses the schema of the last load that serves its tenant and mode, and finds none exactly when no load does |
| Registries.LoadsDoNotInterfere | pkg/engine/engine.go:80-111 | Deleting the loads made for other tenants from any such sequence does not change which schema a tenant's check uses |
| Keys.VisitKeyInjective | pkg/engine/check.go:28-30 | Within one check, visit keys of types without ':' and permissions without '#' tell nodes apart, for arbitrary object ids |
| Keys.VisitKeyText | pkg/engine/check.go:28-30 | The exact text of a visit key, separators and order of fields included; a resolution path entry has the same form |
| Keys.IdentityKeyText | pkg/storage/memory/store.go:706-708 | The exact text of an identity key |
| Keys.IdentityKeyInjective | pkg/storage/memory/store.go:706-708 | A delimiter-free identity shares its key with no other identity |
| Keys.IdentityKeysCollide | pkg/storage/memory/store.go:706-708 | With a ':' in a field, distinct identities share a key |
| Tuples.Subjects | pkg/storage/memory/store.go:288-300 | The subjects listed are exactly those of the live tuples on the object and relation |
| Tuples.Targets | pkg/storage/memory/store.go:261-272 | One target per listed subject, in order, its relation dropped |
| StoreSpec.LiveIds | pkg/storage/memory/store.go:780-785 | Exactly the identities of tuples without an expiry or with one later than now |
| StoreSpec.WriteKeepsValid | pkg/storage/memory/store.go:638-691 | A write keeps identity keys distinct, expired ones included, and the log numbered without gaps |
| StoreSpec.DeleteKeepsValid | pkg/storage/memory/store.go:162-189 | So does a delete |
| StoreSpec.AppendKeepsValid | pkg/storage/memory/store.go:514-521 | So does an external append |
| StoreSpec.BatchIsSequential | pkg/storage/memory/store.go:656-691 | A successful batch leaves the same slice, log and counter as single writes in order under one clock reading |
| StoreSpec.WriteReplays | pkg/storage/memory/store.go:678-691 | After a write, in-place regrants included, replaying the log gives the stored tuples in stored order |
| StoreSpec.DeleteReplays | pkg/storage/memory/store.go:175-187 | After a delete, of an expired tuple too, replaying the log gives the stored tuples |
| StoreSpec.ReplayMembers | pkg/storage/memory/store.go:693-704 | A tuple is in the replay exactly when the last entry for its key inserted it |
| StoreSpec.VisibleExactly | pkg/storage/memory/store.go:233-245 | For every identity: visible if and only if the last log entry for its key is an unexpired insert of that identity |
| StoreSpec.VisibleIffLogged | pkg/storage/memory/store.go:233-245 | For delimiter-free identities: visible if and only if the last log entry for the identity is an unexpired insert |
| StoreSpec.GrantVisibleUntilExpiry | pkg/storage/memory/store.go:780-785 | Every grant of a batch, whatever its fields contain, is visible exactly until it expires, as long as no later log entry is about its key |
| StoreSpec.WriteKeepsLive | pkg/storage/memory/store.go:679-686 | A write only replaces tuples that have expired |
| StoreSpec.DeleteAddsNoLive | pkg/storage/memory/store.go:183-184 | A delete makes no identity visible |
| Expiry.WrittenGrantVisible | pkg/api/helpers.go:108-133 | For every tuple of a batch, the handler and the store reading the clock separately: with a time to live of s seconds (at most 86400) it is visible exactly before s seconds after the handler's reading, with an expiry time exactly before that, with neither always, until its next log entry |
| Expiry.ExpiryRefused | pkg/api/helpers.go:108-133 | A request is refused exactly for giving both a time to live and an expiry time, a time to live not from 1 to 86400, or an expiry time that does not parse |
| Runs.ReachableValid | pkg/storage/memory/store.go:638-704 | In every reachable state keys are distinct and every log is numbered 1 to seqCounter, after purges and external appends too |
| Runs.ReachableReplays | pkg/storage/memory/store.go:592-704 | In every state reachable without external appends, replaying a tenant's log gives exactly its stored tuples |
| Runs.CheckDirectFromLog | pkg/storage/memory/store.go:220-246 | What CheckDirect answers after any such run is whether the last log entry for the key inserted this identity, unexpired |
| Runs.TenantsDoNotInterfere | pkg/storage/memory/store.go:132-608 | Deleting every step of the other tenants from a run changes neither a tenant's data nor any answer it gets |
| Runs.StepFollowsLifecycle | pkg/tenant/manager.go:38-105 | Every step makes one lifecycle move (suspended is entered only from active), data of a tenant that is not active changes only by a purge, and reads change nothing |
| Effects.CreateEffect | pkg/tenant/manager.go:38-57 | Creating succeeds exactly for a valid, unused id and makes a pending tenant with the given id, name (the id if empty) and mode; otherwise nothing changes and each case has its error |
| Effects.ActivateEffect | pkg/tenant/manager.go:69-79 | Activating succeeds exactly for a known tenant that is not deleted and changes only its status, to active, and its update time |
| Effects.SuspendEffect | pkg/tenant/manager.go:82-92 | Suspending succeeds exactly for an active tenant and changes only its status, to suspended, and its update time |
| Effects.DeleteTenantEffect | pkg/tenant/manager.go:95-105 | Deleting succeeds exactly for a known tenant that is not deleted and changes only its status, to deleted, and its update time; the data is kept |
| Effects.TenantIdMatches | pkg/tenant/manager.go:17 | Valid ids are an end character, up to 126 inner characters and an end character |
| Effects.WritesNeedActive | pkg/storage/memory/store.go:728-742 | A write is refused exactly when the tenant is not active, with one error for each status; on an active tenant a batch succeeds exactly without a clash and a delete exactly if the identity is stored, live or expired |
| Effects.ReadsNeedReadable | pkg/storage/memory/store.go:744-753 | A read is refused exactly on an unknown or deleted tenant |
| Effects.WriteEffect | pkg/storage/memory/store.go:656-691 | A successful batch is stored exactly as given with tenant and times filled in, replaces only expired tuples with its keys, keeps all others, and is logged one insert a tuple in order |
| Effects.UpsertPlaces | pkg/storage/memory/store.go:678-686 | A regrant takes the slot of the tuple it replaces, a new grant comes last |
| Effects.DeleteEffect | pkg/storage/memory/store.go:175-187 | A successful delete removes exactly the tuple with the requested identity, keeps the order of the others and logs the removed tuple |
| Effects.DeleteHides | pkg/storage/memory/store.go:175-187 | Afterwards the identity is visible at no time, and every other identity as before |
| Effects.HiddenUntilGranted | pkg/storage/memory/store.go:175-187 | ... and stays invisible over any run until a write grants it again |
| Effects.AppendEffect | pkg/storage/memory/store.go:514-521 | An external entry is appended as given, with tenant, next number and a time if it has none |
| Effects.PurgeEffect | pkg/storage/memory/store.go:592-608 | A purge empties the data of any tenant, whatever its status, and leaves its record alone |
| Runs.DeletedIsAbsorbing | pkg/tenant/manager.go:69-105 | No run leaves deleted, and the data is retained until purged |
| Runs.InactiveDataFrozen | pkg/storage/memory/store.go:728-742 | Until it is activated a tenant that is not active keeps its tuples, attributes and log over any run without a purge |
| Runs.LogGrowsBetween | pkg/storage/memory/store.go:693-704 | Between two points of a run with no purge in between the log only grows at its end |
| Isolation.ChecksDoNotInterfere | pkg/engine/engine.go:80-156 | A whole check that overlaps a run, from loading its context over the tenant gate and the schema lookup to the root condition, answers the same, errors included, when every step of the other tenants and every schema loaded for them is deleted |
| MemoryStore.Store.WriteTuples | pkg/storage/memory/store.go:147-160 | Takes the write step on one tenant, no other tenant changes, the invariant is kept |
| MemoryStore.Store.WriteTuplesLocked | pkg/storage/memory/store.go:638-691 | A batch fails exactly when one of its keys is live or repeats, and then nothing changes; otherwise slice, log and counter are those of the specification |
| MemoryStore.Store.IndexKeys | pkg/storage/memory/store.go:643-655 | Splits the keys into exactly the live ones and the slots of the expired ones |
| MemoryStore.Store.StageBatch | pkg/storage/memory/store.go:656-676 | Copies the batch, or reports exactly the clashes |
| MemoryStore.Store.Overlay | pkg/storage/memory/store.go:678-686 | Overwriting expired slots and appending the rest equals putting the tuples in one at a time |
| MemoryStore.Store.AppendInserts | pkg/storage/memory/store.go:687-689 | Logs the staged tuples in order with consecutive numbers |
| MemoryStore.Store.AppendTupleChangelog | pkg/storage/memory/store.go:693-704 | Appends one entry with the next number |
| MemoryStore.Store.DeleteTuple | pkg/storage/memory/store.go:162-189 | Takes the delete step: first match removed by shifting, expired or not, and logged |
| MemoryStore.Store.AppendChangelog | pkg/storage/memory/store.go:501-523 | Takes the append step |
| MemoryStore.Store.PurgeTenantData | pkg/storage/memory/store.go:592-608 | Empties one tenant's data whatever its status, and no other tenant's |
| MemoryStore.Store.SetObjectAttributes | pkg/storage/memory/store.go:375-391 | Sets one object's attributes of one tenant |
| MemoryStore.Store.SetSubjectAttributes | pkg/storage/memory/store.go:447-463 | Sets one subject's attributes of one tenant |
| MemoryStore.Store.CheckDirect | pkg/storage/memory/store.go:220-246 | Answers from the live tuples without a subject relation, or the tenant's error |
| MemoryStore.Store.AnyLive | pkg/storage/memory/store.go:234-245 | The scan finds a live tuple exactly if there is one |
| MemoryStore.Store.ListSubjects | pkg/storage/memory/store.go:275-301 | The subjects of the live tuples in stored order |
| MemoryStore.Store.CollectSubjects | pkg/storage/memory/store.go:288-300 | The scan lists the subjects of the live matching tuples, each in its place |
| MemoryStore.Store.ListRelatedObjects | pkg/storage/memory/store.go:248-273 | The objects of the live tuples in stored order |
| MemoryStore.Store.CollectTargets | pkg/storage/memory/store.go:261-272 | The scan lists the objects of the live matching tuples, each in its place |
| MemoryStore.Store.ReadChangelog | pkg/storage/memory/store.go:525-549 | The contiguous slice of the log after the cursor, cut at a positive limit |
| MemoryStore.Store.ScanLog | pkg/storage/memory/store.go:538-548 | The scan by sequence number returns that slice |
| MemoryStore.Store.LatestSequence | pkg/storage/memory/store.go:551-565 | The length of the log |
| MemoryStore.Store.InitTenant | pkg/storage/memory/store.go:54-62 | Gives a tenant empty buckets without disturbing existing data |
| MemoryStore.Store.CreateTenant | pkg/storage/memory/store.go:66-82 | Adds a record once and keeps all data |
| MemoryStore.Store.GetTenant | pkg/storage/memory/store.go:84-94 | The record, or not found |
| MemoryStore.Store.UpdateTenant | pkg/storage/memory/store.go:96-107 | Replaces an existing record and keeps all data |
| MemoryStore.Store.CheckTenantWritable | pkg/storage/memory/store.go:728-742 | Only active tenants are writable |
| MemoryStore.Store.CheckTenantReadable | pkg/storage/memory/store.go:744-753 | Every known tenant that is not deleted is readable |
| MemoryStore.Manager.Create | pkg/tenant/manager.go:38-57 | Takes the create step: a valid, new id becomes a pending tenant |
| MemoryStore.Manager.Activate | pkg/tenant/manager.go:69-79 | Takes the activate step: any tenant that is not deleted becomes active |
| MemoryStore.Manager.Suspend | pkg/tenant/manager.go:82-92 | Takes the suspend step: only active tenants |
| MemoryStore.Manager.Delete | pkg/tenant/manager.go:95-105 | Takes the delete step: data retained, a second delete is an error |
| MemoryStore.Execute | pkg/storage/memory/store.go:66-608 | Any run of calls on an empty store and its manager ends, tenant by tenant, in the state the state machine says, and every call gets the reply it says |
| Paging.PagingIsExact | pkg/storage/memory/store.go:525-549 | Reading from the last returned number, with any positive limits, delivers a prefix of the growing log, every entry once and in order |
| Paging.PageExact | pkg/storage/memory/store.go:538-548 | A page holds the entries after the cursor in order, all of them without a positive limit and otherwise as many as it admits |
| Paging.PagingOverRuns | pkg/storage/memory/store.go:525-704 | The same over any run of the store without a purge after the first read |
| Paging.EmptyPageMeansCaughtUp | pkg/storage/memory/store.go:538-548 | An empty page means that the whole log has been delivered |
| Compiler.ParsePrinted | pkg/schema/compiler.go:131-150 | Parsing the printed form of a trimmed relation, arrow or condition reference gives the reference back |
| Compiler.ReparseExact | pkg/schema/compiler.go:131-150 | Whatever text was parsed, its reference printed and parsed again is the same reference if and only if it is not a relation named "condition:..." |
| Compiler.ParseSpaced | pkg/schema/compiler.go:133-149 | White space around the names of a reference does not matter |
| Compiler.ParseFails | pkg/schema/compiler.go:133-138 | Parsing fails exactly for an arrow with nothing but white space on one side of its first "->" |
| Compiler.AllowedTypeText | pkg/schema/compiler.go:66-73 | The type is the text before the first '#' and the relation all of the rest, or the whole text is the type and the relation is empty |
| Compiler.ParseRefs | pkg/schema/compiler.go:95-101 | The references parsed in order, or the first failure |
| Compiler.CompilePermission | pkg/schema/compiler.go:76-128 | Yields the permission that the rows of `Meaning` describe, or the error of the first step that fails: condition, operation, references in order |
| Meaning.CompilationFails | pkg/schema/compiler.go:79-125 | A permission is refused exactly when its condition does not compile, it has neither a relation to resolve nor a list, or a reference of the list that counts does not parse |
| Meaning.CompiledAsWritten | pkg/schema/compiler.go:88-125 | What compiles has the author's name, condition and operation, and the references of the list one for one and in order |
| Meaning.AcceptedMeaning | pkg/schema/compiler.go:88-125 | In an accepted schema `resolve` holds iff the relation does, `union` iff some written reference holds, `intersect` iff all do, `exclusion` iff the first does and no later one |
| Meaning.AcceptedRelations | pkg/schema/compiler.go:21-42 | Types, relations and allowed types of an accepted schema are the author's, each in its place |
| Compiler.Compile | pkg/schema/compiler.go:13-57 | Succeeds exactly when every permission compiles, and then compiles each type under its own name |
| Compiler.Validate | pkg/schema/validator.go:7-41 | Reports every complaint about a reference and nothing else |
| Compiler.ValidateRelations | pkg/schema/validator.go:11-28 | Every complaint about one type's relations and nothing else |
| Compiler.ValidatePermissions | pkg/schema/validator.go:31-37 | Every complaint about one type's permissions and nothing else |
| Meaning.ValidIffDeclared | pkg/schema/validator.go:7-61 | Validation has nothing to complain about exactly when every type, relation and permission that is used is declared |
| Meaning.ComplaintsNameCulprits | pkg/schema/validator.go:12-61 | Each complaint names the undeclared name and where it is used |
| Compiler.AcceptedWellFormed | pkg/schema/validator.go:43-61 | Every accepted permission is stored under its own name, has one of four operations, a child, and declared relation and arrow names only |
| Text.TrimSlice | pkg/schema/compiler.go:134-135 | Trimming keeps a slice without white space at either end, and all it cuts off is white space |
| Text.Index | pkg/schema/compiler.go:133 | The first occurrence, or -1 exactly when there is none |
| Service.AcceptedSchemaProgress | pkg/engine/engine.go:128-155 | With an accepted schema, a readable tenant and a known permission, a check fails only by the depth limit or a condition |
| Service.WriteRevokesNothing | pkg/storage/memory/store.go:638-691 | A successful write revokes no allow, wherever checks are exact and nothing in reach is excluded |
| Service.DeleteGrantsNothing | pkg/storage/memory/store.go:162-189 | A delete creates no allow there |
| Service.TimeGrantsNothing | pkg/storage/memory/store.go:780-785 | Expiry creates no allow there |
| Answers.DeletedNeverAllows | pkg/engine/engine.go:120-122 | Once a delete of the tenant has replied success, every check whose context is loaded later ends in the deleted error, whatever happens in between |
| Answers.NeverActivatedNeverAllows | pkg/engine/engine.go:124-126 | A check for a tenant that was never activated never allows |

## Left out

Contracts stated for fewer inputs than one might wish:

- Checks.CheckExact: linearity in reach is sufficient, not necessary; whether another schema meets a visited key after an allow depends on the whole tuple graph. `Linearity` and `Limitations` show that no clause of it can simply be dropped below the root, and `Checks.RevisitFreeExact` covers every schema on runs without revisits.
- Checks.CheckExact: the inline conditions in reach are taken not to depend on the request context, because the visit key carries none and usersets drop it (`Contexts.ContextDeniesGranted`); conditions of whole permissions are not restricted. The store is steady during the check (see `Checks.ConcurrentCheckBracketed` for the other case).
- Checks.AllowIsSound: leaf-only excluded children are sufficient, not necessary, for the same reason; `Limitations.ExclusionAllowsUngranted` shows that the hypothesis cannot simply be dropped.
- Checks.ConcurrentCheckBracketed: same hypotheses on schema, keys and inline conditions as `Checks.CheckExact`; the condition of the root permission is read at its own two calls.
- Changes.GrantsMonotone: compares two error-free checks; a condition error or too low a depth limit can hide either answer.
- Changes.OrderIndependent: compares two error-free checks, because the order decides whether a failing condition is reached; the base of an exclusion keeps its place.
- StoreSpec.VisibleIffLogged: needs a delimiter-free identity; `StoreSpec.VisibleExactly` has the condition for all identities.
- Runs.ReachableReplays: excludes external `AppendChangelog` calls on the tenant, which log what is not stored.
- MemoryStore.Execute: a direct lookup names no subject relation, as in the source's signature.
- Engine.Engine.Check: starts its own count of store calls at zero, one `Feed` for each check.
- Compiler.ParsePrinted: names and conditions are trimmed and contain no "->" where the parser looks for one, and relation names do not start with "condition:"; `Compiler.ReparseExact` has the exact condition for everything the parser returns.

Not modelled:

- The PostgreSQL store: the database's transactions, indexes and clock decide what it does.
- Compiling and running condition expressions; attribute values other than strings; the difference between an absent and an empty request context.
- YAML decoding, schema version, hash and attribute declarations; RFC 3339 parsing is a parameter of `Expiry.TupleExpiry`.
- HTTP handlers, JSON, logging, server start-up and the revival of tenants at bootstrap.
- Concurrency inside a `Manager` call: its read and its update are two lock sections in the source and one step here.
- The error of store methods called without a tenant in their context; the tenant id is a parameter here.
- Several clock readings inside one store method are one reading.
- `Expand`, `ReadTuples`, `CountTuples`, `ExportTenantSnapshot`, tenant and attribute listings, `CheckDirectCrossTenant`, resolver chain and configuration merging: they add only easy members or are not used by checks.
- Tuple fields subject tenant, source system and external id, entry fields actor and metadata, and tenant configuration and parent: nothing modelled reads them.
- Wrap-around of the 64-bit sequence counter and of time arithmetic; numbers are unbounded here.
- Tenant records with a status outside the four named ones.
- The visited map only ever holds true, so it is a set here; the source's loops inside `walkRelation`, `walkArrow` and `writeTuplesLocked` are methods of their own.
- In-place overwriting of a shared backing array: slices are values here, which no caller can tell apart because the store never hands out its slices.
