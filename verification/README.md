# Verified model of wg-vpng

wg-vpng hands out WireGuard devices. A server keeps interfaces, groups, devices and users in a
database, decides which devices are permitted on which interface, allocates their addresses,
renders their configuration files and makes each interface's backend (a MikroTik router, local
tools, a remote node) hold exactly the permitted devices. This project models that decision logic
in Dafny and proves what it keeps, over every input, every router state and every run of handlers.

`dafny verify dfyconfig.toml` checks everything. Files by subject:

- Access-list matcher: `Glob` (the loop and its step bound), `GlobAgreement` (where it meets the
  documented semantics).
- Addresses: `Cidr`, `Tokens` (what splitting and trimming do), `AddressTexts`, `HostAllocator`, `SubnetAllocator`, `LeaseRuns` (runs of both
  allocators), `LeaseTexts` (the same runs on the stored strings), `Ipv6Default`.
- Database and handlers: `Store` (tables and writes), `StoreFacts` (one access rule, constraints),
  `Acceptance` (which writes are refused), `Ledger` (the tables say what the operations said),
  `Entitlement` (who may be on which interface, from the operations to the backends),
  `Reconcile` (write, then sync), `Frames`, `ReconcileRuns`, `Convergence`, `SyncFrames` (runs),
  `FailingSyncs` (what handlers achieve when backends fail), `AccessChanges` (when bans, revocations,
  deletions and group edits take hold), `Targets` (what backends hold over runs, with or without an
  interface that still uses them), `Service` (the handlers as methods that change state).
- MikroTik: `RouterTables` (the router), `Router` (requests that can get lost), `RouterPeers`,
  `RouterApply`, `RouterRows`, `RouterRequests` (what an apply means), `MikrotikClient` (the client,
  request by request), `EndToEnd` (from the access rule to the router), `SharedRouter` (several
  interfaces on one router).
- Histories: `ConfigHistory` (the staleness flag over runs), `IssuedFiles` (what the flag says about
  the file a user holds), `SecretHistory` (stored backend secrets).
- Texts: `ClientConfig`, `ClientText` (the device file and its reader), `TextBackends`,
  `TextRenderers`, `DesiredText`, `InterfaceTexts` (the three text backends and their readers),
  `Ini`, `Strings`, `Filenames`.
- `Sequences`, `Arithmetic`, `BackendTypes`, `Wrappers`: shared definitions.

State that the program changes in place is a class: `MikrotikClient.Client` works on a
`Router.Device`, and `Service.Server` holds the tables. Their methods are proved equal to functions
(`RouterApply.Apply`, `Reconcile.Step`), and the theorems are about those functions. Every handler of
`Service.Server` keeps `Valid()`, the run invariant, and promises which interfaces hold exactly what
is permitted when it returns. The matcher,
the two allocators, the renderers and `SanitizeFilename` are loops with invariants.

## How the model is set up

- A handler is one atomic step: it writes the database and then syncs the interfaces it names. What
  each sync or removal will meet (it goes through, the backend cannot be built, it fails and leaves
  something) is a parameter called weather, so failing backends are part of every run. So are
  restarts of the server.
- A backend is addressed as the program does it: by its connection (a local tool, or the URL of a
  router or node without the slashes that end it) and the interface's name. The pair is called a
  target. What a target was last given stays with it when the interface's row goes or moves.
- `settled` is a history variable: for each interface whose latest planned sync went through, the
  login facts (clock, deadlines, captured groups) that sync saw. It steers nothing.
- The functions that methods are proved equal to are not left to speak for themselves. What the
  handlers write is compared, over runs, with a book of the accepted operations (`Ledger`); what the
  renderers and the client write is compared with what a reader or the router's tables say; and
  trimming, splitting, case, address families and URLs are characterised character by character.
- Router requests may be lost before or after taking effect; the ghost counter `lost` counts the
  failed ones. The router keeps rows in insertion order with ids from one counter, as the
  repository's own stand-in (`tests/fake-mikrotik.py`) does. A second peer row with the same key on
  the same interface is a legal router state.
- Encryption is a pair of functions; where it matters it is required that decryption undoes it and
  that ciphertexts are not empty. Keys, ids and nonces are parameters of the operations. A new group
  id is required not to be listed by an interface yet, which a random id is not.
- Addresses are a family and a number below 2^32 or 2^128; a network keeps its host bits, as the
  network library of the program does. `Network`, `Broadcast`, `Contains`, host ranges and
  subdivision follow section 3.1 of RFC 4632 and section 2.3 of RFC 4291.

## Where the code and its documentation part

The model follows the code. Each difference below is a theorem.

- "`*` for everyone" (repository README line 16): the loop tests for a literal byte before it tests
  for `*`, so a pattern `*` rejects every text of two or more bytes that starts with `*`
  (`EveryonePattern`). In general a text is judged as documented under all patterns exactly when it
  has no `*`, and a pattern judges all texts as documented exactly when it has none
  (`TextJudgedCorrectly`, `PatternJudgesCorrectly`). What the matcher accepts always matches.
- "Ban drops devices" (README line 31): user-level changes sync all interfaces in turn and stop at the
  first failure. `UserChangeTakesHold` says for every converged interface what a ban, a revocation, a
  deletion of a user or a reversal does there: if the sync got that far and applied, it always takes
  hold; if it did not get that far, or that interface's own backend cannot be built, exactly when it
  does not change whether the user has an active device there, and no error is recorded; if applying
  failed there, exactly when what remains is what is permitted. `DropTakesHoldIff` is the short form.
- "Granted and revoked in real time" (README line 19): a group edit reports success whatever its syncs
  do. `GroupEditTakesHold` says for every converged interface when the edit takes hold.
- "Deactivated devices drop until they log in again" (`server/src/store.rs:245-247`): a deadline that
  passes syncs nothing, and neither does the login that revives the user. In every run an interface
  that synced holds something else than what is permitted exactly when, for some device, the owner has
  expired, has been revived, or has gained or lost admission by captured groups since that sync
  (`BackendLagsLogins`; `ExpiredStayUntilSync` for runs without logins).
- Deleting an interface "tears it down on its backend" (`server/src/store.rs:478-479`), and its backend
  settings "may be updated in place" (`server/src/store.rs:401-403`). A removal that fails is not
  noticed, and a changed URL leaves the old router as it is. `OrphansIff` says over runs exactly which
  events leave something on a target that no interface uses: such a removal or such a change, as long
  as no later interface of the same name is on the same connection. `UntakenIsUnreached` and
  `UnwantedStaysIff` say how long it stays: until a sync or removal reaches the target, which takes
  such an interface, and not longer. `CreationClears` is the simplest way.
- A host allocation avoids only the listed address of a carved block, not the block. Carving and then
  adding a device on a fresh subnet hands out an address inside the carved block
  (`CarveThenHostCollides`; `HostStepStaysDisjoint` says, from the state before the call, exactly when
  a host allocation keeps all leases disjoint).
- Forcing IPv6 into a specification with a token that does not parse appends the default again on
  every call (`ForcingTwice`: it settles exactly when all tokens parse).
- The staleness flag counts updates, not differences. A file is right when endpoint, DNS, allowed IPs
  and keepalive, as rendered, are what they were at the last key generation, and unless one of them
  holds a line break only then (`FileIsRight`); an update that is undone leaves the flag up on a right
  file (`RevertedUpdateKeepsFlag`).
- The flag says nothing about delivery either: when the sync after creating or regenerating a device
  does not apply, the new key is stored, the file is lost and no flag is up. A device's last file was
  handed out exactly when the sync of its last generation applied (`GenerationDelivers`,
  `DeliveryIsKnown`).
- "Reconcile the full peer set" (`wg-backend/src/lib.rs:83-85`): surplus router rows with a desired key
  are left as they are. The rows end up as exactly one correct row per desired key if and only if no
  desired key had two rows before (`RowsExactIff`, `SurplusRowsStay`).
- A keyfile separates addresses with `;`, which the program's own splitting does not: of the three text
  formats it alone would lose an address that holds one (`SameDesiredState`, an if-and-only-if). This
  is about the renderer as a function; the addresses the program stores are printed networks and hold
  none.

## Model

| member | source | states |
|---|---|---|
| `Glob.GlobMatch` | `server/src/store.rs:122-146` | the two-index loop answers exactly like the recursive literal-first semantics on every pattern and text, within (text+1)*(pattern+1) iterations |
| `Glob.ScanText` | `server/src/store.rs:126-142` | the main loop alone: no match, or the pattern position from which only `*`s may remain; its iterations are paid for by a falling potential |
| `Glob.EarliestStretch` | `server/src/store.rs:133-137` | a stretch laid on the text at the mark ends no later than in any match starting at or after it |
| `Glob.NewStarSubsumes` | `server/src/store.rs:130-137` | forgetting the previous `*` when a new one is met never loses a match |
| `Glob.PotentialFalls` | `server/src/store.rs:126-141` | every kind of iteration lowers the potential although both indices move backwards |
| `GlobAgreement.Sound` | `server/src/store.rs:121-146` | for all texts: what the matcher accepts matches under the documented glob semantics |
| `GlobAgreement.Complete` | `server/src/store.rs:121-146` | for texts without `*`: whatever matches is accepted |
| `GlobAgreement.CompleteWithoutWildcard` | `server/src/store.rs:127-129` | for patterns without `*`: whatever matches is accepted, whatever the text |
| `GlobAgreement.TextJudgedCorrectly` | `server/src/store.rs:127-130` | all patterns judge a text as documented if and only if it has no `*` |
| `GlobAgreement.PatternJudgesCorrectly` | `server/src/store.rs:127-130` | a pattern judges all texts as documented if and only if it has no `*` |
| `GlobAgreement.EveryonePattern` | `server/src/store.rs:122-146` | `*` accepts every text but those of two or more bytes that start with `*` |
| `GlobAgreement.EmailAdmitted` | `server/src/store.rs:117-119` | an email without `*` is admitted exactly when some pattern, without the white space at its ends, globs it with every ASCII letter standing for itself in either case |
| `GlobAgreement.TrimIs` | `server/src/store.rs:119` | trimming a pattern removes the ASCII white space at its two ends and nothing else |
| `GlobAgreement.CaseOfEmailIsIdle` | `server/src/store.rs:118-119` | for every email, `*` or not, the case of its letters does not matter |
| `Cidr.OverlapLaw` | `server/src/wg.rs:194-198` | the overlap test is true exactly when the blocks share an address, and then one contains the other; never across families; host bits allowed |
| `Cidr.SharedMeansNested` | `server/src/wg.rs:194-198` | a common address puts the longer prefix inside the shorter |
| `Cidr.ContainsByPrefix` | `server/src/wg.rs:194-198` | an address is in a network exactly when it agrees with the network's on the prefix, of 32 or 128 bits |
| `Tokens.TrimIs` | `server/src/wg.rs:117-123` | trimming removes white space at the two ends and nothing else |
| `Tokens.CidrsAreLists` | `wg-backend/src/networkmanager.rs:81-84` | commas and spaces separate, and a text without them is one trimmed token, or none if blank |
| `Tokens.SubnetTokensAreLists` | `server/src/wg.rs:95-106` | the same with tabs as separators too |
| `Cidr.HostRangeCovers` | `server/src/wg.rs:139-142` | walking the host iterator and skipping its two ends visits exactly the addresses strictly between network and broadcast, for every prefix length |
| `Cidr.CandidatesCounted` | `server/src/wg.rs:139-142` | a block has size minus two candidates, none for sizes one and two |
| `HostAllocator.ListedAddresses` | `server/src/wg.rs:117-130` | the used set is exactly the addresses listed in the other devices' strings: split at commas and spaces, trimmed, cut at the slash, parsed; prefix lengths dropped |
| `HostAllocator.FirstFreeHost` | `server/src/wg.rs:138-150` | the lowest candidate not in use, or proof that all are in use |
| `HostAllocator.AllocateAddresses` | `server/src/wg.rs:128-155` | for each subnet in order the lowest candidate not listed, not a server address and not picked before; an error names the first subnet with none left |
| `HostAllocator.AllocationUnique` | `server/src/wg.rs:128-155` | that answer is the only one: the specification determines the result from subnets and device strings |
| `HostAllocator.PicksAreFresh` | `server/src/wg.rs:128-155` | the addresses handed out are new, pairwise different and strictly inside their subnets |
| `HostAllocator.EnoughCandidates` | `server/src/wg.rs:128-155` | pigeonhole: with more candidates in the i-th subnet than addresses in use plus i the call succeeds |
| `HostAllocator.ExhaustedByCount` | `server/src/wg.rs:145-150` | a subnet has none left exactly when as many of its candidates are in use as it has |
| `HostAllocator.DisjointSubnetsCapacity` | `server/src/wg.rs:128-155` | for subnets that do not overlap the call fails exactly when some subnet was full before the call |
| `SubnetAllocator.ListedNets` | `server/src/wg.rs:205-209` | the taken set is exactly the networks that parse among the tokens of the other devices' strings |
| `SubnetAllocator.FirstFreeBlock` | `server/src/wg.rs:217-228` | the first block, in address order, without the server address and disjoint from everything taken |
| `SubnetAllocator.AllocateSubnet` | `server/src/wg.rs:204-231` | the first free block in subnet order then address order, none exactly when no fitting subnet has one |
| `SubnetAllocator.AllocationUnique` | `server/src/wg.rs:204-231` | that answer is the only one for the subnets, device strings and requested length |
| `SubnetAllocator.CarvedBlock` | `server/src/wg.rs:204-231` | the block is aligned, has the requested length, lies inside a subnet without its server address and shares no address with anything taken |
| `SubnetAllocator.CarveErrorIsFinal` | `server/src/wg.rs:204-231` | on an error no aligned network of that length in any subnet would have done |
| `SubnetAllocator.EveryAlignedNetIsABlock` | `server/src/wg.rs:213-221` | the blocks searched are all the aligned networks of the length inside the subnet |
| `SubnetAllocator.CarvingCapacity` | `server/src/wg.rs:204-231` | carving succeeds when nothing taken is larger than the block and a fitting subnet has more blocks than taken networks plus one |
| `LeaseRuns.RunsAreSafe` | `server/src/store.rs:555-585` | in every run of host allocations, carvings and deletions: no server address is handed out, listed addresses never repeat, and two leases overlap only if a block came first and a host later |
| `LeaseRuns.UniqueConstraintNeverFires` | `server/migrations/0001_init.sql:66` | an automatic insert always brings an address string no live device of the interface has, for any printing that can be read back |
| `LeaseRuns.PureRunsStayDisjoint` | `server/src/store.rs:555-585` | runs of only host allocations, or of only carvings, with deletions, keep all live leases disjoint |
| `LeaseRuns.HostLandsInBlock` | `server/src/wg.rs:115-150` | a pick lands in a block, wherever it lies, exactly when nothing of the subnet below the block is left and some candidate in it is not listed |
| `LeaseRuns.HostStepStaysDisjoint` | `server/src/wg.rs:115-155` | for any subnets: a host allocation keeps a disjoint state disjoint if and only if in no subnet the next free address, worked out before the call, falls into a carved block |
| `LeaseRuns.SeparateSubnetsTakeNoTurns` | `server/src/wg.rs:115-155` | for subnets that do not overlap that condition needs only what is in use before the call |
| `LeaseRuns.CarveThenHostCollides` | `server/src/wg.rs:117-155` | on any subnet whose first block lacks the server address, carving and then adding a device hands out an address inside the carved block |
| `LeaseRuns.CollisionExample` | `server/src/wg.rs:117-155` | a concrete run: server 10.8.0.200/24, a carved /28, and a device that lands inside it |
| `LeaseTexts.JoinedReadsBack` | `server/src/wg.rs:115-155` | addresses joined by a comma and a space split back into the same tokens |
| `LeaseTexts.TokenRead` | `server/src/wg.rs:117-122` | of any token the allocators read the whole as a network and what stands before its first slash, trimmed, as an address |
| `LeaseTexts.ShownReadsBack` | `server/src/wg.rs:143-147` | a network printed as address, slash and prefix length is one token, from which both parsers read it back |
| `LeaseTexts.AddDevice` | `server/src/store.rs:555-568` | allocate against the stored strings of the other devices and store the printed answer |
| `LeaseTexts.CarveDevice` | `server/src/store.rs:570-585` | the same for a carved subnet |
| `LeaseTexts.TextRunIsRun` | `server/src/store.rs:555-585` | every run on stored strings is, printed, a run on leases, as long as the parsers read back printed addresses and networks |
| `LeaseTexts.StoredAddressesUnique` | `server/migrations/0001_init.sql:66` | in every state of every such run the stored strings are pairwise different |
| `Ipv6Default.ForcedTokens` | `server/src/wg.rs:166-178` | every token is kept in order, and the default is added last unless all tokens parse and one is an IPv6 network |
| `Ipv6Default.ForcingWorks` | `server/src/wg.rs:157-178` | the result has an IPv6 network if and only if every token parses |
| `Ipv6Default.ForcingTwice` | `server/src/wg.rs:164-178` | a second call changes nothing if and only if every token parses |
| `StoreFacts.ListingAgreesWithCheck` | `server/src/store.rs:351-384` | an interface is listed for a user exactly when the access check for it says yes |
| `StoreFacts.ActiveAgreesWithCheck` | `server/src/store.rs:790-820` | an owned configured device is active exactly when its owner is neither banned nor revoked and passes that same check |
| `StoreFacts.ActiveFromListed` | `server/src/store.rs:790-820` | the active peers are an order-preserving part of the listed peers |
| `StoreFacts.LoginReplacesOwnProvider` | `server/src/store.rs:237-280` | after a login the user's groups are the new ones plus those of the other providers; other users' are as before |
| `StoreFacts.MutateKeepsValid` | `server/migrations/0001_init.sql:37-68` | every handler's write keeps foreign keys, unique ids, unique names of interfaces and groups, unique emails, unique address per interface and unique non-empty key per interface |
| `Acceptance.InsertAccepted` | `server/migrations/0001_init.sql:55-68` | a device is inserted if and only if the tables with its row keep every constraint |
| `Acceptance.RegenerationAccepted` | `server/src/store.rs:664-682` | new keys are accepted if and only if the device exists and the keys stay unique on its interface |
| `Acceptance.CreationAccepted` | `server/migrations/0001_init.sql:40-52` | an interface is created if and only if the tables with its row keep every constraint |
| `Acceptance.GroupAccepted` | `server/src/store.rs:188-214` | a group is added or replaced if and only if group names stay unique (and it was not, or was, there) |
| `Acceptance.OthersAccepted` | `server/src/store.rs:388-410` | every other handler is refused exactly when what it names is not there, or the backend's kind would change |
| `Ledger.DevicesFollow` | `server/src/store.rs:602-702` | every handler: the device rows are the requested devices, each with owner, interface, name, address and latest keys |
| `Ledger.AccountsFollow` | `server/src/store.rs:249-262` | every handler: users carry the flags last set and the deadline of the last login, in days from then |
| `Ledger.InterfacesFollow` | `server/src/store.rs:287-475` | every handler: interface rows carry the settings last supplied, address lists completed by the default IPv6 network, file names trimmed |
| `Ledger.TablesMatchBook` | `server/src/store.rs:188-788` | in every state of every run all tables say what the accepted operations said |
| `Entitlement.HeldIffEntitled` | `server/src/store.rs:786-852` | in every run: a backend that holds what is permitted holds exactly the devices entitled by the operations, as requested or last regenerated: unowned, or with an owner who is neither banned nor revoked, whose last login has not run out and whom a listed group lets in by email or captured group |
| `Entitlement.HeldInCreationOrder` | `server/src/store.rs:790-852` | and in the order in which they were created |
| `Entitlement.ListedIffLetIn` | `server/src/store.rs:351-364` | in every run: a user sees exactly the interfaces that let the user in, in order of creation, and none when not live |
| `Entitlement.CheckSaysLetIn` | `server/src/store.rs:366-384` | in every run: the access check says no to users who are not live, does not know missing interfaces, and else says whether a group lets the user in |
| `Frames.UnlistedGroupIsIdle` | `server/src/store.rs:150-158` | a group an interface does not list has no say in who is admitted to it |
| `Frames.GroupFrame` | `server/src/store.rs:200-233` | changing or deleting a group leaves the desired state of interfaces that do not list it as it was |
| `Frames.AppendFrame` | `server/src/store.rs:602-630` | a device without a key, or on another interface, changes no desired state |
| `Frames.RevisionFrame` | `server/src/store.rs:685-694` | a rename changes no desired state; a new key changes only that of the device's interface |
| `Frames.RemovalFrame` | `server/src/store.rs:696-702` | removing devices of other interfaces changes no desired state |
| `ReconcileRuns.WriteUndisturbing` | `server/src/api_mcp/endpoints.rs:261-361` | whatever the handler, an interface it does not plan to sync has the same desired state after its write, judged by the facts of its last sync |
| `ReconcileRuns.StepKeepsInv` | `server/src/store.rs:823-860` | every step with any backend failures keeps: settled interfaces hold exactly what is permitted as of their last sync |
| `ReconcileRuns.PushedIsPermittedAsOfLastSync` | `server/src/store.rs:790-860` | that invariant in every state of every run, with logins, time steps and failing backends |
| `Convergence.CalmRunsSettle` | `server/src/store.rs:823-860` | when backends answer, every existing interface is settled in every state of a run |
| `Convergence.PushedEqualsPermitted` | `server/src/store.rs:790-860` | with answering backends and no logins or time steps, what each interface's row addresses holds exactly its current active peers |
| `Convergence.DesiredDiffersIff` | `server/src/store.rs:790-820` | two states with the same device rows want different things of an interface if and only if they judge some device differently |
| `Convergence.BackendLagsLogins` | `server/src/store.rs:245-262` | in every run, for every interface whose latest planned sync went through: it holds something else than what is permitted if and only if some owner expired, was revived, or gained or lost admission since that sync |
| `Convergence.ExpiryNeverDropsPermitted` | `server/src/store.rs:366-372` | with time steps but no logins, every currently active peer is still on its backend |
| `Convergence.ExpiredStayUntilSync` | `server/src/store.rs:245-262` | and something else is on it if and only if a device active at the last sync has an owner whose login expired since |
| `Targets.SameTargetIff` | `server/src/backend/mod.rs:45-55` | two interfaces address the same thing exactly when their names and their connections (local tool, or URL up to slashes at its end) are the same |
| `Targets.UnreachedKeeps` | `server/src/store.rs:823-860` | one step changes what a target holds only if a sync or removal reached it |
| `Targets.ReachedHolds` | `server/src/store.rs:823-852` | what the one that reached it makes of it: the active devices, nothing, or what a failure leaves, whatever it held |
| `Targets.CreationClears` | `server/src/store.rs:285-345` | creating an interface whose sync applies empties its target, whatever an earlier interface of the same name left there |
| `Targets.OrphanStep` | `server/src/store.rs:386-491` | one step: something is left on a target without an interface exactly by a removal that did not clear it or a changed connection, or because it was there and no interface took the target |
| `Targets.OrphansIff` | `server/src/store.rs:386-491` | over runs: which event left what on a target that no interface uses, as an if-and-only-if, and what it is |
| `Targets.CalmOrphansWereMoved` | `server/src/store.rs:424-446` | with answering backends, what is pushed is what the interfaces' rows address and what changes of connection left |
| `Targets.UnreachedStays` | `server/src/store.rs:823-860` | over runs: while no call reaches a target it holds what it held |
| `Targets.UntakenIsUnreached` | `server/src/store.rs:478-491` | over runs: what is left behind stays as it is while no interface takes its target |
| `Targets.UnwantedStaysIff` | `wg-backend/src/mikrotik.rs:24-62` | over runs: a peer nobody using the target wants stays on it if and only if no sync and no removal reaches the target |
| `FailingSyncs.BestEffort` | `server/src/store.rs:862-877` | what becomes of an interface depends on its own sync only: converged, left alone, or left with what remains and a recorded error; one that is not listed is left alone |
| `FailingSyncs.AbortPoint` | `server/src/store.rs:854-860` | the aborting sync stops at the first interface that does not go through |
| `FailingSyncs.AbortingSync` | `server/src/store.rs:854-860` | interfaces before the failing one are converged, the failing one is as its own outcome says, later ones keep their old pushed state |
| `FailingSyncs.StepKeepsOthersConverged` | `server/src/api_mcp/endpoints.rs:485-629` | whatever the handler (logins and time aside) and the backends do, a converged interface it does not sync stays converged |
| `FailingSyncs.StepSyncsOne` | `server/src/api_mcp/endpoints.rs:261-361` | a handler that syncs one interface succeeds exactly when that sync applied, and then the interface is converged |
| `FailingSyncs.StepSyncsAll` | `server/src/api_mcp/endpoints.rs:751-788` | a handler that syncs all interfaces succeeds exactly when every sync applied, and then all are converged |
| `FailingSyncs.StepFate` | `server/src/api_mcp/endpoints.rs:261-361` | every handler, every outcome of every sync: when an interface that was converged is converged afterwards, and when it is left alone without a recorded error |
| `AccessChanges.GroupEditTakesHold` | `server/src/store.rs:200-233` | group edits report success whatever the syncs do; for every interface that was converged, when the edit takes hold there |
| `AccessChanges.UserChangeMatters` | `server/src/store.rs:758-788` | a ban, revocation, reversal or deletion changes an interface's desired state if and only if it changes whether the user has an active device on it |
| `AccessChanges.UserChangeTakesHold` | `server/src/api_mcp/endpoints.rs:751-788` | for every interface that was converged, before, at or behind the failing one, and for every outcome of its own sync: when it is converged after such a change, and when it is left alone without a recorded error |
| `AccessChanges.DropTakesHoldIff` | `server/src/api_mcp/endpoints.rs:751-788` | unless applying failed there: a ban, revocation or deletion takes hold if and only if every sync up to and including the interface's own applied or the user had no active device there |
| `SyncFrames.StepErrors` | `server/src/store.rs:843-851` | a step writes nothing to the database beyond its handler's write and recorded errors |
| `Service.Server.ListActivePeers` | `server/src/store.rs:790-820` | the loop over the device rows returns the active peers of the interface |
| `Service.Server.InterfacesForUser` | `server/src/store.rs:351-364` | the loop returns the interfaces the user is admitted to, in creation order, none for a user who is not live |
| `Service.Server.SyncInterface` | `server/src/store.rs:823-852` | one sync: new pushed state, recorded error and result for each outcome |
| `Service.Server.SyncAll` | `server/src/store.rs:854-860` | the loop that returns at the first failure |
| `Service.Server.SyncAllBestEffort` | `server/src/store.rs:862-877` | the loop that ignores failures |
| `Service.Server.Restart` | `server/src/main.rs:44-47` | boot keeps the invariant, and every interface whose sync applies is converged |
| `Service.Server.SyncGroupsInterfaces` | `server/src/store.rs:221-233` | exactly the interfaces that list the group are synced, in order |
| `Service.Server.CreateInterface` | `server/src/api_mcp/endpoints.rs:261-287` | write then sync; keeps the invariant, success means the new interface is converged, others that were converged still are |
| `Service.Server.UpdateInterface` | `server/src/api_mcp/endpoints.rs:318-350` | read, revise, write, sync; refused when the backend kind would change; success means converged, others stay converged |
| `Service.Server.RevisedInterface` | `server/src/store.rs:388-476` | None exactly when the kind would change; name, port, address and keys stay, the version goes up by one exactly when endpoint, DNS, allowed IPs or keepalive changed, a blank secret keeps the stored one |
| `Service.Server.DeleteInterface` | `server/src/store.rs:478-491` | the row and its devices go whatever the removal does, no interface uses the target any more, and the target holds nothing, what it held, or what remains, as the removal went; others stay converged |
| `Service.Server.Resync` | `server/src/api_mcp/endpoints.rs:893-905` | success means the interface is converged; others stay converged |
| `Service.Server.CreatePeer` | `server/src/store.rs:632-662` | insert stamped with the interface's version, then sync; success means its interface is converged, others stay converged |
| `Service.Server.CreateUnconfigured` | `server/src/store.rs:602-630` | insert without a key and without a sync: every converged interface stays converged |
| `Service.Server.RegeneratePeer` | `server/src/store.rs:664-682` | new key and preshared key, version restamped, then sync; success means its interface is converged, others stay converged |
| `Service.Server.RenamePeer` | `server/src/store.rs:685-694` | name only, no sync needed: every converged interface stays converged |
| `Service.Server.DeletePeer` | `server/src/api_mcp/endpoints.rs:594-605` | row removed, its interface synced; success means it is converged, others stay converged |
| `Service.Server.UpsertUser` | `server/src/store.rs:705-715` | a known email keeps its row, otherwise one is added; every converged interface stays converged |
| `Service.Server.Login` | `server/src/store.rs:237-262` | the provider's groups are replaced and the deadline pushed out; the invariant is kept and no backend is touched |
| `Service.Server.SetBanned` | `server/src/api_mcp/endpoints.rs:751-766` | success exactly when every sync applied, and then every interface is converged |
| `Service.Server.SetRevoked` | `server/src/api_mcp/endpoints.rs:768-777` | the same for access revocation |
| `Service.Server.DeleteUser` | `server/src/api_mcp/endpoints.rs:779-788` | user, captured groups and devices go; success exactly when every sync applied, and then every interface is converged |
| `Service.Server.CreateGroup` | `server/src/store.rs:188-198` | group added unless its name is taken; every converged interface stays converged |
| `Service.Server.UpdateGroup` | `server/src/store.rs:200-214` | group replaced unless its new name is taken; every interface listing it whose sync applies is converged, others stay converged |
| `Service.Server.DeleteGroup` | `server/src/store.rs:216-222` | group removed; every interface that listed it and whose sync applies is converged, others stay converged |
| `Router.Device.Deliver` | `mikrotik-api/src/lib.rs:78-86` | a request that answered took effect, one that failed took effect or did not |
| `Router.Device.ListPeers` | `tests/fake-mikrotik.py:79-83` | an answered listing is the interface's rows in insertion order |
| `RouterRequests.PatchPeerIsUpsert` | `mikrotik-api/src/lib.rs:102-110` | patching by the id the lookup found updates the first row with the key |
| `RouterRequests.DeletePeerTakesOut` | `tests/fake-mikrotik.py:91-98` | deleting by id removes exactly that row |
| `RouterApply.EnsureInterfaceHolds` | `mikrotik-api/src/lib.rs:89-98` | afterwards the first row of the name has the port and key; a second call changes nothing |
| `RouterPeers.UpsertAllSettles` | `wg-backend/src/mikrotik.rs:49-54` | the upsert loop settles the first row of each desired key, leaves every other row, and adds one row per missing key |
| `RouterApply.FamilyConverges` | `mikrotik-api/src/lib.rs:135-162` | the addresses with our comment become the desired set; every other row is as before |
| `RouterApply.FamilyAtRest` | `mikrotik-api/src/lib.rs:135-162` | a family already at its desired set is left exactly as it is |
| `RouterApply.KeysConverge` | `wg-backend/src/mikrotik.rs:39-55` | the public keys on the interface are exactly the desired keys |
| `RouterApply.FirstRowConverges` | `mikrotik-api/src/lib.rs:102-110` | the first row of a desired key has the last spec's address, and the last supplied preshared key or else the one it had |
| `RouterRows.RowsConvergeIff` | `mikrotik-api/src/lib.rs:191-199` | after an apply no desired key has two rows on the interface if and only if none had two before |
| `RouterRows.RowsExactIff` | `wg-backend/src/mikrotik.rs:24-56` | the interface's rows are exactly one row per desired key, as its last spec says, if and only if no desired key had two rows before |
| `RouterRows.SurplusRowsStay` | `wg-backend/src/mikrotik.rs:43-54` | a further row of a desired key is still on the interface after an apply, exactly as it was |
| `RouterRows.AddressRowsKnown` | `mikrotik-api/src/lib.rs:135-162` | an apply adds no address rows but ours, with our comment, IPv6 ones not advertised |
| `RouterApply.ApplyKeepsOthers` | `wg-backend/src/mikrotik.rs:24-56` | other interfaces' peers, other interface rows and addresses without our comment are row for row as before |
| `RouterApply.ApplyConverges` | `wg-backend/src/mikrotik.rs:24-56` | from any router state, duplicates included, one apply makes the router show the desired state; the addresses are the tokens of the specification, with a colon in the IPv6 table, without one in the IPv4 table |
| `RouterApply.ApplyIdempotent` | `wg-backend/src/lib.rs:83-85` | a second apply leaves the whole router state equal, id counter included |
| `RouterApply.RemoveClears` | `mikrotik-api/src/lib.rs:164-177` | removal empties what is ours for the interface and keeps everything else |
| `RouterApply.RemoveUndoesApply` | `mikrotik-api/src/lib.rs:164-177` | on a router that does not know the interface, apply then remove restores all rows |
| `MikrotikClient.StaleCopyIsFirst` | `mikrotik-api/src/lib.rs:112-119` | why the lookup by key finds the very row listed: earlier copies are already gone |
| `MikrotikClient.PeersSweptStep` | `wg-backend/src/mikrotik.rs:43-48` | one round of the removal loop deals with exactly one listed row, so k stale copies take k rounds |
| `MikrotikClient.Client.EnsureInterface` | `mikrotik-api/src/lib.rs:89-98` | list, then patch or create: the abstract effect, or a transport error |
| `MikrotikClient.Client.FindPeerId` | `mikrotik-api/src/lib.rs:191-199` | the id of the first row with the key, if any |
| `MikrotikClient.Client.UpsertPeer` | `mikrotik-api/src/lib.rs:102-110` | look up, then patch or create: the abstract upsert, or a transport error |
| `MikrotikClient.Client.RemovePeer` | `mikrotik-api/src/lib.rs:112-119` | removes the first row with the key; "not found" exactly when there is none |
| `MikrotikClient.Client.ReconcileAddrFamily` | `mikrotik-api/src/lib.rs:135-162` | the delete loop and the add loop have the abstract effect, or a transport error |
| `MikrotikClient.Client.ReconcileAddresses` | `mikrotik-api/src/lib.rs:121-133` | both families, IPv4 first |
| `MikrotikClient.Client.RemoveStalePeers` | `wg-backend/src/mikrotik.rs:43-48` | the removal loop keeps exactly the wanted rows and never raises "not found", duplicates included |
| `MikrotikClient.Client.UpsertPeers` | `wg-backend/src/mikrotik.rs:49-54` | the upsert loop has the abstract effect, or a transport error |
| `MikrotikClient.Client.ApplyState` | `wg-backend/src/mikrotik.rs:24-56` | an apply without lost requests is the abstract apply; its only error is transport; even a failed one touches nothing that is not ours |
| `MikrotikClient.Client.RemoveInterface` | `mikrotik-api/src/lib.rs:164-177` | without lost requests the abstract removal; with some it still touches nothing that is not ours |
| `EndToEnd.RouterHoldsActiveDevices` | `server/src/store.rs:790-852` | whatever the router held, after an apply every active device is found with its address and preshared key, and every key on the interface is an active device's |
| `EndToEnd.RouterHoldsInterface` | `server/src/store.rs:828-833` | and the interface row has the stored name, private key and low 16 bits of the port, and its addresses are those stored, by family |
| `EndToEnd.TextHoldsActiveDevices` | `server/src/store.rs:828-841` | a reader of each text backend's file finds the stored private key and port and the active devices in order with key, addresses and preshared key |
| `SharedRouter.SharedRouterShowsAll` | `server/src/store.rs:854-860` | interfaces that share a router, whatever it held: once each has been applied it shows the desired state of all of them |
| `SharedRouter.EveryActiveDeviceHeld` | `server/src/store.rs:790-860` | and holds every active device of every one of them as stored |
| `ConfigHistory.RunsAreTracked` | `server/src/store.rs:448-455` | in every run the version difference counts the relevant updates since the device's last generation, and at zero the issued inputs are the current ones |
| `ConfigHistory.FlagIsSound` | `server/src/web/server_fns.rs:499-511` | for every configured device in every run: the flag is up exactly when a relevant update came after its last generation, and while it is down rendering now gives the issued file byte for byte |
| `ConfigHistory.UpdateMovesAllFlagsOrNone` | `server/src/store.rs:448-455` | an update of endpoint, DNS, allowed IPs or keepalive makes every configured device of the interface stale; any other update moves no flag |
| `IssuedFiles.FileIsRight` | `server/src/store.rs:970-981` | in every run: a configured device's file is right byte for byte when endpoint, DNS, allowed IPs and keepalive as rendered are what they were at its last generation, and if these hold no line break, only then |
| `IssuedFiles.RevertedUpdateKeepsFlag` | `server/src/store.rs:448-455` | changing the endpoint to anything else and back raises the flag on a file that is right |
| `IssuedFiles.UpdateChangesFile` | `server/src/store.rs:448-455` | one update changes a device's file only if one of the four values as rendered differs, and without line breaks exactly then |
| `IssuedFiles.GenerationDelivers` | `server/src/api_mcp/endpoints.rs:485-526` | creation and regeneration alike store the key and raise no flag, and hand out the file if and only if the sync applied |
| `IssuedFiles.DeliveryIsKnown` | `server/src/api_mcp/endpoints.rs:613-629` | in every run: a configured device's last file was handed out if and only if the sync of its last generation applied |
| `SecretHistory.SecretsSurviveRuns` | `server/src/store.rs:424-446` | in every run one decryption of the stored backend gives the last settings with the last non-blank secret, secrets are stored sealed, and the kind never changed |
| `SecretHistory.UpdateHolds` | `server/src/store.rs:424-446` | one update: a blank secret keeps the stored ciphertext, another one is encrypted once |
| `SecretHistory.EncryptionUndone` | `server/src/backend/mod.rs:99-123` | decrypting what was encrypted gives the backend back, blank secrets included |
| `ClientConfig.RenderClientConfig` | `server/src/wg.rs:70-90` | the text built line by line is the configuration text |
| `ClientText.ClientFileReadsBack` | `server/src/wg.rs:70-90` | for fields without line breaks the file reads back as its two sections with their entries in order |
| `ClientText.ClientRecoversInputs` | `server/src/wg.rs:70-90` | from one-line fields a client recovers every value the file was rendered from, empty optional values as absent |
| `ClientText.ClientRecoversRows` | `server/src/store.rs:970-981` | and these are, field by field: the private key handed over, the device's address and preshared key, the interface's public key, endpoint, allowed IPs, DNS and the low 16 bits of its keepalive |
| `ClientText.SameFileSameInputs` | `server/src/store.rs:970-981` | two files of one-line fields are equal if and only if they were rendered from the same values |
| `ClientText.SameFileSameFields` | `server/src/wg.rs:70-90` | with keys and address the same, two files are equal when endpoint, DNS, allowed IPs and keepalive are, and without line breaks in these only then |
| `ClientText.LineBreaksHideFields` | `server/src/wg.rs:70-90` | why line breaks are excluded: with one in the endpoint or the allowed IPs, different values give the same file |
| `TextRenderers.RenderServerConfig` | `wg-backend/src/selfmanaged.rs:34-50` | the loop writes the `wg` configuration |
| `TextRenderers.RenderNetdev` | `wg-backend/src/systemd_networkd.rs:50-72` | the loop writes the systemd-networkd device file |
| `TextRenderers.RenderKeyfile` | `wg-backend/src/networkmanager.rs:33-79` | the loops write the NetworkManager keyfile, numbered addresses per family included |
| `TextBackends.ReadsBack` | `wg-backend/src/networkmanager.rs:33-79` | each rendering of one-line fields reads back as its sections in order |
| `DesiredText.ListReadsBack` | `wg-backend/src/systemd_networkd.rs:67-68` | a separated address list splits back into the same tokens |
| `DesiredText.SameDesiredState` | `wg-backend/src/selfmanaged.rs:34-50` | for one-line fields a reader of each format recovers the same private key, port and ordered peers if and only if, in a keyfile, no address holds a `;` |
| `DesiredText.RenderingIsFaithful` | `wg-backend/src/networkmanager.rs:33-79` | equal files of one format mean equal desired states (keyfile: addresses without `;`) |
| `InterfaceTexts.KeyfileSaysInterface` | `wg-backend/src/networkmanager.rs:33-79` | a reader of the keyfile finds the interface's name, and its addresses in order under numbered keys in the section of their family |
| `InterfaceTexts.NetdevSaysInterface` | `wg-backend/src/systemd_networkd.rs:50-58` | a reader of the device file finds the interface's name and kind |
| `Filenames.SanitizeFilename` | `server/src/store.rs:934-949` | the buffer-and-flag loop computes the sanitised label |
| `Filenames.SanitizedIsComponent` | `server/src/store.rs:932-949` | never empty, safe characters only, no dash at either end |
| `Filenames.SqueezeRuns` | `server/src/store.rs:935-946` | a run of characters other than letters, digits, `_`, `.` and the dash becomes one dash |
| `Filenames.SanitizedIs` | `server/src/store.rs:934-949` | the label trimmed, squeezed, without dashes at its ends, or the fallback name if nothing is left |
| `Filenames.SanitizingKeepsTelling` | `server/src/store.rs:932-949` | letters, digits, `_` and `.` are kept in order; the fallback name exactly for labels without any |
| `Filenames.SanitizingTwice` | `server/src/store.rs:934-949` | sanitising is idempotent |
| `Filenames.SharesAreFair` | `server/src/store.rs:912-919` | when truncating, the two lengths sum to max-1, neither exceeds its part (the `min` calls are no-ops), and each part gets its even share if it has it |
| `Filenames.FitTwoUsesBudget` | `server/src/store.rs:904-922` | separator-free parts fill the budget exactly with a piece from the front of each |
| `Filenames.FitTwoCuts` | `server/src/store.rs:904-930` | any parts that do not fit: the front of each as long as its share, without separators at its ends, joined by a dash if both are left |
| `Filenames.FitTwoFits` | `server/src/store.rs:904-930` | any two components fit a budget of six or more as a valid tunnel name |
| `Filenames.FallbackNeedsSix` | `server/src/store.rs:923-929` | below six the fallback name breaks the budget |
| `Filenames.DownloadStemIsTunnelName` | `server/src/store.rs:893-902` | the download's stem is 1 to 15 safe characters without a dash at either end |
| `Filenames.DownloadStemNames` | `server/src/store.rs:893-902` | the download name if it is not blank, else the interface's name, a dash and the device's name, whenever these fit |

## Left out

- HTTP, TLS, SQL, subprocesses and files: the database is maps and sequences, the router is tables, a backend is an outcome.
- The remote-node protocol, `wg`, `ip`, `nmcli` and `networkctl` themselves, live status and handshakes. The readers of the three text formats are ours: key, `=`, value taken as written under bracketed headers, lists split at the format's separators (commas or spaces for the `wg` file).
- `render_network` (the second systemd-networkd file): no peer or key is in it.
- Cryptography, base64, key generation, tokens and QR codes.
- OIDC, sessions, organisations and who may call a handler: a login is a step that sets one provider's groups and the deadline.
- Interleaved handlers: an update is an unlocked read and write in the program, and device creation renders from a row read before the insert; here every handler is atomic.
- The per-user device limit and the check of ownership before a device is changed.
- Administrator-supplied addresses in allocation runs: the program checks no overlap for them by design. The overlap law and the allocators cover any taken list.
- Parsing and printing of single addresses and networks: the allocators and `Ipv6Default` take the parser as a parameter.
- The network library's own code, which is not in the repository: networks, host ranges and subdivision are defined from its documented behaviour.
- GlobAgreement.EmailAdmitted: trims and folds case for ASCII only, because texts are bytes in the matcher; elsewhere texts are characters, trimmed of ASCII white space.
- ClientText.SameFileSameInputs: promises nothing for fields with line breaks, which the program accepts in endpoint, DNS and allowed IPs, because there different values can give the same file (`LineBreaksHideFields`).
- DesiredText.SameDesiredState: promises nothing for fields with line breaks either.
- Service.Server.CreateUnconfigured: takes the device's address as a parameter; what the allocators pick for it is the subject of `LeaseRuns`, and an administrator's own specification is not resolved.
- The configuration version is unbounded: a 32-bit counter overflowing after two billion updates is not modelled. Ports and keepalive are narrowed to 16 bits as in the code.
- Tutorial, translations, UI, packaging and configuration loading.
- The text of recorded errors; an undecryptable secret and a backend that cannot be built are one outcome.
- Two connections that reach one device: two spellings of a router's address, or two local tools on one host, are two targets.
- Router rows carry only the fields the client writes, and the handshake fields of peers are dropped.
- `render_peer_config` with the placeholder in place of the private key: the histories compare files rendered with the same key.
