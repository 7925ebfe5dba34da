# Verified model of the node agent

The node agent moves live traffic between WireGuard generations on many nodes. It must survive
the loss of its process between any two writes, and it keeps kernel tables equal to simple
desired sets. This project models that agent in Dafny and proves what it promises.

How the parts fit together:

- **Relay-ordered switching.** `Handover` replays the round journal and `HandoverHistory` says where
  whole histories lead: back to where they started after a rollback, and never to a retirement
  without a drain. `RelayProtocol` is a state machine over admissions, late applications, receipts,
  restarts and journal commits; its main theorem is that forwarding never loops, in any interleaving,
  over any number of rounds. `RelayGuard` and `RelayAdmission` are the agent's own checks, which count
  receipts; they are proved to admit exactly what the protocol allows.
- **Write-ahead ownership.** `FollowerRecord`/`FollowerHost`, `NeighborSources`/`NeighborCheckpoint`
  with `NeighborReach` for what they mean over addresses, `OwnerRecords`, `SiteCaches` and
  `Inventory`. A durable write replaces a file in one step, a kernel call is one step, and a crash
  loses everything else between any two steps. Each host class
  keeps a ghost trace of every state it has exposed. Each single step appends exactly the state it
  makes, each operation only extends the trace, and `Valid()` says the ownership invariant holds in
  all of it, so every sequence of operations, failures and crashes is covered; the `Serve` methods
  state this for arbitrary sequences of calls. A ghost counter of failed steps makes the operations
  complete as well as safe: when nothing fails, the operation succeeds exactly when the files,
  the kernel and the request allow it.
- **Planners that refine a full rewrite.** `DeviceDelta` and `NeighborPartition` over accept lists
  with one owner per prefix, `NeighborDevice`, which shows that the planner on any listing of a device
  does what the neighbor host does to its accept lists, `InstallRoutes`, `SourceRoutes`, `TunnelRules` and `Speaker`.
- **Longest-prefix reasoning.** `Prefixes` takes addresses as bit strings and prefixes as their
  initial segments; `RouteReadback` lifts finite checks to every address.
- **Smaller pieces.** `Rehome`, `ReversePath`, `Order`, the sorting order of identities, and the
  helpers `Options` and `Sequences`.

Inputs from outside (API objects, clocks, handshake times, parsing of addresses, live incarnation
checks) are parameters. Results of foreign calls that may fail are arbitrary choices.

## Where the code does less than one might expect

Each of these has a lemma at a concrete input, and the exact condition under which the expected
property holds, stated over what is on disk, on the device or in the request before the call.

- A crash between the advertisement file and the forwarding file of one worker's withdrawal leaves a
  pair that lets go of that worker's key and of no other. While another withdrawn key sorts before it,
  every pass is refused although no step fails (`FollowerHost.HalfLetsGoIff`,
  `FollowerHost.PassAfterCrashIff`, `FollowerHost.StagingKeepsVerdict`, `FollowerHost.HalfPairStarves`);
  on a host with a speaker so is every installation (`FollowerHost.HalfBlocksInstallation`).
- Before the first staging two cached workers may claim one kernel route; exactly then a table the
  caches account for can have a route without a single owner (`FollowerHost.LegacyHasOneRootIff`,
  `FollowerHost.LegacyRouteCanBeShared`). It cannot when the projection would be accepted by staging
  (`FollowerHost.StageableHasOneRoot`).
- A neighbor publication that spells one prefix twice, in one spelling or in two, is recorded and
  installed, fails its readback, and leaves a peer that no record recognises
  (`NeighborCheckpoint.InstalledIsRecordedIff`, `NeighborCheckpoint.RepeatedSourceIsLost`,
  `NeighborCheckpoint.TwoSpellingsAreLost`). `Reconcile` accepts such publications here too; the
  ghost set `lost` grows at most by their keys.
- A source spelled once, but not as the kernel spells it, is installed on the device and then refused
  on every pass, because route scopes are keyed by spelling; a pass can settle exactly the
  publications whose sources are all in the kernel's spelling and none twice
  (`NeighborSources.SpelledOnceIff`, `NeighborCheckpoint.UnusualSpellingNeverSettles`). Respelling a
  recorded source counts as withdrawing it (`NeighborCheckpoint.RespellingIsRefused`).
- A withdrawal that writes the very first sidecar makes later passes skip the older forwarding
  cache, so a peer only that cache knows is forgotten (`NeighborCheckpoint.FirstSidecarIsSafeIff`,
  `NeighborCheckpoint.FilesDecideFirstSidecar`, `NeighborCheckpoint.FirstSidecarCanForgetPeer`).
- When two published peers list one prefix, the device delta hands it back and forth on every pass,
  while the complete request would leave it with the last of them (`DeviceDelta.DeltaRefinesIff`,
  `DeviceDelta.SharedPrefixMovesEveryPass`). Without shared prefixes the two always agree
  (`DeviceDelta.DeltaRefinesEverything`).
- A route installation may change everything it was asked to and then be refused by its own
  readback, because a route it must leave alone is more specific than a wanted one
  (`InstallRoutes.CleanIff`, `InstallRoutes.KeptRouteCanBeInTheWay`). Scoped callers look for such a
  route beforehand, so for them it has to appear in between.
- The speaker's memory equals its table exactly when no network is spelled in two ways
  (`Speaker.TransitSpeaker.Reconcile`, `Speaker.TwoSpellings`, `Speaker.SpellingMatters`).

Three further characterisations are exact but describe inputs that no component here produces:

- `DeviceDelta.SilentIffAgrees`: nothing is sent exactly when the device agrees and no preshared key
  is named, since the live key is never compared. No configuration in the repository names one.
- `Rehome.MoveConservesIff` and `Rehome.MoveRoutesIff`: a move conserves accept entries exactly when
  the loser or the gainer holds every declared one, and routed hosts exactly when somebody routed
  every declared one. The rendered list has one declared owner whose transit entries are all in its
  accept list; only a list written by hand falls outside.
- `Rehome.TwoOwnersMoveTwice`: with two declared owners, again only in a list written by hand, a
  second pass moves again.

## Model

| member | source | states |
|---|---|---|
| `Handover.CoherentExtends` | controller/pkg/handover/transition.go:100-252 | Every journal event keeps the selected generation equal to the target of the latest Switch round; rounds are only appended. |
| `HandoverHistory.RollbackRestores` | controller/pkg/handover/transition.go:201-220 | In every history built from a first transition by any events, from a committed rollback until the next successor the selected generation is the one the latest Prepare round started from, and that generation is served at completion; without a rollback it is the one the transition was opened for. |
| `HandoverHistory.RollbackAcceptedIff` | controller/pkg/handover/transition.go:201-220 | A rollback is accepted exactly in Prepare, Switch and Drain, and once per transition. |
| `HandoverHistory.RoundsMove` | controller/pkg/handover/transition.go:100-252 | Every round of every history joins two different generations. |
| `HandoverHistory.HistoryObserves` | controller/pkg/handover/transition.go:138-167 | A view counts exactly the members observed since its round was committed; any nonempty set of members may be observed while the transition is unfinished, and nobody else. |
| `HandoverHistory.CanComplete` | controller/pkg/handover/transition.go:168-200 | No history is stuck: at most four unanimous receipts complete it, past Prepare with the generation already selected. |
| `HandoverHistory.TransitionsChain` | controller/pkg/handover/transition.go:100-118 | Every Prepare round, at any position, starts from the target of the latest Switch round before it, or from the generation served at first. |
| `HandoverHistory.RetirementIsDrained` | controller/pkg/handover/transition.go:168-200 | Every Retire round, at any position, follows a Drain round and, as the latest Switch by then, a Switch round of the same direction: nothing is retired undrained. |
| `RelayProtocol.AdmittedHop` | controller/cmd/dialer/receive_relay_dependencies.go:20-112 | A path admitted by the guard is the committed path of the selected generation, and a relayed one rests on the relay's receipt for the same Switch. |
| `RelayProtocol.StepInv` | controller/cmd/dialer/receive_execution.go:134-177 | Every step of the protocol keeps the invariant that relayed hops are supported by receipts. |
| `RelayProtocol.RunInv` | controller/cmd/dialer/receive_execution.go:134-177 | The invariant holds in every state of every run. |
| `RelayProtocol.WalkEnds` | controller/cmd/dialer/receive_relay_dependencies.go:73-112 | From any node the next hops climb strictly in admission epoch until a node that does not relay. |
| `RelayProtocol.NoForwardingLoop` | controller/cmd/dialer/receive_relay_dependencies.go:20-112 | In every state of every run, over any number of forward, rollback and successor rounds, packets visit distinct nodes and stop at one that does not relay. |
| `RelayProtocol.ForwardingLostIff` | controller/cmd/dialer/receive_execution.go:134-177 | In every state of every run a node of the mesh has no forwarding entry exactly while it has restarted and not yet applied a path. |
| `RelayProtocol.EveryPacketReachesTheWorker` | controller/cmd/dialer/receive_follower_admission.go:39-65 | In every state of every run, restarts included, a packet of any node or follower visits distinct nodes of the mesh and ends at a directly connected one, or else at one that is waiting after a restart. |
| `RelayProtocol.GuardPreventsLoop` | controller/cmd/dialer/receive_relay_dependencies.go:73-112 | Dropping the guard for one admission yields a concrete two-node loop, so the guard is needed. |
| `RelayGuard.ValidateReceipts` | controller/pkg/handover/round.go:262-299 | Accepts exactly the receipt lists that are current, bound to the round and name each device once. |
| `RelayGuard.VisitRelaySwitch` | controller/cmd/dialer/receive_relay_dependencies.go:73-112 | The counting loop accepts exactly when the path is direct, the counts agree and all gathered receipts are valid and live. |
| `RelayGuard.AcceptedMeansSwitched` | controller/cmd/dialer/receive_relay_dependencies.go:73-112 | Counting is enough: acceptance means every device of the relay has its own live receipt, with its own keys, for this very round, neither early nor stale. |
| `RelayGuard.AcceptedIffSwitched` | controller/cmd/dialer/receive_relay_dependencies.go:73-112 | On views the journal can produce, acceptance is equivalent to a current unfinished Switch, a direct path and such a receipt for every device. |
| `RelayAdmission.VisitSites` | controller/cmd/dialer/receive_relay_dependencies.go:38-68 | Accepts exactly when every site of the graph passes its check. |
| `RelayAdmission.VisitRelayDependencies` | controller/cmd/dialer/receive_relay_dependencies.go:20-68 | Accepts exactly when every journal's selected graph passes, not only the target's. |
| `RelayAdmission.SelectsCatalogued` | controller/pkg/tunnel/receive_journal_routes.go:105-131 | A view selects a transport exactly when its plan knows the selected generation: the predecessor's sites, the original root paths or the plan's own receivers, whichever that generation stands for. |
| `RelayAdmission.CheckedMemberIsAdmissible` | controller/cmd/dialer/receive_relay_dependencies.go:20-112 | A node that passes the agent's check is admissible in the protocol model, in the graph of the generation the journal selects, with one graph per generation of the plan. |
| `RelayAdmission.CheckedIffAdmissible` | controller/cmd/dialer/receive_relay_dependencies.go:20-112 | With the committed evidence unchanged and the round's direction agreeing with the selected transport, a node passes for a worker if and only if the protocol admits it. |
| `RelayAdmission.AdmitFollower` | controller/cmd/dialer/receive_follower_admission.go:16-67 | An admitted follower is published, outside every site of the plan, relayed and without a tunnel. |
| `RelayAdmission.AdmittedFollowerIsAdmissible` | controller/cmd/dialer/receive_follower_admission.go:39-65 | A follower that is admitted is admissible in the protocol model: in the graph of the selected generation it hangs off an observed, direct relay. |
| `RelayAdmission.FollowerAdmittedIff` | controller/cmd/dialer/receive_follower_admission.go:16-67 | An outsider of a published, unfenced worker is admitted if and only if the round is complete or current, its path is relayed through another named site of the selected generation, and the protocol admits it there. |
| `FollowerRecord.Decode` | controller/cmd/dialer/receive_follower_cache.go:64-104 | Accepts exactly the records whose retired keys have no evidence, whose routes are valid and whose roots do not overlap, whatever order they are read in. |
| `FollowerRecord.AcceptableIff` | controller/cmd/dialer/receive_follower_cache.go:64-104 | Acceptable means: no evidence for the node itself or a fenced key, every variant routes something, never everything and never its own gateway, and no address is routed for two roots. |
| `FollowerRecord.StageRoot` | controller/cmd/dialer/receive_follower_cache.go:144-154 | Appends exactly the candidates not recorded yet, each once, after the recorded ones. |
| `FollowerRecord.StageVariants` | controller/cmd/dialer/receive_follower_cache.go:127-159 | The staged evidence holds every earlier and every new variant of every root and nothing else. |
| `FollowerRecord.Finish` | controller/cmd/dialer/receive_follower_cache.go:164-181 | Compaction succeeds exactly when each desired variant was staged, and leaves unmentioned roots as they were. |
| `FollowerRecord.StagingKeepsOwnership` | controller/cmd/dialer/receive_follower_cache.go:115-159 | Every kernel route known before staging, from the record or the legacy projection, is known after it. |
| `FollowerRecord.CompactionKeepsOwnership` | controller/cmd/dialer/receive_follower_cache.go:161-181 | After a settled installation compaction forgets no kernel route, of touched and untouched roots alike. |
| `FollowerRecord.CompactionIsAcceptable` | controller/cmd/dialer/receive_follower_cache.go:164-181 | A compacted record passes decoding. |
| `FollowerRecord.FenceKeepsOwnership` | controller/cmd/dialer/receive_follower_withdraw_ordinary.go:190-201 | A root whose destinations are absent can be fenced without losing any other route's evidence. |
| `FollowerHost.ExactlyOneRoot` | controller/cmd/dialer/receive_follower.go:162-295 | In each crash state with a record every kernel route is in a variant of exactly one root. |
| `FollowerHost.LegacyHasOneRootIff` | controller/cmd/dialer/receive_follower.go:311-350 | Without a record, every table the caches account for has exactly one root per route if and only if no two cached workers share a route. |
| `FollowerHost.StageableHasOneRoot` | controller/cmd/dialer/receive_follower_cache.go:115-159 | Without a record, a host whose projection could be staged has exactly one root per kernel route, whatever the gateway. |
| `FollowerHost.LegacyRouteCanBeShared` | controller/cmd/dialer/receive_follower.go:334-348 | A concrete host whose kernel route two cached workers claim, and whose projection cannot be staged. |
| `FollowerHost.FencedForever` | controller/cmd/dialer/receive_follower_cache.go:185-212 | In every state after the one that fenced it, a key is fenced, has no evidence, is not cached and has no legacy route. |
| `FollowerHost.FenceNeverBlocksStaging` | controller/cmd/dialer/receive_follower_withdraw_ordinary.go:157-201 | Because caches lose a key before its fence is written, importing the legacy projection never meets a fenced key. |
| `FollowerHost.StagedIsAcceptableIff` | controller/cmd/dialer/receive_follower_cache.go:127-159 | Whatever order staging yields, the staged record is accepted exactly when the merged evidence of the files is. |
| `FollowerHost.HalfLetsGoIff` | controller/cmd/dialer/receive_follower_withdraw_ordinary.go:86-118 | A pair half-written for one listed worker allows the withdrawal of that worker's key and refuses every other key, listed or not. |
| `FollowerHost.PassAfterCrashIff` | controller/cmd/dialer/receive_follower_withdraw_ordinary.go:71-118 | After a crash between the two cache writes a pass can succeed exactly when the first eligible root in sorted order is the interrupted one, or there is none. |
| `FollowerHost.StagingKeepsVerdict` | controller/cmd/dialer/receive_follower_withdraw_ordinary.go:67-75 | Staging, the only thing a refused pass changes, does not change the verdict, so the same pass is refused again. |
| `FollowerHost.HalfPairStarves` | controller/cmd/dialer/receive_follower_withdraw_ordinary.go:71-105 | A concrete good host on which every such pass is refused without any step failing. |
| `FollowerHost.HalfBlocksInstallation` | controller/cmd/dialer/receive_follower.go:202-208 | While a pair is half-written for a listed worker, a host with a speaker refuses every installation. |
| `FollowerHost.Preflight` | controller/cmd/dialer/receive_follower.go:240-255 | Accepts exactly the tables whose routes in scope all appear in some variant. |
| `FollowerHost.PreflightNeverBlocks` | controller/cmd/dialer/receive_follower.go:240-255 | A table only this writer has touched always passes its preflight. |
| `FollowerHost.VerifiedIsSettled` | controller/cmd/dialer/receive_follower.go:267-293 | A passed readback of the scope means only desired routes of the desired roots are left. |
| `FollowerHost.Writer.Replace` | controller/cmd/dialer/receive_follower_cache.go:185-212 | Writes in one step only over the record that was read and only acceptable records; on success every earlier fence is in the new record; it fails without a fault only when one of these is violated. |
| `FollowerHost.Writer.Apply` | controller/cmd/dialer/receive_follower.go:141-295 | Extends the trace, so every crash state keeps the invariant; fences, other routes and other roots' evidence stay as they were; on success record and kernel hold exactly the desired variants; unless a step fails it succeeds exactly when applicable. |
| `FollowerHost.Writer.Retire` | controller/cmd/dialer/receive_follower_withdraw_ordinary.go:21-204 | Fences exactly the first eligible root in sorted order or nothing; only that root's routes and cache entries go, the rest of the evidence is the old record merged with the projection; unless a step fails it succeeds exactly when the files allow it, and a refusal changes neither caches nor kernel. |
| `FollowerHost.Writer.FenceRoot` | controller/cmd/dialer/receive_follower_withdraw_ordinary.go:185-201 | The advertisement file, then the forwarding file, then the fence; in between the caches are the old pair, the half pair or the new pair. |
| `FollowerHost.Writer.CommitCaches` | controller/cmd/dialer/receive_withdraw_bgp_cache.go:74-102 | Every state it exposes has the half pair or the new pair; success leaves a cache that does not list the root. |
| `FollowerHost.Writer.Serve` | controller/cmd/dialer/receive_follower.go:26-110 | Over any sequence of installations, withdrawals and reboots, each stopping anywhere, a key once fenced is fenced and gone in every later state. |
| `NeighborSources.SourcesMatch` | controller/cmd/dialer/receive_routes.go:92-121 | A recorded list matches an accept list exactly when every source is a prefix, no prefix is spelled twice and the prefixes are the same. |
| `NeighborSources.WellFormedIff` | controller/cmd/dialer/receive_routes.go:92-121 | A published entry names some device state exactly when all its sources can be read and none repeats a prefix, in one spelling or in two. |
| `NeighborSources.PlanPeers` | controller/pkg/tunnel/receive_neighbors.go:135-275 | Accepts exactly the publications that can be planned, and returns exactly the unreserved entries. |
| `NeighborSources.OrdinaryIsPlain` | controller/pkg/tunnel/receive_neighbors.go:228-275 | The entries of an accepted publication have distinct unreserved keys and no address in common. |
| `NeighborReach.PlannableIff` | controller/pkg/tunnel/receive_neighbors.go:135-275 | A publication can be planned exactly when its keys are valid and distinct and every unreserved entry has no transport key, is readable, authorizes its own hosts, and shares no address with another such entry, with a site transport or with a reserved root. |
| `NeighborReach.OrdinaryIff` | controller/pkg/tunnel/receive_neighbors.go:228-275 | The planned entries are exactly the published ones that no journal reserves. |
| `NeighborReach.PreviousIff` | controller/cmd/dialer/receive_neighbors.go:322-376 | A pass starts from the first recorded entry of each permission, checkpoint before sidecar, the older cache only without a sidecar. |
| `NeighborReach.ReconcilableIff` | controller/cmd/dialer/receive_neighbors.go:298-411 | What a pass asks of publication and files: planned, without a withdrawn key, no recorded source taken from an entry that stays, and every other recorded permission owned by a journal or clear of all of them. |
| `NeighborReach.WithdrawableIff` | controller/pkg/tunnel/receive_neighbors.go:79-129 | What a withdrawal asks of publication and files: a valid reserved root that nobody publishes, and every recorded variant of it, wherever it is recorded, free to go. |
| `NeighborReach.RetirableIff` | controller/cmd/dialer/receive_neighbors_retire.go:25-110 | Peers can be retired exactly when none is the node's own, each live one has the sources of one of its permissions, no two live ones share an address and no other live peer shares one with a permission. |
| `NeighborReach.PartitionableIff` | controller/cmd/dialer/receive_neighbors_native.go:66-126 | An installation may touch the device exactly when every entry is foreign, readable, unrefused, free of other live peers' addresses and only gains, and no two entries share a key or an address. |
| `NeighborReach.RetirementAllowedIff` | controller/pkg/tunnel/receive_neighbors.go:28-54 | An earlier entry may be retired exactly when a journal owns its key, or it shares no address with a site transport or a reserved root. |
| `NeighborReach.VariantAllowedIff` | controller/pkg/tunnel/receive_neighbors.go:97-129 | A variant of a withdrawn root may go exactly when it shares no address with a published entry, a site transport or another reserved root; what the root's own journal reserves never refuses it. |
| `NeighborSources.SpelledOnceIff` | controller/cmd/dialer/receive_routes.go:136-142 | The spelled route scope and the readback together accept exactly the publications whose sources are all spelled as the kernel spells them, none twice. |
| `NeighborCheckpoint.ValidateGrowth` | controller/cmd/dialer/receive_neighbors.go:474-495 | Accepts exactly when every retained peer keeps all its sources, as spelled. |
| `NeighborCheckpoint.Accumulate` | controller/cmd/dialer/receive_neighbors.go:322-327 | Collects each known permission once, the first entry standing for it. |
| `NeighborCheckpoint.SelectCandidates` | controller/cmd/dialer/receive_neighbors.go:380-391 | The candidates are exactly the earlier and wanted permissions of wanted keys, each once. |
| `NeighborCheckpoint.PlanRetirements` | controller/pkg/tunnel/receive_neighbors.go:28-54 | Refuses exactly when an unwanted earlier entry could not be planned against the journals; otherwise retires exactly the recorded permissions whose key is neither wanted nor reserved. |
| `NeighborCheckpoint.SelectVariants` | controller/pkg/tunnel/receive_neighbors.go:97-129 | Refuses exactly when a recorded variant of the withdrawn root meets another journal or a published entry; otherwise selects exactly its variants. |
| `NeighborCheckpoint.SidecarKeepsPeers` | controller/cmd/dialer/receive_neighbors.go:403-408 | The new sidecar names every ordinary peer that was named before. |
| `NeighborCheckpoint.MainKeepsPeers` | controller/cmd/dialer/receive_neighbors.go:409-411 | Once the sidecar is written the old checkpoint is no longer needed. |
| `NeighborCheckpoint.ClearKeepsPeers` | controller/cmd/dialer/receive_neighbors.go:453-460 | After readback the checkpoint alone names every installed ordinary peer. |
| `NeighborCheckpoint.RetirementRecognises` | controller/cmd/dialer/receive_neighbors_retire.go:64-92 | In a checkpointed state every installed peer to retire has one of its recorded source sets. |
| `NeighborCheckpoint.EveryRetiringRecognised` | controller/cmd/dialer/receive_neighbors_retire.go:64-77 | While nothing is lost, a pass recognises every live peer it has to retire. |
| `NeighborCheckpoint.Host.FindVariant` | controller/cmd/dialer/receive_neighbors_retire.go:66-77 | Comparing the live prefixes with what each recorded variant spells finds exactly the peers that some variant names. |
| `NeighborCheckpoint.ExactlyOneList` | controller/cmd/dialer/receive_neighbors.go:377-411 | An installed ordinary peer is named for retirement exactly when its key is not wanted, and never also as a candidate. |
| `NeighborCheckpoint.RetainedOnlyGains` | controller/cmd/dialer/receive_neighbors.go:471-495 | Growth as spelled is growth of prefixes: a pass that passes the growth check takes no source from a recognised peer it retains. |
| `NeighborCheckpoint.InstalledIsRecordedIff` | controller/cmd/dialer/receive_neighbors.go:444-460 | A newly recorded peer is recognised after installation, and read back, exactly when its entry spells no prefix twice. |
| `NeighborCheckpoint.RepeatedSourceIsLost` | controller/cmd/dialer/receive_neighbors.go:498-503 | A publication with a repeated source leaves a peer that no record recognises. |
| `NeighborCheckpoint.TwoSpellingsAreLost` | controller/cmd/dialer/receive_routes.go:92-121 | So does one whose two sources are different spellings of one prefix. |
| `NeighborCheckpoint.UnusualSpellingNeverSettles` | controller/cmd/dialer/receive_neighbors_native.go:99-109 | A publication the planner and the device admit, with one unusual spelling, that no pass can settle. |
| `NeighborCheckpoint.RespellingIsRefused` | controller/cmd/dialer/receive_neighbors.go:474-495 | The same prefix in another spelling fails the growth check. |
| `NeighborCheckpoint.FirstSidecarIsSafeIff` | controller/cmd/dialer/receive_withdraw_neighbors.go:28-81 | A withdrawal that writes the first sidecar keeps every peer named exactly when the checkpoint alone names them. |
| `NeighborCheckpoint.FilesDecideFirstSidecar` | controller/cmd/dialer/receive_neighbors.go:347-376 | Judged from the files alone, it is safe on every device they may describe exactly when the checkpoint names every device state of an unreserved peer that the older cache names. |
| `NeighborCheckpoint.FirstSidecarCanForgetPeer` | controller/cmd/dialer/receive_withdraw_neighbors.go:28-81 | A concrete host on which it does not. |
| `NeighborCheckpoint.Host.Retire` | controller/cmd/dialer/receive_neighbors_retire.go:25-187 | Extends the trace; removes exactly the retiring keys; changes nothing unless the intent is readable, every live peer matches a recorded variant and no sources overlap; otherwise fails only by a fault. |
| `NeighborCheckpoint.InstalledOnlyAdds` | controller/cmd/dialer/receive_neighbors_native.go:66-120 | On a device with one owner per prefix an admitted installation takes no source from anyone and gives each entry exactly its own. |
| `NeighborCheckpoint.Host.Install` | controller/cmd/dialer/receive_neighbors_native.go:176-190 | Entry by entry, no state it exposes takes a source from any peer or touches an unselected one; success leaves exactly the installed lists. |
| `NeighborCheckpoint.Host.Checkpoint` | controller/cmd/dialer/receive_neighbors.go:377-411 | Writes the sidecar, then the checkpoint, and every state it exposes keeps each installed peer named. |
| `NeighborCheckpoint.Host.Reconcile` | controller/cmd/dialer/receive_neighbors.go:298-460 | Every crash state names every installed peer except those whose published entry spells a prefix twice; refusals before the first write change nothing; only unwanted peers go and nobody else loses a source; success leaves the wanted entries added to what was kept, and cleared intent; unless a step fails it succeeds exactly when publication, files and device allow it: planned, grown, retirable, apart from other live peers and spelled as the kernel spells. |
| `NeighborCheckpoint.Host.Withdraw` | controller/cmd/dialer/receive_withdraw_neighbors.go:17-150 | Every crash state names every installed peer except those only the older cache named; until it succeeds every such state has all recorded variants of the root in the intent on disk; success leaves the root in neither file, every other record in place and no other peer touched; unless a step fails it succeeds exactly when the root is reserved, unpublished, apart from published and other reserved owners, and can be retired. |
| `NeighborCheckpoint.Host.Serve` | controller/cmd/dialer/receive_neighbors.go:298-460 | Once a sidecar exists, no sequence of passes, withdrawals and reservations, each stopping anywhere, exposes a state with an unrecognised peer, as long as no publication spells a prefix twice. |
| `NeighborDevice.AdmittedIffPartitionable` | controller/cmd/dialer/receive_neighbors_native.go:66-126 | On every listing of the device the planner's preflight gives the host's verdict. |
| `NeighborDevice.DeltaInstallsDesired` | controller/cmd/dialer/receive_neighbors_native.go:176-190 | The planned request leaves exactly the accept lists that the host's installation leaves. |
| `Inventory.ValidateCheckpoint` | controller/cmd/dialer/receive_inventory.go:268-336 | Accepts exactly the successors that keep releases, publication fences and the sorted active set. |
| `Inventory.Validate` | controller/pkg/tunnel/receive_inventory.go:83-125 | Accepts exactly the inventories with sorted machines, well-staged publications of active machines only, and complete releases of inactive ones. |
| `Inventory.ValidInventoryIff` | controller/pkg/tunnel/receive_inventory.go:83-125 | Valid means: machines named and strictly ordered pairwise, every publication of an active machine at one of five stages of evidence, every release at the last stage and of a machine neither active nor published. |
| `Inventory.AcceptsIff` | controller/cmd/dialer/receive_inventory.go:268-336 | Between valid inventories a checkpoint is replaced exactly when the identity stays, no release changes, and every machine and every journal fence stays unless its own admitted release carries the fence on. |
| `Inventory.AcceptsOnlyWellFormed` | controller/cmd/dialer/receive_inventory.go:297-334 | A malformed saved file is never replaced: its machines are ordered, its releases complete and inactive. |
| `Inventory.FencesAreForever` | controller/cmd/dialer/receive_inventory.go:308-325 | Over any chain of read and accepted checkpoints a published journal's incarnation never changes, an intent never changes or disappears, a finalization freezes its evidence, and the record is in exactly one of the active publications and the releases. |
| `Inventory.ReleasedIsForever` | controller/cmd/dialer/receive_inventory.go:297-307 | From the releasing checkpoint on, a released machine keeps its record and is never active. |
| `Inventory.LeavesOnlyByRelease` | controller/cmd/dialer/receive_release_admission.go:174-179 | A reserved machine is active or released, never both, and leaves the active set only by an admitted release that carries its fence. |
| `SiteCaches.RenderHash` | controller/cmd/dialer/bgp_cache.go:136-145 | The hashed render is the document without applied marks. |
| `SiteCaches.ReadableIff` | controller/cmd/dialer/bgp_cache.go:159-174 | A reader accepts the pair exactly when both are of one mesh and key, the hash is of this document without applied marks, speaker and port are its own and no advertised peer is known not to be a site. |
| `SiteCaches.WithdrawRemotePeer` | controller/pkg/tunnel/withdraw.go:13-42 | Removes exactly one worker's fields; refuses a changed key and orphaned fields; reports a change exactly when a field was there. |
| `SiteCaches.RenderChangesIff` | controller/pkg/tunnel/withdraw.go:29-42 | The render changes exactly when the worker had a field. |
| `SiteCaches.HalfIsUnreadable` | controller/cmd/dialer/bgp_cache.go:159-174 | A reader accepts the half-written pair exactly when the worker was not listed, and then it is the starting pair. |
| `SiteCaches.HalfRefusesOthers` | controller/cmd/dialer/receive_withdraw_bgp_cache.go:49-61 | A pair half-written for one listed worker refuses the withdrawal of every other worker. |
| `SiteCaches.RetryReachesTarget` | controller/cmd/dialer/receive_withdraw_bgp_cache.go:17-61 | From the half-written pair and from the finished pair a retry has the same target, which is readable. |
| `SiteCaches.TargetForgets` | controller/cmd/dialer/receive_withdraw_bgp_cache.go:17-61 | A withdrawal forgets one worker's fields and acknowledgement and nothing else; no worker is left with its key; the advertisements are rebound and otherwise unchanged. |
| `SiteCaches.SiteFiles.Withdraw` | controller/cmd/dialer/receive_withdraw_bgp_cache.go:74-102 | Each state it exposes is the start, the target or an unreadable half; without failures it ends in the target. |
| `SiteCaches.FindHolder` | controller/cmd/dialer/receive_follower_withdraw_ordinary.go:88-96 | Finds the only worker with a key, or that there is none, or that there are several. |
| `Order.First` | controller/cmd/dialer/receive_follower_withdraw_ordinary.go:71-75 | Finds the first eligible name in byte order. |
| `OwnerRecords.SurvivorNames` | controller/cmd/dialer/site_receive_retire.go:238-248 | The record written before a mixed one goes still names every other root's device. |
| `OwnerRecords.Host.PreserveCache` | controller/cmd/dialer/site_receive_cache.go:201-210 | Adds exactly the archive of the replayable cache; afterwards every device has an owner record even without it. |
| `OwnerRecords.Host.Prepare` | controller/cmd/dialer/site_receive_cache.go:183-301 | Extends the trace, so in every crash state each device has a durable owner; success leaves exactly the devices of the intents in order, exactly their records added, and the cache naming exactly the prepared roots. |
| `OwnerRecords.MadeIsOwnIff` | controller/cmd/dialer/site_receive_cache.go:240-301 | Every intent ends with its own device exactly when no two different intents ask for one interface. |
| `OwnerRecords.Host.RetireDevices` | controller/cmd/dialer/site_receive_retire.go:220-227 | Removes only devices in an exactly recorded state, and all selected ones on success. |
| `OwnerRecords.Host.Retire` | controller/cmd/dialer/site_receive_retire.go:34-249 | In ordinary mode no device of a spared root goes and in every crash state each binding of a spared root is in its directory; success leaves no device on an interface that a record gave to another root, and exactly the records that are of another mesh, empty or bind a spared root. A withdrawal does the same for one root, with the rest of a shared record in its place. It refuses before any change when a record cannot be planned or the withdrawn root is published again; unless a step fails it succeeds exactly when admitted and every device that has to go is in a recorded state. |
| `DeviceDelta.PlanDevice` | controller/cmd/dialer/device_delta.go:12-73 | The loops compute the delta that the results below are about; it leaves the device's key, port and mark as the request would, and a change is reported exactly when the delta is not empty. |
| `DeviceDelta.PlanPeer` | controller/cmd/dialer/device_delta.go:34-60 | One peer's entry without the fields and prefixes it already has. |
| `DeviceDelta.SamePrefixIff` | controller/cmd/dialer/device_delta.go:75-85 | Nets count as the same prefix exactly when they agree on what their masks keep. |
| `DeviceDelta.PeerDeltaEquivalent` | controller/cmd/dialer/device_delta.go:34-63 | The planned entry acts on the device as the full entry does, even after the peer has lost prefixes to earlier entries. |
| `DeviceDelta.DeltaRefinesEverything` | controller/cmd/dialer/device_delta.go:12-73 | Applying the delta and applying the complete request leave the same device: its key, port and mark, and its peers, wherever prefixes move. |
| `DeviceDelta.DeltaRefinesIff` | controller/cmd/dialer/device_delta.go:12-73 | For accept lists that may share prefixes, the delta and the complete request leave the same device exactly when for every prefix the last entry that lists it sends it, or no entry does. |
| `DeviceDelta.SharedPrefixMovesEveryPass` | controller/cmd/dialer/main.go:1750-1757 | With one prefix on two entries each pass moves it to the other peer; the complete request always leaves it with the second. |
| `DeviceDelta.DeltaInstallsConfiguration` | controller/cmd/dialer/device_delta.go:12-73 | Afterwards the device has the named key, port and mark, exactly the configured peers and accept sets, named peer fields as given and unnamed ones as before. |
| `DeviceDelta.SilentIffAgrees` | controller/cmd/dialer/device_delta.go:61-72 | Nothing is sent exactly when the device agrees and no preshared key is named. |
| `NeighborPartition.Preflight` | controller/cmd/dialer/receive_neighbors_native.go:66-126 | Admits exactly the partitions whose entries are canonical, unrefused, apart from each other and from other live peers, and only grow. |
| `NeighborPartition.CanonicalIff` | controller/cmd/dialer/receive_neighbors_native.go:66-126 | A source is canonical exactly when masking leaves it alone and it is not the default route. |
| `NeighborPartition.PlanPartition` | controller/cmd/dialer/receive_neighbors_native.go:176-190 | Plans the delta on the selected peers alone. |
| `NeighborPartition.PlanIsGentle` | controller/cmd/dialer/receive_neighbors_native.go:176-190 | An admitted plan removes no peer and replaces no existing peer's accept list. |
| `NeighborPartition.EstablishedEndpointIsKept` | controller/cmd/dialer/receive_neighbors_native.go:229-237 | The endpoint of a neighbor with a recent handshake survives the plan, whatever is published. |
| `NeighborPartition.PublishedEndpointIsInstalled` | controller/cmd/dialer/receive_neighbors_native.go:229-237 | A neighbor without a recent handshake ends with the published endpoint, or with the one it had when none is published. |
| `NeighborPartition.PlanOnlyAdds` | controller/cmd/dialer/receive_neighbors_native.go:200-225 | On the whole device unselected peers are unchanged and selected peers have exactly their admitted sources, none lost. |
| `RouteReadback.BuildSelection` | controller/cmd/dialer/receive_route_readback.go:28-60 | Takes the relay's link over the receiver's, then the legacy device, and fails exactly when a scoped destination has none. |
| `RouteReadback.VerifyDestinations` | controller/cmd/dialer/receive_route_readback.go:60-107 | The nested loops accept exactly the tables that have each selected route once, as selected, and no unselected route in the way. |
| `RouteReadback.ReadbackDecidesEveryAddress` | controller/cmd/dialer/receive_route_readback.go:28-107 | After a passed readback every address under a selected destination is forwarded by one plain unicast route, that of the longest selected destination, with its link, gateway and source and its family's metric. |
| `RouteReadback.ScanCoverage` | controller/cmd/dialer/receive_advertisements.go:204-214 | Finds the longest own prefix around the destination. |
| `RouteReadback.VerifyLegacyPeer` | controller/cmd/dialer/receive_advertisements.go:188-226 | Accepts exactly when the own peer is current and covers every destination unshadowed. |
| `RouteReadback.LegacyPeerCarriesEveryAddress` | controller/cmd/dialer/receive_advertisements.go:188-226 | Every address of a verified destination resolves in the accept lists to the worker's own peer and no other. |
| `RouteReadback.CarriedIff` | controller/cmd/dialer/receive_advertisements.go:188-226 | With distinct keys the check is exact: a destination passes if and only if an own prefix contains it and every address of it resolves to the worker's own peer alone. |
| `Prefixes.OverlapIffCommonAddress` | controller/cmd/dialer/receive_follower_cache.go:95-99 | Overlap of prefixes is exactly having a common address. |
| `SourceRoutes.Allocations` | controller/cmd/dialer/source_routes.go:179-196 | Accepts exactly one allocation per family. |
| `SourceRoutes.AllocatedIff` | controller/cmd/dialer/source_routes.go:179-196 | Each family then has exactly the address that was allocated to it. |
| `SourceRoutes.PlannableIff` | controller/cmd/dialer/source_routes.go:147-177 | A plan exists exactly when nothing is wanted, or every host has the one allocation of its family. |
| `SourceRoutes.PlannedSources` | controller/cmd/dialer/source_routes.go:147-177 | The planned sources are the allocations of the wanted hosts' families and no others. |
| `SourceRoutes.Plan` | controller/cmd/dialer/source_routes.go:147-177 | Succeeds exactly when every host's family is allocated, and keeps only the wanted families. |
| `SourceRoutes.Preserve` | controller/cmd/dialer/source_routes_scope.go:48-89 | Accepts exactly when every family with hosts outside the scope has its one allocated selector. |
| `SourceRoutes.SortCounts` | controller/cmd/dialer/source_routes.go:111-120 | Sorting splits the rules into one selector per found family and the stale rest, losing and inventing none. |
| `SourceRoutes.VerifySelectors` | controller/cmd/dialer/source_routes_readback.go:56-66 | Accepts exactly one selector per source and nothing else. |
| `SourceRoutes.SourceTable.Reconcile` | controller/cmd/dialer/source_routes.go:63-145 | Refuses before any change, also for an empty or default scope, or keeps hosts outside the scope routed and selected in every state; success is exact, with one selector per family that has routes; it succeeds when nothing fails. |
| `SourceRoutes.SourceTable.Clear` | controller/cmd/dialer/source_routes.go:25-58 | Leaves no route and no selector. |
| `SourceRoutes.SourceTable.Withdraw` | controller/cmd/dialer/receive_withdraw_sources.go:14-84 | The same for withdrawal: refuses unadmitted destinations, removes exactly the admitted ones, and never drops a selector still needed. |
| `InstallRoutes.Tables.Install` | controller/cmd/dialer/main.go:2100-2289 | Refuses before any change exactly when a destination is protected or out of scope; no state loses a wanted, claimed or foreign route; without failures the table is exactly the target and the main table emptied, and the pass succeeds exactly when nothing was in the way of its readback. |
| `InstallRoutes.AdmittedIff` | controller/cmd/dialer/main.go:2100-2178 | Admitted means: no address of a destination is the node's own, a gateway's, reserved or used for management; a scoped request stays inside a scope that is neither empty nor everything; receivers serve listed destinations, and without a tunnel device all of them. |
| `InstallRoutes.TargetIsExact` | controller/cmd/dialer/main.go:2179-2252 | The target is the only table that has the wanted routes, keeps claimed, kernel and out-of-scope routes as they were, and nothing else. |
| `InstallRoutes.TargetMeans` | controller/cmd/dialer/main.go:2179-2252 | A relayed destination goes through the relay's address of its family, a listed one through its receiver or else the tunnel device, and any other stays as it was exactly when it is the kernel's, claimed or out of scope. |
| `InstallRoutes.CleanIff` | controller/cmd/dialer/main.go:2286-2289 | The readback accepts what a pass leaves exactly when no route it keeps or adds lies in the scope or under a selected destination unselected, and no selected destination is relayed another way. |
| `InstallRoutes.ReadbackAfterInstallIff` | controller/cmd/dialer/receive_route_readback.go:28-107 | The same for every kernel listing of that table and the readback of `RouteReadback`, which decides every address. |
| `InstallRoutes.KeptRouteCanBeInTheWay` | controller/cmd/dialer/main.go:2286-2289 | A concrete admitted request that installs its route and is then refused. |
| `InstallRoutes.InstallIsIdempotent` | controller/cmd/dialer/main.go:2222-2252 | A pass repeated on its own result changes nothing. |
| `TunnelRules.PlanTunnelRules` | controller/cmd/dialer/policy_rules.go:17-62 | Succeeds exactly when nothing collides and no rule is double, and plans exactly the missing rules. |
| `TunnelRules.MarkIsLowBits` | controller/cmd/dialer/policy_rules.go:17-62 | A mark is compared by its low 32 bits. |
| `TunnelRules.AddingSettlesOne` | controller/cmd/dialer/policy_rules.go:45-61 | Adding any planned rule, wherever and with whatever full mask the kernel lists it, leaves exactly the rest of the plan. |
| `TunnelRules.OtherTunnelIsNoObstacle` | controller/cmd/dialer/policy_rules.go:31-43 | Another tunnel's exemption, however and wherever the kernel lists it, neither blocks nor changes the plan. |
| `TunnelRules.MarkedPacketsUseMain` | controller/cmd/dialer/main.go:2486-2501 | In a settled list the first rule a marked packet meets at priority 1 or later is the exemption to the main table. |
| `TunnelRules.MarkedPacketsAreMet` | controller/cmd/dialer/main.go:2495-2501 | Such a rule always exists. |
| `TunnelRules.Policy.EnsureRouteRule` | controller/cmd/dialer/main.go:2502-2542 | Adds nothing unless both families can be planned; success settles both, and follows when nothing fails. |
| `Speaker.TransitSpeaker.Reconcile` | controller/cmd/dialer/bgp.go:121-179 | Stays exact wherever it stops when no network has two spellings, and is exact after a complete pass only then; success remembers exactly the wanted routes; no observation never withdraws. |
| `Speaker.TransitSpeaker.WithdrawPrefixes` | controller/cmd/dialer/receive_withdraw_advertisements.go:54-90 | Withdraws exactly the given prefixes and changes no other path; refuses invalid destinations before any change. |
| `Speaker.TwoSpellings` | controller/cmd/dialer/bgp.go:157-177 | Two spellings of one network among old and wanted prefixes leave the memory wrong about the table. |
| `Speaker.SpellingMatters` | controller/cmd/dialer/bgp.go:157-177 | A concrete speaker and route list with two spellings. |
| `Speaker.EveryPathHasNextHop` | controller/cmd/dialer/bgp.go:145-156 | With an address per spoken family every path carries this node's address of its family. |
| `Speaker.TableIsSpoken` | controller/cmd/dialer/bgp.go:121-179 | An exact speaker has exactly the networks of the routes it speaks, each with the preference of the last route spelled so and this node's address of its family. |
| `Rehome.RehomeTransit` | controller/cmd/dialer/rehome.go:28-115 | The loops compute the move that the results below are about; with every declared owner live the list is unchanged. |
| `Rehome.RehomedIff` | controller/cmd/dialer/rehome.go:28-70 | The list changes exactly when the first declared owner is silent and another local relay without an endpoint, with an address, is heard from; the declaration then moves to such a relay. |
| `Rehome.ElectedIsLeast` | controller/cmd/dialer/rehome.go:46-65 | Nobody eligible has a lower address than the elected relay. |
| `Rehome.ElectionIgnoresOrder` | controller/cmd/dialer/rehome.go:46-65 | With one declared owner and distinct addresses, every reordering of the list moves too, from the same owner to the same relay. |
| `Rehome.MoveConservesIff` | controller/cmd/dialer/rehome.go:70-114 | A move keeps the union of accept entries and their disjointness exactly when the loser or the gainer holds every declared entry. |
| `Rehome.MoveRoutesIff` | controller/cmd/dialer/rehome.go:76-114 | A move keeps the routed hosts exactly when someone routed every declared host; the declaration itself moves whole and no other peer changes. |
| `Rehome.RehomingIsIdempotent` | controller/cmd/dialer/rehome.go:28-115 | With one declared owner a second pass changes nothing. |
| `Rehome.TwoOwnersMoveTwice` | controller/cmd/dialer/rehome.go:29-38 | With two declared owners it can. |
| `ReversePath.Sysctls.Move` | controller/cmd/dialer/receive_rpfilter.go:43-84 | In every state, with interfaces appearing meanwhile, no other interface's effective policy has changed and none is below the old floor; success frees only the receiver and leaves every other and every future interface at the floor or above; an unknown policy is refused before any change. |
| `ReversePath.Sysctls.PreserveListed` | controller/cmd/dialer/receive_rpfilter.go:56-74 | Afterwards every other interface, listed or created later, carries the floor itself. |

## Left out

- RelayProtocol.NoForwardingLoop: timestamps, nonces and the drain interval are not modelled; they only refuse further histories.
- HandoverHistory.RollbackAcceptedIff: an event may also be refused for its time or nonce, which are not modelled.
- HandoverHistory.CanComplete: waiting out the drain interval and renewing expired rounds in between are not counted.
- RelayGuard.ValidateReceipts: authentication of receipts is the parameter `live`.
- FollowerHost.Writer.Retire: live authority and the absence of native receiver state are one step that may be refused; the speaker's part of the pass is in `Speaker`. The projection of the cache is a parameter that names only cached keys in the spelling the cache has, and a cached worker with an empty name is not modelled.
- FollowerRecord.Decode: the global-unicast class of addresses and the file's identity fields are not modelled.
- NeighborCheckpoint.Host.Reconcile: the import of cloud-legacy permissions is not modelled, published entries are remote and declare no transit, as the mesh renders them, and the passes over routes and the renewals of live authority are steps that may fail.
- NeighborCheckpoint.Host.Retire: the draining of routes before the peers go is in `InstallRoutes`.
- Inventory.Validate: evidence is opaque, so the JSON shape of evidence is not modelled.
- OwnerRecords.Host.Prepare: the retirement of missing receivers between its writes is the separate operation `Retire`.
- OwnerRecords.Host.Retire: whether a record can be planned is a parameter.
- SiteCaches.SiteFiles.Withdraw: the hash is modelled by the render itself, that is, taken to be injective.
- SourceRoutes.SourceTable.Reconcile: prepared receiver devices and handshakes are parameters.
- InstallRoutes.Tables.Install: one route per destination; metrics and source addresses are not modelled.
- ReversePath.Sysctls.Move: interfaces may appear while it runs but not disappear.
- DeviceDelta.PlanDevice: a device's request is applied entry by entry under one-owner-per-prefix semantics; splitting one entry over several kernel messages is not modelled.
- The collection of advertisement groups (`planReceiveAdvertisements`, `reconcileReceiveAdvertisements`) beyond the legacy-peer check, the ranking of endpoints (`endpointRank`) and the disposal of route hosts (`disposeRouteHost`).
- API reads and patches, netlink and WireGuard encodings, JSON decoding, file modes, fsync and key derivation.
- The endpoint controller, image builds, providers and documentation tooling.
