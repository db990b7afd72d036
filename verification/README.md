# Verification of awg-portal

A Dafny model of the parts of the WireGuard/AmneziaWG portal that carry state, arithmetic or round trips, with
proofs of what they guarantee. `dafny verify dfyconfig.toml` checks all of it.

| module | what it models |
|---|---|
| InterfaceStore, DevicePeers | the two stores of an interface, database and device, across saves, rollbacks and restores; every call may fail |
| ProcessManager | the table of amneziawg-go processes, its watchdogs, and concurrent starts and stops, one step per critical section |
| Routing | the reconciliation of routes and policy rules through netlink |
| Cidrs, CidrText | prefix arithmetic on IPv4 and IPv6, and comma-separated lists (section 3.1 of RFC 4632) |
| InterfaceAddresses, InterfaceDefaults, PeerAddresses, MixedNetworks | the allocators of subnets, ports, names and peer addresses |
| Peers | merging stored peers into device peers, importing them, and the routes of an interface |
| Uapi, Decimal | the line protocol of amneziawg-go: the dump parser and the message that sets a peer |
| EncryptedColumn, Base64 | the serializer of encrypted columns: padding (section 6.3 of RFC 5652), chaining (section 6.2 of NIST SP 800-38A), base64 (section 4 of RFC 4648) |
| IdentifierEncoding | the identifiers in URLs, encoded by the frontend and decoded by the backend |
| LdapSync | the synchronisation of users with an LDAP provider |
| PeerStatistics | the connection state of peers under collector and ping updates |
| Totp | the second factor: enrollment, replay protection, recovery codes |

Objects that the program updates in place are classes, its loops are loops, and each such method is tied to a
function or relation of the state before it; the lemmas are about those. A call that may fail chooses
nondeterministically, so that a contract holds whichever call fails. A field `reliable` rules such failures out; the
contracts then say when the operation succeeds.

## Where the code falls short of what it is for

The proofs state these cases exactly; the code is modelled as it is.

- A device call of the controller that fails halfway is not compensated, and leaves the stores in disagreement
  under an exact condition (`InterfaceStore.HalfwayAgreesIff`, `InterfaceStore.DisablingMayEndHalfway`). Restoring a missing device leaves the record disabled if the save fails.
- When a step after the record was saved fails in a mode switch or while enabling an interface, its peers may be
  missing on the device, and later saves do not push them (`InterfaceStore.LateFailureAgreesIff`,
  `InterfaceStore.SwitchMayLosePeers`, `InterfaceStore.LostPeersStayLost`); restoring does.
- On an AWG device the merge does not see that the controller is the local one, so that disabled peers are
  pushed as active ones (`DevicePeers.AwgPush`, `InterfaceStore.OnlyEnabledPeersIff`); and networks are added,
  never replaced (`DevicePeers.FitsAwgIff`).
- Clearing a preshared key, endpoint or keepalive does not clear it on the device (`DevicePeers.FitsKernelIff`).
- A changed interface type reaches the peers in the database but not the device (`InterfaceStore.TypeChangeIff`).
- A start that times out stops by name, and may hit the process of another start
  (`ProcessManager.TimeoutMayStopAnother`).
- With two main suppress rules, every rule listed behind the second is deleted (`Routing.OthersAreDeletedIff`).
  A failure to add the main rule is not reported (`Routing.SecondCallChangesNothingIff`,
  `Routing.MainRuleMayBeLost`).
- An allowed CIDR with host bits gets no route (`Routing.DestinationsAreWanted`). A repeated call that stops halfway
  has lost the connected routes (`Routing.RepeatLeaves`, `Routing.RepeatMayLoseConnected`).
- If the device cannot be read and no table was requested, rules of the table with another mark stay
  (`Routing.NoRuleForTableIff`, `Routing.RuleMayStay`).
- Past the end of the address space the allocators panic where an error is meant
  (`InterfaceAddresses.GetFreshInterfaceIpConfig`, `PeerAddresses.GetFreshPeerIpConfig`), and subnets of different
  lengths may overlap (`InterfaceAddresses.OverlapAcrossLengths`).
- A session event goes out although the update was not saved (`PeerStatistics.EventsAgreeIff`).
- The code that confirms an enrollment can be used once more (`Totp.EnrollmentCodeIsAcceptedAgain`).
- A user linked to another LDAP provider is linked only when something else changes
  (`LdapSync.LinkedOnSyncIff`).
- A plain identifier that begins with one of I-Z and a-f may be read as an encoded one
  (`IdentifierEncoding.FirstCharacterDecides`, `IdentifierEncoding.PlainCollision`).
- IPv4-mapped addresses are not contained in an IPv6 prefix whose range they lie in (`Cidrs.MappedException`), so
  that peers of such a network may get the same address (`PeerAddresses.MixedNetworkRepeats`,
  `MixedNetworks.FreshIff`).

## Model

| member | source | states |
|---|---|---|
| InterfaceStore.Manager.SaveInterface | internal/app/wireguard/wireguard_interfaces.go:557-783 | whichever step fails, the database and the devices end as one of six outcomes says, each given as a relation between the stores before and after, down to the settings a halfway failure leaves; success is one of them; other interfaces are untouched; it succeeds whenever no call to the database, the kernel or a hook fails and AWG is not off with an AWG device left |
| InterfaceStore.Manager.MoveRecord | internal/app/wireguard/wireguard_interfaces.go:590-669 | device before record, teardown first in a mode switch, and compensation when the creation or the database save fails; what a halfway failure and a failed compensation leave |
| InterfaceStore.Manager.FinishSave | internal/app/wireguard/wireguard_interfaces.go:671-771 | every peer record takes over the type and the AWG settings; peers are pushed again exactly after a mode switch or when newly enabled |
| InterfaceStore.PeersTakeOver | internal/app/wireguard/wireguard_interfaces.go:671-706 | after a successful save every peer of the interface has its AWG settings, and the type server for a client interface, client for a server interface, any for any, its own if untyped, and everything else as before; after a late failure each peer has or has not; in all other cases no peer record changes |
| InterfaceStore.Manager.RollbackPhysicalInterface | internal/app/wireguard/wireguard_interfaces.go:793-838 | a successful rollback leaves the old device with its configuration and, if enabled, all its peers; with no old record, no device; a failed one leaves a device between where it started and the old record, or none; with no call failing it succeeds |
| InterfaceStore.Manager.ApplyPhysicalInterface | internal/adapters/wgcontroller/local.go:226-269 | on success the device exists, of the kind it had or the one the record calls for, with exactly the settings of the record on top of its own; a failure leaves it as it was or partway; its peers are kept |
| InterfaceStore.Manager.CreateLowLevelInterface | internal/adapters/wgcontroller/local.go:379-437 | a new device is an amneziawg-go TUN exactly when mode and record ask for it; there is no silent downgrade to a kernel device |
| InterfaceStore.Manager.UpdateLowLevelInterface | internal/adapters/wgcontroller/local.go:439-494 | on success exactly MTU, addresses and link state follow the record; a failure leaves at most the MTU set and addresses between the old and the new ones |
| InterfaceStore.Manager.UpdateWireGuardInterface | internal/adapters/wgcontroller/local.go:496-566 | one call sets keys and port, the mark if there is one, and AWG parameters only if AWG is on and emitted; a failure changes nothing |
| InterfaceStore.Manager.DeleteInterface | internal/adapters/wgcontroller/local.go:568-596 | success means the device is gone, also if it was missing; a failure may still have taken an AWG device down |
| InterfaceStore.Manager.SavePeer | internal/adapters/wgcontroller/local.go:598-698 | on success the peer on the device is what a push makes of it; a failing push leaves it, completes it, or leaves a newly created blank peer |
| InterfaceStore.Manager.PushPeers | internal/app/wireguard/wireguard_interfaces.go:752-771 | pushing all peers makes each listed one what a push makes of it and leaves other peers on the device |
| InterfaceStore.Manager.SavePeers | internal/app/wireguard/wireguard_peers.go:526-608 | on success every peer is stored with the AWG settings of its interface, the last entry counting, other records are untouched, and a batch of distinct new peers keeps every agreeing device in agreement; with no call failing it succeeds if every peer is for an interface with a record and a device |
| InterfaceStore.SavedPeerAgreesIff | internal/app/wireguard/wireguard_peers.go:556-575 | a device agrees with the database after one of its peers was saved if and only if no stale setting of the device shows through in that peer |
| InterfaceStore.NewPeerKeepsAgreement | internal/app/wireguard/wireguard_peers.go:556-575 | saving a peer that is new to the database keeps its device, and every other one, in agreement |
| InterfaceStore.AgreementIsKept | internal/app/wireguard/wireguard_interfaces.go:557-838 | unless a rollback step fails, record and device agree after every outcome, both on the old interface or both on the new one; for a device call that failed halfway under an exact condition on the start |
| InterfaceStore.HalfwayAgreesIff | internal/app/wireguard/wireguard_interfaces.go:615-650 | from an agreeing start every halfway failure leaves agreement if and only if there is a record and either a mode switch leaves a kernel device, or the new record changes no link setting, and for an emitted AWG interface no setting at all |
| InterfaceStore.DisablingMayEndHalfway | internal/app/wireguard/wireguard_interfaces.go:637-650 | two stores between which disabling an interface failed halfway: the link is down and the record says enabled |
| InterfaceStore.TunIffRecordCallsForIt | internal/adapters/wgcontroller/local.go:312-315 | with agreement, the device is an AWG TUN exactly when the mode is "always", or "auto" with AWG enabled and a nonzero parameter |
| InterfaceStore.PeersAreKept | internal/app/wireguard/wireguard_interfaces.go:557-838 | with the type unchanged, an enabled interface with a device has exactly the projections of its database peers after success, rejection, compensation and halfway failure, and after a later failure under an exact condition on the start; otherwise the peers on the device still fit |
| InterfaceStore.LateFailureAgreesIff | internal/app/wireguard/wireguard_interfaces.go:671-771 | whatever fails after the record was saved, an enabled interface has the projections of its peers, if and only if peers are not to be pushed again, or the device that stays has each projection already |
| InterfaceStore.SwitchMayLosePeers | internal/app/wireguard/wireguard_interfaces.go:671-771 | two stores between which AWG was turned on and the post-save hook failed: the enabled peer is not on the new device |
| InterfaceStore.LostPeersStayLost | internal/app/wireguard/wireguard_interfaces.go:744-772 | a later save of the enabled interface leaves the peers on the device as they are, so that missing ones stay missing |
| InterfaceStore.RunKeepsAgreement | internal/app/wireguard/wireguard_interfaces.go:557-838 | along any run of saves that succeed, are rejected, are compensated, or fail halfway or late where that is harmless, every interface stays in agreement, record and peers |
| InterfaceStore.OthersKeepAgreement | internal/app/wireguard/wireguard_interfaces.go:557-838 | a save affects the agreement of no other interface |
| InterfaceStore.OnlyEnabledPeersIff | internal/adapters/wgcontroller/local.go:643-667 | the agreeing peers of a device are the enabled ones if and only if it is a kernel device or no peer is disabled: disabled peers are pushed to AWG devices as active |
| InterfaceStore.TypeChangeIff | internal/app/wireguard/wireguard_interfaces.go:671-706 | after a change of type without a mode switch the device agrees with the database if and only if no projection of a peer has changed |
| InterfaceStore.Manager.RestoreInterfaceState | internal/app/wireguard/wireguard_interfaces.go:205-329 | a success leaves the database records as they were, and each selected device whose peers can be listed with exactly the expected peers: none if disabled, no foreign ones; with the type unchanged they are the projections if and only if what the device held fits; unselected devices are untouched; with no call failing it succeeds |
| InterfaceStore.Manager.RestoreInterface | internal/app/wireguard/wireguard_interfaces.go:224-325 | the same for one interface, identifiers and settings; a missing device is created, and meanwhile the record says disabled |
| InterfaceStore.Manager.RemoveForeignPeers | internal/app/wireguard/wireguard_interfaces.go:307-325 | after a success the device has those of its peers that are stored, unchanged, and no others |
| DevicePeers.KernelPush | internal/adapters/wgcontroller/local.go:598-640 | reading a peer back, merging and updating amounts to the specified push on a kernel device, with the disabled flag set for deletion |
| DevicePeers.AwgPush | internal/adapters/wgcontroller/local.go:643-698 | merging into a blank peer amounts to the specified push on an AWG device, where the disabled flag is never set |
| DevicePeers.PushedTwice | internal/adapters/wgcontroller/local.go:598-698 | pushing a peer twice is pushing it once |
| DevicePeers.PushedAgain | internal/adapters/wgcontroller/local.go:598-698 | pushing a peer again changes nothing, whatever the device held before |
| DevicePeers.FitsKernelIff | internal/adapters/wgcontroller/local.go:757-775 | the exact cases in which a stale key, endpoint or keepalive of a kernel device survives a push |
| DevicePeers.FitsAwgIff | internal/adapters/wgcontroller/local.go:676-697 | on an AWG device a network that is no longer allowed survives a push as well |
| ProcessManager.ProcessTable.CheckAndSpawn | internal/lowlevel/awg.go:171-220 | the locked part of a start: waits for a pending stop, finds a managed or external process, or spawns and registers a new one |
| ProcessManager.StartDecides | internal/lowlevel/awg.go:171-220 | in every reachable state a start that finds a process being stopped waits for that very process, one that finds another tracked process reports it managed, and the socket decides otherwise; no other call is affected |
| ProcessManager.ManagedIsNotStopping | internal/lowlevel/awg.go:173-183 | no start of any run reports a process managed that is being stopped or has been reaped |
| ProcessManager.StartWaitsForReaping | internal/lowlevel/awg.go:173-179 | in every interleaving a start that found its process being stopped goes on only when that very process is reaped |
| ProcessManager.ProcessTable.MarkStopping | internal/lowlevel/awg.go:323-329 | the locked part of a stop marks the tracked entry and nothing else |
| ProcessManager.StopDecides | internal/lowlevel/awg.go:323-336 | in every reachable state a stop marks the tracked entry and nothing else, and falls back to killing by name without one |
| ProcessManager.ProcessTable.Reap | internal/lowlevel/awg.go:260-282 | the locked part of the watchdog records the error, forgets the entry if it is still the tracked one, and closes its channel |
| ProcessManager.WaitErrorIsRecorded | internal/lowlevel/awg.go:260-282 | along every run the error that waiting for a process returned is the one its entry records |
| ProcessManager.ProcessTable.IsRunning | internal/lowlevel/awg.go:387-396 | true exactly for a tracked process that is not being stopped, which then has not been reaped |
| ProcessManager.DoneOpenIffTracked | internal/lowlevel/awg.go:128-139 | in every reachable state the done channel of an entry is open iff the table tracks it; it is closed at most once, and the wait error is set exactly when it is closed |
| ProcessManager.AtMostOneProcess | internal/lowlevel/awg.go:108-117 | in every reachable state at most one managed process of an interface has not been reaped |
| ProcessManager.SpawnsWhenAllAreGone | internal/lowlevel/awg.go:171-214 | a start spawns exactly when every earlier process of the interface has exited and been reaped, and no live or stuck socket is in the way |
| ProcessManager.StopWaitsForReaping | internal/lowlevel/awg.go:323-368 | in every interleaving a stop that found a tracked entry goes on only when that entry is reaped: a plain stop, the one of a start that timed out, and each one when stopping everything |
| ProcessManager.UntrackedIsGone | internal/lowlevel/awg.go:331-336 | a stop that finds nothing tracked has no managed process left |
| ProcessManager.StopAllReapsWhatItListed | internal/lowlevel/awg.go:371-382 | when stopping everything returns, every process tracked when the names were taken has been reaped |
| ProcessManager.EveryCallCanReturn | internal/lowlevel/awg.go:171-382 | no deadlock: from every reachable state and for every start and stop in progress there is a continuation in which it returns |
| ProcessManager.ExitCanBeReported | internal/lowlevel/awg.go:222-236 | a start whose process was reaped can report the error of that process |
| ProcessManager.ExitIsReportedTruly | internal/lowlevel/awg.go:222-236 | a start whose process exits reports the wait error of that very process |
| ProcessManager.TimeoutStopsOwnIff | internal/lowlevel/awg.go:245-247 | a start that times out stops its own process if and only if that one has not been reaped |
| ProcessManager.TimeoutMayStopAnother | internal/lowlevel/awg.go:245-247 | a run in which it stops the live process of another start |
| ProcessManager.RunGrows | internal/lowlevel/awg.go:128-139 | along a run entries are only added; stopping, reaping and the wait error are final |
| Routing.LocalController.SetRoutes | internal/adapters/wgcontroller/local.go:904-961 | success leaves routes, rules and mark reconciled with the request; wherever the call stops, other links are untouched, allowed destinations are kept, only requested routes and rules are added, and at most one main rule stays at most one; an added mark rule has the highest free priority up to 32700, an added main rule the lowest free one from the offset on, and a due main rule is added unless that very call failed; with no other call failing the outcome is a failure exactly if adding a missing mark rule fails |
| Routing.LocalController.SetRoutesForFamily | internal/adapters/wgcontroller/local.go:963-1081 | the routes of one family after success, whatever was there before, and its rules if there was at most one main rule; priorities and the main rule as for SetRoutes; with several main rules at the start, exactly the listed and added rules before the second main rule are left |
| Routing.LocalController.RemoveExtraMainRules | internal/adapters/wgcontroller/local.go:1063-1078 | with at most one main rule nothing happens; otherwise exactly the rules from the second main rule on are deleted, from the IPv4 rules if the library does not report their family |
| Routing.LocalController.GetMainRulePriority | internal/adapters/wgcontroller/local.go:1117-1134 | the search ends with the lowest unused priority at or above the offset |
| Routing.LocalController.GetRulePriority | internal/adapters/wgcontroller/local.go:1136-1153 | the search ends with the highest unused priority at or below 32700 |
| Routing.LocalController.RemoveRoutes | internal/adapters/wgcontroller/local.go:1156-1227 | success removes exactly the routes of the link in the table to allowed destinations, and the rules selected by table and mark, or by table alone; with no call failing it succeeds if the library reports families or no table was requested or recalled |
| Routing.LocalController.RemoveRouteRulesForTable | internal/adapters/wgcontroller/local.go:1290-1307 | deletes the rules of the table, also if the library does not report their family and the IPv4 rules are already gone |
| Routing.DestinationsAreWanted | internal/adapters/wgcontroller/local.go:904-961 | after success the destinations of the link are exactly the masked allowed CIDRs and the networks of the interface addresses; each masked allowed CIDR is in the resolved table; allowed CIDRs with host bits get no route |
| Routing.RulesArePresent | internal/adapters/wgcontroller/local.go:1018-1081 | after success from at most one main rule, both families have the rule for the mark, keep all their rules, and at most one main rule |
| Routing.SecondCallChangesNothingIff | internal/adapters/wgcontroller/local.go:904-961 | the same call again, if it succeeds, changes nothing, also where adding the main rule fails, if and only if no main rule is due after the first: no default route, table zero, or a main rule is there |
| Routing.RepeatLeaves | internal/adapters/wgcontroller/local.go:904-961 | the same call again, wherever it stops, may have lost connected routes that are not allowed CIDRs and left routes for allowed CIDRs with host bits, and changes nothing else unless a main rule was due |
| Routing.RepeatMayLoseConnected | internal/adapters/wgcontroller/local.go:944-958 | states between which a repeated call stopped after the clean-up and lost the connected route |
| Routing.DueAfterIff | internal/adapters/wgcontroller/local.go:1044-1060 | a main rule is due after a call exactly if it was due before and the call failed to add it |
| Routing.MainRuleMayBeLost | internal/adapters/wgcontroller/local.go:1044-1060 | two states between which a call succeeded although adding the main rule failed |
| Routing.OthersAreDeletedIff | internal/adapters/wgcontroller/local.go:1068-1078 | unrelated rules are deleted if and only if one is listed behind a second main rule |
| Routing.DoomedIsTail | internal/adapters/wgcontroller/local.go:1068-1078 | what is deleted is the tail of the list from the second main rule on |
| Routing.UnrelatedRuleIsLost | internal/adapters/wgcontroller/local.go:1068-1078 | a list of rules on which an unrelated rule is lost |
| Routing.RecallsWhatWasSet | internal/adapters/wgcontroller/local.go:1083-1103 | removing resolves to the table and mark of setting, for zero and nonzero requests, whether the device can be read or not |
| Routing.ResolvesToZero | internal/adapters/wgcontroller/local.go:1083-1103 | the resolved table is zero only when nothing is requested and the generated mark wraps around to zero |
| Routing.RemovedAfterSet | internal/adapters/wgcontroller/local.go:1156-1288 | after setting and removing, no allowed destination and no rule for the mark is left in the table, and outside the main table no route of the link at all; exact condition for table zero |
| Routing.NoRuleForTableIff | internal/adapters/wgcontroller/local.go:1215-1224 | no rule for the table is left in either family if and only if a positive table was requested, or the device could be read and has a positive mark serving as the table, or all rules for the table had the mark |
| Routing.RuleMayStay | internal/adapters/wgcontroller/local.go:1213-1224 | a call of SetRoutes and a removal after it that leaves the rule another program added for the table: none requested, device unreadable |
| Cidrs.BroadcastAddr | internal/domain/ip.go:105-136 | the bit loop over sixteen bytes computes the last address of the prefix, for both families |
| Cidrs.PrefixIsRange | internal/domain/ip.go:105-146 | an address shares the prefix exactly when it lies between network and broadcast address |
| Cidrs.BroadcastIsGreatest | internal/domain/ip.go:105-146 | network and broadcast address are the least and greatest of the prefix |
| Cidrs.ContainsIsRange | internal/domain/ip.go:200-205 | containment is lying between network and broadcast address, once IPv4-mapped sides are in IPv4 form |
| Cidrs.ContainsUnmapped | internal/domain/ip.go:200-205 | without IPv4-mapped addresses the range alone decides |
| Cidrs.MappedException | internal/domain/ip.go:200-205 | an address within the range of a prefix that is not contained, being IPv4-mapped |
| Cidrs.MappedIsV4 | internal/domain/ip.go:200-205 | an IPv4-mapped prefix contains what the IPv4 prefix of its addresses contains |
| Cidrs.EqualOrDisjoint | internal/domain/ip.go:139-146 | two prefixes of one length are equal or disjoint |
| Cidrs.NestedOrDisjoint | internal/domain/ip.go:139-146 | a longer prefix lies inside a shorter one or outside of it |
| Cidrs.NextSubnetIsAdjacent | internal/domain/ip.go:176-184 | the next subnet is masked and begins right behind the broadcast address, or the address space is exhausted |
| Cidrs.CidrsPerFamily | internal/domain/ip.go:219-228 | splits a list by family, keeping the order |
| Cidrs.FamiliesPartition | internal/domain/ip.go:219-228 | nothing is lost or invented by the split |
| CidrText.CidrsFromString | internal/domain/ip.go:41-54 | the list of the parsed parts, or none if one does not parse |
| CidrText.ListRoundTrip | internal/domain/ip.go:41-54 | a printed list is parsed back exactly when it is not empty; with errors ignored the empty one comes back too |
| CidrText.FaithfulExists | internal/domain/ip.go:33-39 | text forms of prefixes as assumed for lists are possible |
| InterfaceAddresses.GetFreshInterfaceIpConfig | internal/app/wireguard/wireguard_interfaces.go:983-1041 | terminates with the address after the network address of the lowest subnet at or above the start that is no used network; panics exactly when there is none |
| InterfaceAddresses.FreshIsDisjoint | internal/app/wireguard/wireguard_interfaces.go:1006-1038 | the new subnet is disjoint from every used network of its length |
| InterfaceAddresses.OverlapAcrossLengths | internal/app/wireguard/wireguard_interfaces.go:1006-1038 | a used network of another length that it overlaps |
| InterfaceAddresses.ResultInSubnet | internal/app/wireguard/wireguard_interfaces.go:1033-1040 | the result lies in its subnet exactly when the subnet has a second address |
| InterfaceAddresses.SearchStartsAtConfigured | internal/app/wireguard/wireguard_interfaces.go:990-998 | the search starts at the configured network itself unless that is a single address |
| InterfaceDefaults.GetFreshListenPort | internal/app/wireguard/wireguard_interfaces.go:1043-1071 | the least unused port at or above the configured one; an error exactly when all up to 65535 are in use |
| InterfaceDefaults.GetNewInterfaceName | internal/app/wireguard/wireguard_interfaces.go:954-981 | the name with the least unused number |
| InterfaceDefaults.WgNamesPassThrough | internal/app/api/v0/handlers/encoding.go:47-89 | generated names are left alone by the identifier decoder |
| PeerAddresses.GetUsedIpsPerSubnet | internal/adapters/database.go:784-836 | interface and peer addresses, each filed under the first subnet that contains it |
| PeerAddresses.GetFreshPeerIpConfig | internal/app/wireguard/wireguard_peers.go:610-654 | per default network the least address above the listed one that is not filed there; the exact conditions of failure |
| PeerAddresses.FindFree | internal/app/wireguard/wireguard_peers.go:634-651 | terminates; fails exactly when no address up to the end of the address space is free |
| PeerAddresses.AssignedInsideIff | internal/app/wireguard/wireguard_peers.go:634-651 | the address lies in its subnet exactly when the subnet has a free address above the listed one |
| PeerAddresses.AssignedIsFresh | internal/app/wireguard/wireguard_peers.go:610-654 | with disjoint networks an address inside its subnet is that of no interface and no peer |
| PeerAddresses.PeerDatabase.CreateMultiplePeers | internal/app/wireguard/wireguard_peers.go:320-357 | each peer is prepared with the earlier ones stored; a failure keeps those stored so far |
| PeerAddresses.RunAssignsFreshAddresses | internal/app/wireguard/wireguard_peers.go:320-357 | over a run on disjoint networks with room, every address is the least free one of its subnet, lies in it, and differs from all stored and all other assigned addresses, provided that a network mixing IPv4-mapped and other addresses has none of them among as many addresses above the listed one as there are stored addresses and peers |
| MixedNetworks.FreshIff | internal/app/wireguard/wireguard_peers.go:320-357 | on one network, for so many stored addresses and peers: every run gives fresh and distinct addresses if and only if the network does not mix, or together they do not reach beyond the first IPv4-mapped address |
| PeerAddresses.MixedNetworkRepeats | internal/app/wireguard/wireguard_peers.go:320-357 | within their reach it fails: a network and a run in which two peers get the same address |
| PeerAddresses.LeastFreeIsNear | internal/app/wireguard/wireguard_peers.go:634-651 | the assigned address is at most as far above the listed one as there are used addresses |
| PeerAddresses.ContainsIff | internal/domain/ip.go:200-205 | within a family containment is sharing the prefix, except for IPv4-mapped addresses in a prefix that mixes them with others |
| Peers.PhysicalPeer.MergeToPhysicalPeer | internal/domain/peer.go:365-427 | what merging a stored peer changes in a device peer, by type |
| Peers.MergedNetworks | internal/domain/peer.go:365-427 | what is pushed, from the networks whose printed lists are stored: the addresses as hosts for the peers of a server, the allowed networks for those of a client, then the extra networks |
| Peers.MergedSettings | internal/domain/peer.go:365-427 | identity and keys are always set, endpoint and keepalive only by type, the disabled flag for the local controller only |
| Peers.ImportPeer | internal/app/wireguard/wireguard_interfaces.go:1198-1279 | what an imported peer is stored as |
| Peers.ImportedAs | internal/app/wireguard/wireguard_interfaces.go:1198-1279 | an imported peer of a client interface is a server, of a server interface a client; keys, endpoint, keepalive and the disabled flag are those of the device |
| Peers.ImportedNetworks | internal/app/wireguard/wireguard_interfaces.go:1212-1232 | an entry becomes an extra network exactly if it is no host and has no host bits, and an address otherwise |
| Peers.ImportThenMergeIff | internal/app/wireguard/wireguard_interfaces.go:1212-1266 | importing and merging back preserves the multiset of allowed IPs exactly when each is a host or masked entry |
| Peers.ImportThenMergeKeepsSettings | internal/app/wireguard/wireguard_interfaces.go:1198-1266 | keys survive as well, and endpoint and keepalive where the type pushes them |
| Peers.GetAllowedIPs | internal/domain/interface.go:268-294 | the routes of an interface, peer by peer |
| Peers.RoutesMatchDevice | internal/domain/interface.go:268-294 | on a server or any interface the routed prefixes are those pushed to the device, in order |
| Peers.ClientRoutesMatchIff | internal/domain/interface.go:268-294 | on a client interface they are if and only if no peer has extra allowed IPs |
| Uapi.ParseAWGUAPIDevice | internal/lowlevel/awg.go:647-695 | the single pass with shared handshake accumulators computes what taking the dump apart at the public keys and reading each block alone computes |
| Uapi.DumpRoundTrip | internal/lowlevel/awg.go:647-786 | parsing a dump gives back the device it was printed from, with private key, port and mark and all nine fields of every peer, each under its own name; or the error number, if that is not zero |
| Uapi.MalformedIsIgnored | internal/lowlevel/awg.go:647-786 | a line with an unknown name or a value that cannot be read may be left out of a dump, wherever it stands |
| Uapi.HexDigits | internal/lowlevel/awg.go:708-722 | the hexadecimal form of a key, digit by digit; either case is read |
| Uapi.BlocksPartition | internal/lowlevel/awg.go:665-688 | the dump is its head followed by its blocks, and a public key stands at the start of each block only |
| Uapi.PeerIsReadAlone | internal/lowlevel/awg.go:674-688 | each peer is the one the parser reads from its own block: no field depends on another block |
| Uapi.FailsIffErrno | internal/lowlevel/awg.go:669-673 | an error number is reported iff a nonzero one stands before the first blank line; a scan error only without a blank line |
| Uapi.SetAWGPeerMessage | internal/lowlevel/awg.go:424-460 | the message written for a peer; refused exactly when the public key has no hexadecimal form |
| Uapi.MessageRoundTrip | internal/lowlevel/awg.go:424-460 | parsing that message gives back public key, preshared key, IP:port endpoint and keepalive, and the networks in order, masked, for all 32-byte keys, valid endpoints and networks |
| Uapi.FaithfulFormsExist | internal/lowlevel/awg.go:444-450 | printing and reading of addresses as assumed for the round trip is possible |
| Uapi.UnchangedIff | internal/lowlevel/awg.go:746-786 | networks come back unchanged iff they are masked, the keepalive iff it fits a duration |
| Uapi.KeyRoundTrip | internal/lowlevel/awg.go:414-420 | a base64 key printed in hexadecimal is read back if it has 32 bytes, and becomes the zero key otherwise |
| Uapi.HexRoundTrip | internal/lowlevel/awg.go:710-720 | hexadecimal decoding inverts encoding |
| Uapi.ScanUnlines | internal/lowlevel/awg.go:655-660 | written lines are scanned again |
| Uapi.ScanUnlinesCR | internal/lowlevel/awg.go:655-660 | a carriage return at the end of a line is dropped |
| Uapi.LongLineFails | internal/lowlevel/awg.go:655-698 | a line of 64 KiB or more ends the scan with an error |
| Decimal.ParsePrinted | internal/lowlevel/awg.go:773-776 | a printed number is parsed again |
| Decimal.ParseSigned | internal/lowlevel/awg.go:720-786 | signed numbers are read exactly within 64 bits |
| EncryptedColumn.ScanValue | internal/app/gorm_encryption.go:42-131 | what is stored is read back, for every string, passphrase and invertible cipher, with encryption on or off |
| EncryptedColumn.ValueIsEncrypted | internal/app/gorm_encryption.go:81-131 | with a passphrase a nonempty text of each string type is stored as the prefix and its encryption, which decrypts to it; without one it is stored as it is, and an empty text stays empty |
| EncryptedColumn.OtherValues | internal/app/gorm_encryption.go:45-131 | missing pointers are stored as null, which is read as empty, and other types are refused |
| EncryptedColumn.EncryptedBytes | internal/app/gorm_encryption.go:134-160 | what is encrypted is the padded text, each block combined with the one before it, the first with the beginning of the key |
| EncryptedColumn.PaddingBytes | internal/app/gorm_encryption.go:194-198 | the padding is as many bytes as are missing to a full block, each of that value |
| EncryptedColumn.XorBit | internal/app/gorm_encryption.go:154-158 | blocks are combined by exclusive or, bit by bit |
| EncryptedColumn.LegacyReadsBackIff | internal/app/gorm_encryption.go:60-78 | a value stored without encryption reads back unchanged under encryption exactly when it has no prefix |
| EncryptedColumn.DecryptEncrypt | internal/app/gorm_encryption.go:134-192 | decryption inverts encryption for every nonempty string and passphrase |
| EncryptedColumn.CbcInverts | internal/app/gorm_encryption.go:154-190 | chained decryption inverts chained encryption |
| EncryptedColumn.CryptBlocksEncrypt | internal/app/gorm_encryption.go:154-158 | encryption block by block into a buffer, each chained to the one before |
| EncryptedColumn.CryptBlocksDecryptInPlace | internal/app/gorm_encryption.go:183-190 | decryption in place, although each block needs the ciphertext before it |
| EncryptedColumn.UnpadPad | internal/app/gorm_encryption.go:194-204 | unpadding inverts padding |
| EncryptedColumn.EncryptAES256 | internal/app/gorm_encryption.go:134-160 | the encrypted text, or the error |
| EncryptedColumn.DecryptAES256 | internal/app/gorm_encryption.go:163-192 | the decrypted text, or the error, including the panic on impossible padding |
| EncryptedColumn.Field.Scan | internal/app/gorm_encryption.go:42-78 | sets the field to what the column holds; an error leaves it |
| Base64.DecodeEncode | internal/app/gorm_encryption.go:160-171 | base64 decoding inverts encoding (section 4 of RFC 4648) |
| Base64.Alphabet | internal/app/api/v0/handlers/encoding.go:68-90 | the two alphabets, character by character |
| Base64.DecodedLengths | internal/app/api/v0/handlers/encoding.go:68-90 | a padded text that decodes has full quanta, an unpadded one no padding and no single leftover character |
| Base64.LineBreaksAreSkipped | internal/app/gorm_encryption.go:163-171 | line breaks anywhere in the encoded text do not matter |
| IdentifierEncoding.RoundTrip | frontend/src/helpers/encoding.js:1-7 | every printable identifier the frontend encodes reaches the backend unchanged |
| IdentifierEncoding.EncodeIsInjective | frontend/src/helpers/encoding.js:1-7 | no two printable identifiers share an encoded form |
| IdentifierEncoding.Base64UrlDecode | internal/app/api/v0/handlers/encoding.go:47-89 | the decoder computes the specified form |
| IdentifierEncoding.PlainPassesThrough | internal/app/api/v0/handlers/encoding.go:47-89 | a plain identifier passes unchanged unless its first character is one of I-Z and a-f |
| IdentifierEncoding.FirstCharacterDecides | internal/app/api/v0/handlers/encoding.go:47-89 | that condition is exact: a first character is safe for all identifiers just when it is none of these |
| IdentifierEncoding.PlainCollision | internal/app/api/v0/handlers/encoding.go:47-89 | a plain identifier that is read as another one |
| IdentifierEncoding.ResultIsInputOrPrintable | internal/app/api/v0/handlers/encoding.go:47-105 | the result is the input or printable |
| LdapSync.UserManager.SynchronizeLdapUsers | internal/app/users/ldap_sync.go:57-100 | success makes the users those of the specified synchronisation; with no database call failing it succeeds if and only if every entry converts and passes the checks |
| LdapSync.UserManager.UpdateLdapUsers | internal/app/users/ldap_sync.go:102-188 | all entries are applied in order, those without a valid identifier skipped; a malformed group fails the synchronisation, and on failure the entries before the failing one are applied |
| LdapSync.UserManager.DisableMissingLdapUsers | internal/app/users/ldap_sync.go:190-250 | exactly the linked, enabled, not persistent users without an entry are disabled |
| LdapSync.UserManager.Create | internal/app/users/user_manager.go:482-534 | a user is created only if it is new, its identifier is not reserved, and it has one authentication source, for the database one with an acceptable password |
| LdapSync.UserManager.Update | internal/app/users/user_manager.go:446-480 | an update succeeds only if the password rules allow it |
| LdapSync.SyncTwice | internal/app/users/ldap_sync.go:102-250 | a second synchronisation with the same entries changes no user, also if entries repeat an identifier |
| LdapSync.ReEnabledIff | internal/app/users/ldap_sync.go:145-151 | a disabled user is enabled iff it is present, was disabled for being missing, is not persistent, and the provider re-enables |
| LdapSync.MissingIsUndoneIff | internal/app/users/ldap_sync.go:145-250 | a user whom one synchronisation disables for being absent is enabled by a later one that finds the user, iff the provider re-enables |
| LdapSync.NewUserIs | internal/app/users/ldap_sync.go:105-135 | a user only LDAP has is created enabled and linked to this provider alone |
| LdapSync.AbsentLinkedIsDisabled | internal/app/users/ldap_sync.go:190-250 | an absent linked user ends up disabled |
| LdapSync.UntouchedUsers | internal/app/users/ldap_sync.go:153-156 | users with local changes, and absent unlinked users, never change |
| LdapSync.PresentUsersMirrorLdap | internal/app/users/ldap_sync.go:156-181 | present users mirror their last entry and keep password and local fields |
| LdapSync.LinkedOnSyncIff | internal/app/users/ldap_helper.go:64-96 | a user linked to another provider is linked to this one iff something else differs |
| PeerStatistics.PeerStatus.Collect | internal/app/wireguard/statistics.go:188-229 | the collector update never dereferences a missing handshake, and reports a change of state; the new record is the specified one |
| PeerStatistics.PeerStatus.Ping | internal/app/wireguard/statistics.go:360-384 | the ping update and its event |
| PeerStatistics.RecordIsCurrent | internal/app/wireguard/statistics.go:188-384 | after any run the record shows the last saved report and the last saved ping, and the peer is connected if and only if it answered that ping or its handshake is within the limit of the last saved update |
| PeerStatistics.SessionStartIs | internal/app/wireguard/statistics.go:252-281 | when a report begins a session: a counter went back, traffic without a session, or traffic after none with too old a handshake |
| PeerStatistics.RunsAreSound | internal/app/wireguard/statistics.go:252-281 | in every interleaving a session start comes with a handshake, so that no run panics |
| PeerStatistics.PanicsIff | internal/app/wireguard/statistics.go:252-281 | the records on which some report would panic, exactly |
| PeerStatistics.SessionStartsBeforeHandshake | internal/app/wireguard/statistics.go:252-281 | with handshakes that do not go back the session start never exceeds the handshake |
| PeerStatistics.OneCollection | internal/app/wireguard/statistics.go:252-281 | per update, exactly when the order is lost |
| PeerStatistics.EventsAgreeIff | internal/app/wireguard/statistics.go:215-245 | the computed events alternate and end in the stored state if and only if every update that changed the state was committed |
| PeerStatistics.UnsavedConnectIsRepeated | internal/app/wireguard/statistics.go:387-393 | a run that announces two connects in a row |
| Totp.Authenticator.ValidateCode | internal/app/auth/auth_totp.go:157-196 | success means the code was accepted for the loaded user and the record updated accordingly; an error leaves the stored record; an accepted code is an error only if saving fails |
| Totp.CodeAcceptedIff | internal/app/auth/auth_totp.go:157-229 | a code of the current, the next or the previous half minute is accepted, tried in that order, if and only if its step is newer than the recorded one |
| Totp.RecoveryCodeAcceptedIff | internal/app/auth/auth_totp.go:171-173 | a recovery code is accepted if and only if a stored hash is its own |
| Totp.AcceptanceRecords | internal/app/auth/auth_totp.go:157-261 | acceptance records the step, or takes exactly that hash, and changes nothing else |
| Totp.Authenticator.LoginWithCode | internal/app/api/v0/handlers/endpoint_authentication.go:480-487 | completing a login judges the code on the stored user |
| Totp.Authenticator.ValidateTotpWithStep | internal/app/auth/auth_totp.go:212-229 | the first of the three candidate steps whose code matches |
| Totp.Authenticator.ConsumeRecoveryCode | internal/app/auth/auth_totp.go:232-261 | removes the first matching hash and no other |
| Totp.Authenticator.ConfirmEnrollment | internal/app/auth/auth_totp.go:115-151 | enables the second factor with no step recorded |
| Totp.Authenticator.Disable | internal/app/auth/auth_totp.go:199-209 | wipes secret, codes and step |
| Totp.AcceptedStepsIncrease | internal/app/auth/auth_totp.go:157-196 | within an enrollment, with a clock past the first minute, accepted steps strictly increase and lie within one step of the clock (section 5.2 of RFC 6238) |
| Totp.ReplayIsRefusedIff | internal/app/auth/auth_totp.go:183-188 | an accepted code is refused at the same time iff its step is not zero |
| Totp.RecoveryCodesAreConserved | internal/app/auth/auth_totp.go:232-261 | stored and consumed hashes together are those issued |
| Totp.AtMostEightRecoveryCodes | internal/app/auth/auth_totp.go:232-261 | at most eight recovery codes are ever accepted |
| Totp.RecoveryReplayIff | internal/app/auth/auth_totp.go:232-261 | a recovery code is refused after use iff no other hash matches it |
| Totp.EnrollmentCodeIsAcceptedAgain | internal/app/auth/auth_totp.go:140-143 | the code that confirmed an enrollment is accepted once more |
| Totp.DisabledAcceptsNothing | internal/app/auth/auth_totp.go:157-163 | nothing is accepted once switched off |

## Left out

Contracts that are deliberately narrower than the code:

- InterfaceStore.Manager.SaveInterface: all interfaces are on the local backend, whose name never changes; loading a record fails only with "not found"; validation, hooks, DNS and published messages are calls that succeed or fail without effect on the stores.
- InterfaceStore.Manager.ApplyPhysicalInterface: a new device starts with any settings; the recovery from a stale socket and a process that dies on its own are not modelled; connected routes only as calls that may fail.
- InterfaceStore.Manager.SavePeer: an allowed network that moves from one peer of a device to another is not modelled, nor the resolution of host names and malformed preshared keys.
- InterfaceStore.PeersAreKept: assumes that the save leaves the type of the interface unchanged; InterfaceStore.TypeChangeIff says when that matters. Endpoints that roam at run time are not part of the device state.
- InterfaceStore.Manager.RestoreInterfaceState: whether the peers of a device can be listed is fixed for each device.
- ProcessManager.StopWaitsForReaping: safety only; timeouts, signals and escalation are steps without effect of their own, and that a wait does end is not proved, only that it can (ProcessManager.EveryCallCanReturn).
- ProcessManager.ProcessTable.CheckAndSpawn: processes the program does not manage, and the fallback that kills them, only as the state of the socket.
- Routing.LocalController.SetRoutes: routes are keyed by link, table and destination, so that a kernel moving a destination from one link to another is not modelled; with more than one main rule at the start the rules are described after a success only, and if the library reports families.
- Routing.DestinationsAreWanted: assumes a kernel that stores a destination with host bits masked, as Linux does for IPv6; where it refuses one, as for IPv4, the call fails.
- Routing.LocalController.RemoveRoutes: the statement is for links with a positive index, as the kernel assigns them; a missing link is a success without effect. After a failure only other links are described.
- Routing.RemovedAfterSet: tables of one link; -1, which switches the management of routes off, does not reach the controller.
- Cidrs.ContainsIsRange: stated after both sides are brought into IPv4 form if they are IPv4-mapped, since the library does so; Cidrs.MappedException shows that the plain range would be wrong.
- PeerAddresses.RunAssignsFreshAddresses: users, keys and preshared keys of the new peers are not modelled.
- InterfaceAddresses.GetFreshInterfaceIpConfig: loading the stored addresses always succeeds.
- Uapi.ParseAWGUAPIDevice: handshake times are exact integers, without the limits of the library's time type; the public key derived from the private one is not part of it.
- Uapi.MessageRoundTrip: addresses and ports print to plain text that is read back, as assumed in Uapi.Faithful; the exchange over the socket is not modelled.
- Uapi.DumpRoundTrip: for devices a dump can show: counters in 64 bits, whole seconds of keepalive, masked networks; further lines of a device, such as obfuscation parameters, are ignored by the parser and not printed.
- CidrText.ListRoundTrip: text forms of single prefixes are assumed to be read back and to contain no comma.
- EncryptedColumn.ScanValue: the block cipher is any invertible function of the key.
- LdapSync.UserManager.SynchronizeLdapUsers: entries are given as sanitised; timestamps are left out and authentication sources form a set, as the database keys them; the lists of users allowed per interface are left out.
- LdapSync.UserManager.Update: only the rules on passwords are modelled; the synchronisation runs as the system administrator, whose reserved identifier no entry can have.
- PeerStatistics.EventsAgreeIff: is about the computed events; the collector drops one if the peer cannot be loaded.
- Totp.Authenticator.ValidateCode: one user; statements over runs are about calls one after the other, each loading the user first; codes, hashes and text normalisation are functions, and an unreadable list of hashes is one case.

Parts of the program that are not modelled:

- The MikroTik and pfSense controllers and their REST clients: remote mappings whose other side is not visible.
- SQL beyond maps with transactions, schema migrations and the migration from version 1: library behaviour and field copying.
- OAuth, OpenID Connect, LDAP and WebAuthn protocols, password hashing, the cipher, the one-time code itself and random generation.
- Parsing and printing of single IP addresses, and Unicode normalisation.
- HTTP handlers, sessions, mail, webhooks, metrics, templates, configuration and logging.
- The user interface except the identifier encoder, shell hooks and DNS commands.
- Traffic rates, ping results, configuration files and peer defaults: easy computations on single records.
