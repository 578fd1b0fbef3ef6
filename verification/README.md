# Models of the IPVS-DR directors and the Azure reconcilers

The LoadBalancer object of this repository is served by providers. Two of them are modelled here, together with the
properties that make them work.

**IPVS-DR directors** (`providers/ipvsdr`). Every node of a LoadBalancer runs `OnUpdate` on the same object. A node
first registers its network interfaces: it merges its report into the object's status and updates the versioned object,
and goes no further until its merge changes nothing. Then it compiles the agreed status into VRRP instances for
keepalived and into an iptables chain that marks traffic for the virtual server.

- `ObjectModel`, `Registration`: the object, the merge of one node, one attempt against the versioned store.
- `RegistrationRuns`, `Convergence`: all runs of the protocol, with stale copies, conflicts, failed updates and spec
  changes; what "no change" is worth, and exactly when registration converges.
- `NodeNetwork`, `Choice`, `Sorting`: which interfaces a node reports, and which one it uses for a virtual address.
- `Ports`, `Decimals`, `Chain`: the exported ports, and the mark chain with its semantics (rules run first to last, MARK
  does not terminate, set-xmark clears the masked bit and then xors).
- `Keepalived`, `Families`, `Agreement`: the compiled configuration, and what the directors agree on.
- `Director`, `Verdicts`, `SkipExample`: one provider object with its cache, chains and `OnUpdate`, what a call comes to,
  and a run in which it skips wrongly.
- `Views`, `Treatment`, `Compiled`: what a director sees of every node, what its chains do to packets, and what its
  configuration holds, in terms of the object alone.
- `Forwarding`: the group-wide result, from registration to packets.

**Azure reconcilers** (`providers/azure`). Three stored resources are driven to a desired state; Azure is a finite map
from keys to records with Get and CreateOrUpdate.

- `AzureStore`, `ResourceIds`, `AsciiText`, `PortMaps`: the store, resource IDs, case folding, the consumed port maps.
- `SecurityRules`, `SecurityResults`, `SecurityMeaning`, `GroupSync`: security-group rules with their priorities, for one
  group and for a whole run.
- `LoadBalancingRules`, `RuleResults`, `RuleMeaning`: load-balancing rules, protected defaults, and the two writers
  together.
- `BackendPools`: the interfaces in the backend pool.

Go maps are walked in an arbitrary order: each such loop picks any remaining key, and results hold for every choice.
Methods that the source writes as loops over state are methods here, each proved against a function or a predicate on
values; the main results are lemmas about those. What such a function computes is stated a second time without it, with
the literal texts and numbers, so that neither can change alone.

## Where the code falls short of what it is for

The model keeps the code as it is. In these cases a property one would expect holds only under a condition, which is
stated exactly; concrete lemmas show the failures.

- A failed Update leaves the node's copy overwritten, so the node can later see "no change" although it is not
  registered, and registration can stop short of convergence (`Convergence.NoChangeIsGenuineIff`, `RoundsConvergeIff`,
  `FailedUpdateHidesMissingRegistration`).
- A bind that sets both an interface and an annotation can name an interface that registration filters out
  (`NodeNetwork.PrefilterKeepsChoice`, `TwoFieldBindLosesInterface`).
- Priorities exceed what VRRP allows from the fourth node on (`Agreement.PrioritiesFitIff`, `FourthPriority`).
- When the reload of keepalived fails, the chains are already those of the new object while the cache keeps the old
  one. A later skip is then sound exactly when both ask for the same chains (`Director.SkipSoundIff`,
  `Director.Provider.OnUpdate`, `SkipExample.SkipAfterFailedReload`).
- The port maps are shared and consumed by all security groups of a run, so groups visited later can lose rules
  (`SecurityResults.AllGroupsExactIff`, `EveryOrderExactIff`, `SharedMapsLosePorts`).
- Security groups are compared by the text of their IDs, so a group in use can be stripped under another ID
  (`GroupSync.StripsExactlyUnused`, `AliasedGroupIsStripped`).
- An old TCP rule for 80 or 443 under another name stays beside the new rule, and a port key that is not canonical
  never settles (`RuleResults.OncePerPairIff`, `RenamedDefaultIsDoubled`, `SecondRunIdleIff`, `PaddedKeyNeverSettles`).
- An interface with an empty list of ip-configs is attached without effect (`BackendPools.TargetReachedIff`, `EmptyNicNeverEnters`).
- The comment at `providers/ipvsdr/ipvsdr.go:376` promises at most one address per family; the code only skips an
  address whose family equals the one considered just before (`Families.OnePerFamilyIff`, `FamilyConsideredTwice`).
- A subscription or resource group whose name contains a keyword breaks the parsing of an ID
  (`ResourceIds.FormattedIDParsesIff`, `GroupNamedLikeKind`).

## Model

| member | source | states |
|---|---|---|
| `Registration.FindStatus` | providers/ipvsdr/ipvsdr.go:157-164 | the scan of the old statuses for a node finds its first entry, or none exactly when no entry has the name |
| `Registration.RegisterNodeNetwork` | providers/ipvsdr/ipvsdr.go:136-184 | the copy, the store, the "updated" flag and the error after one attempt are those of `TryRegister`: the copy's status is overwritten before the outcome of the Update is known, a stale version conflicts, a failure leaves the store alone; the returned reports are `Known` |
| `Registration.KnownMember` | providers/ipvsdr/ipvsdr.go:145-165 | a node that goes on holds its own report and, for every other spec node with an entry, the first entry |
| `Registration.FirstOfMerge` | providers/ipvsdr/ipvsdr.go:148-165 | looking a node up in a merged status: nothing outside the spec, the merger's own report for itself, the old first entry for everyone else |
| `Registration.MergeExtensional` | providers/ipvsdr/ipvsdr.go:152-165 | a merge depends only on what each spec node contributes |
| `Registration.MergesCommute` | providers/ipvsdr/ipvsdr.go:148-165 | merges by different nodes commute |
| `Registration.MergeKeepsSettled` | providers/ipvsdr/ipvsdr.go:148-167 | a stored report survives every other node's merge, after which its node still sees "no change" |
| `Registration.QuiescentIffAllReports` | providers/ipvsdr/ipvsdr.go:152-170 | every spec node sees "no change" exactly when the status is the list of all reports in spec order |
| `Registration.EveryOrderConverges` | providers/ipvsdr/ipvsdr.go:148-178 | from any status, one merge per spec node in any order, with repetitions, gives the list of all reports |
| `ObjectModel.ApiServer.Update` | providers/ipvsdr/ipvsdr.go:178-178 | the versioned Update succeeds exactly for the current version without a fault; otherwise the store is untouched |
| `RegistrationRuns.StepKeepsInv` | providers/ipvsdr/ipvsdr.go:136-184 | every step (delivery of any version, attempt, failed attempt, spec change) keeps the invariant that a copy agrees with its version of the object on every spec node but its holder, although the holder's copy may have been overwritten |
| `RegistrationRuns.WriteEffect` | providers/ipvsdr/ipvsdr.go:176-178 | a successful Update stores the merge of the newest object, because a copy at the store's version agrees with the store on every other spec node |
| `RegistrationRuns.StepKeepsRegistrations` | providers/ipvsdr/ipvsdr.go:152-184 | one step changes the first stored entry of a node only into a report made by that node in this step, or removes it because the node is not in the spec |
| `RegistrationRuns.StoredEntriesAreReports` | providers/ipvsdr/ipvsdr.go:148-184 | in every run, what is stored for a node was there at the start or is a report that node made in the run |
| `RegistrationRuns.RegistrationPersists` | providers/ipvsdr/ipvsdr.go:148-184 | in every run whose specs all list a node, its registration is never lost |
| `RegistrationRuns.WritersSettled` | providers/ipvsdr/ipvsdr.go:167-183 | after any run with a fixed node list and fixed reports, the nodes that have written are distinct spec nodes, each settled: its report is stored and it has nothing left to write |
| `RegistrationRuns.BoundedUpdates` | providers/ipvsdr/ipvsdr.go:148-183 | in such a run each node makes at most one successful Update, so there are at most as many as spec nodes |
| `Convergence.StoryOfRun` | providers/ipvsdr/ipvsdr.go:167-183 | in every run with a fixed node list and fixed reports, a copy that was overwritten in vain sees "no change" while its version of the object lacks the write; any other copy is its version, or an older version overwritten by a successful Update |
| `Convergence.BlindIffOverwritten` | providers/ipvsdr/ipvsdr.go:176-183 | after such a run a node is blind to a write the store needs if and only if it holds the newest version and has overwritten that copy in vain |
| `Convergence.SeeingTurn` | providers/ipvsdr/ipvsdr.go:279-287 | a turn (delivery of a newer version, if there is one, and an attempt) of a node that is not blind stores exactly its merge; a write ends everybody's blindness, an idle turn changes nobody's |
| `Convergence.RoundEffect` | providers/ipvsdr/ipvsdr.go:148-183 | one round changes the store exactly when some node has something to write and is not blind |
| `Convergence.RoundsConvergeIff` | providers/ipvsdr/ipvsdr.go:148-183 | after any such run, two rounds in any orders, delivering only versions newer than a node's copy, store exactly all reports if and only if the store already lists them or some node that has something to write does not hold a copy of the newest version overwritten in vain |
| `Convergence.FaultlessIsNotDeaf` | providers/ipvsdr/ipvsdr.go:281-287 | conflicts alone never leave a node with an overwritten copy of the newest version |
| `Convergence.RoundConverges` | providers/ipvsdr/ipvsdr.go:148-183 | after any run without failures other than conflicts, one round in any order stores exactly all reports, and then every node sees "no change" |
| `Convergence.FaultlessCanConverge` | providers/ipvsdr/ipvsdr.go:148-183 | after any run without failures other than conflicts, the condition of convergence holds |
| `Convergence.NoChangeIsGenuineIff` | providers/ipvsdr/ipvsdr.go:167-183 | in every run with a fixed node list and fixed reports, when a node that holds the newest version sees "no change", the store lacks nothing of it if and only if the node has made no changing attempt whose Update did not succeed since its last delivery |
| `Convergence.FailedUpdateHidesMissingRegistration` | providers/ipvsdr/ipvsdr.go:176-183 | a concrete run in which a failed Update leaves a node seeing "no change" on a copy of the newest version although it is not registered |
| `NodeNetwork.GetAllBinds` | providers/ipvsdr/nodenetwork.go:121-132 | the binds of the provider and its slaves, in order |
| `NodeNetwork.SelectorHoldsBinds` | providers/ipvsdr/ipvsdr.go:105-134 | a selector wants exactly the interfaces of binds without an annotation, and never holds an address for the empty annotation |
| `NodeNetwork.IsMaskAllFF` | providers/ipvsdr/util.go:126-133 | true exactly for masks of 0xff bytes only |
| `NodeNetwork.SelectIface` | providers/ipvsdr/nodenetwork.go:43-75 | an interface is reported, with its usable addresses sorted, exactly when it is named by the selector or has a wanted address |
| `NodeNetwork.GetCurrentNodeIfaceIPs` | providers/ipvsdr/nodenetwork.go:89-119 | the report is the wanted eligible interfaces sorted by name; with distinct names that list is unique, whatever the sort does with ties |
| `NodeNetwork.GetNodeNetwork` | providers/ipvsdr/nodenetwork.go:134-173 | the interface and preferred address chosen for a bind: first by name, else first that holds the preferred address |
| `NodeNetwork.GetIP` | providers/ipvsdr/nodenetwork.go:77-87 | the preferred address if it has the family, else the first address that has, else none |
| `NodeNetwork.PrefilterKeepsChoice` | providers/ipvsdr/nodenetwork.go:43-75 | for every bind of the spec, choosing from the registered list is choosing from all eligible interfaces sorted by name, if and only if the bind does not set both fields and name an interface that was filtered out |
| `NodeNetwork.SingleFieldBindKeepsChoice` | providers/ipvsdr/nodenetwork.go:134-173 | a nil bind, and any bind of the spec with at most one field set, always keeps its choice |
| `NodeNetwork.TwoFieldBindLosesInterface` | providers/ipvsdr/ipvsdr.go:122-131 | a concrete bind with both fields set that loses the interface it names |
| `Sorting.SortSorts` | providers/ipvsdr/ipvsdr.go:212-213 | the sort used for port lists, node names and interfaces yields a sorted permutation |
| `Sorting.SortedUnique` | providers/ipvsdr/nodenetwork.go:114-116 | two sorted arrangements of the same elements are equal when keys tell elements apart |
| `Sorting.SortEqualIffPermutation` | providers/ipvsdr/ipvsdr.go:212-214 | sorted port lists are equal exactly when one list rearranges the other |
| `Ports.GetHTTPPort` | core/provider/ports.go:60-66 | the port lies strictly between 1 and 65535 whatever is configured; it is the configured one if and only if that lies in the range, and else 80 |
| `Ports.GetHTTPSPort` | core/provider/ports.go:68-74 | the port lies strictly between 1 and 65535 whatever is configured; it is the configured one if and only if that lies in the range, and else 443 |
| `Ports.GetExportedPorts` | core/provider/ports.go:34-58 | as multisets, the exported ports are the reserved ones, the HTTP and HTTPS ports and the keys of the ConfigMaps, in whatever order the maps are walked |
| `Chain.SetXMarkBits` | providers/ipvsdr/ipvsdr.go:631-643 | set-xmark under mask 1 writes bit 0 and keeps every other bit |
| `Chain.LastMarkWins` | providers/ipvsdr/ipvsdr.go:631-643 | of two matching rules the later one decides bit 0 |
| `Chain.LayeredEval` | providers/ipvsdr/ipvsdr.go:698-719 | in a chain whose accept rules precede its drop rules, any matching drop rule wins, else any matching accept rule |
| `Chain.IptablesChain.FlushChain` | providers/ipvsdr/ipvsdr.go:562-566 | the chain is empty |
| `Chain.IptablesChain.EnsureRule` | providers/ipvsdr/ipvsdr.go:611-629 | an existing rule is not added again; a new one goes to the end or the front |
| `Chain.Iptables.AppendDrop` | providers/ipvsdr/ipvsdr.go:603-605 | adds the drop rule of a neighbour and keeps every accept rule above every drop rule |
| `Chain.Iptables.PrependAccept` | providers/ipvsdr/ipvsdr.go:607-629 | adds one accept rule per port, or one for any port when there is none, and keeps accept above drop |
| `Chain.Iptables.EnsureIptablesMark` | providers/ipvsdr/ipvsdr.go:691-732 | adds exactly the rules of one virtual address to the chain of its family, and leaves the other family alone |
| `Chain.Iptables.Rebuild` | providers/ipvsdr/ipvsdr.go:658-667 | one flush and the loop over the virtual addresses leave both chains layered and holding exactly the rules of the program; none in ActivePassive mode |
| `Chain.ChainClassifies` | providers/ipvsdr/ipvsdr.go:645-732 | for any virtual addresses, ports, neighbours, packet and mark, evaluating the built chain equals the classifier: a neighbour's MAC clears bit 0, else an exported port sets it, else nothing changes; all other bits stay |
| `Chain.PortOrderIrrelevant` | providers/ipvsdr/ipvsdr.go:622-627 | port lists with the same elements, in any order and repetition, describe the same chains |
| `Keepalived.GetIPs` | providers/ipvsdr/ipvsdr.go:328-347 | the own interface and the interfaces of all ready nodes, in node order |
| `Keepalived.CollectIPs` | providers/ipvsdr/ipvsdr.go:393-401 | the addresses of one family of all ready nodes, in node order, skipping nodes without one |
| `Keepalived.AppendInstance` | providers/ipvsdr/ipvsdr.go:383-423 | extends a block by one considered address: skipped without an own address of its family, else one instance, and a virtual server unless ActivePassive |
| `Keepalived.BuildBlock` | providers/ipvsdr/ipvsdr.go:368-425 | the block over the considered addresses: unparsable ones and repetitions of the previous family are skipped |
| `Families.OnePerFamilyIff` | providers/ipvsdr/ipvsdr.go:371-381 | no family is considered twice if and only if, among the parsable addresses, no family comes back after another one |
| `Families.FamilyConsideredTwice` | providers/ipvsdr/ipvsdr.go:376-381 | an IPv4, an IPv6 and another IPv4 address are all considered, IPv4 twice |
| `Keepalived.GetKeepalivedConfigBlock` | providers/ipvsdr/ipvsdr.go:349-426 | the block of a provider; fails exactly when this node's own interface cannot be found |
| `Keepalived.FindPos` | providers/ipvsdr/util.go:39-47 | the first position of a node, -1 if it is missing |
| `Keepalived.PosOfElement` | providers/ipvsdr/util.go:39-47 | in a list without repetitions, the position found for the i-th node is i |
| `Keepalived.AppendSlaves` | providers/ipvsdr/ipvsdr.go:447-462 | an ActivePassive slave takes the next VRID before its block can fail; other slaves and failing ones add nothing |
| `Keepalived.BuildKeepalivedConfig` | providers/ipvsdr/ipvsdr.go:428-462 | the whole configuration over the sorted node names and the base VRID; fails exactly when the main block does |
| `Agreement.PriorityLadder` | providers/ipvsdr/util.go:51-53 | for distinct names, priorities are 100, 160, ... in sorted order, so no two nodes share one |
| `Agreement.OneMaster` | providers/ipvsdr/ipvsdr.go:361-366 | an ActivePassive provider has exactly one MASTER, and it has the highest priority |
| `Agreement.PrioritiesFitIff` | providers/ipvsdr/util.go:49-53 | all priorities fit section 5.2.4 of RFC 5798 (1 to 254) if and only if there are at most 3 nodes |
| `Agreement.FourthPriority` | providers/ipvsdr/util.go:51-53 | of four or more nodes, the fourth in sorted order gets priority 280 |
| `Agreement.BlockUniform` | providers/ipvsdr/ipvsdr.go:403-413 | all instances of a block carry its VRID, priority and state, and serve addresses of the provider |
| `Agreement.SlaveVridBounds` | providers/ipvsdr/ipvsdr.go:447-454 | the VRID of an ActivePassive slave lies above the base and at most the number of such slaves above it |
| `Agreement.SlaveVridsRise` | providers/ipvsdr/ipvsdr.go:447-458 | a later ActivePassive slave has a strictly larger VRID, whether or not earlier blocks failed |
| `Agreement.InstanceSource` | providers/ipvsdr/ipvsdr.go:455-462 | every emitted instance comes from the main block or from the block of one slave |
| `Agreement.ConfigProviders` | providers/ipvsdr/ipvsdr.go:428-462 | every emitted instance belongs to the main provider with the base VRID, or to the k-th slave with the VRID that the object alone determines |
| `Agreement.VridsNameProviders` | providers/ipvsdr/ipvsdr.go:447-462 | instances with equal VRIDs on any two nodes serve the same provider, even when blocks failed on either node |
| `Agreement.VridsFitIff` | providers/ipvsdr/ipvsdr.go:434-455 | all VRIDs fit section 5.2.3 of RFC 5798 (1 to 255) if and only if the base is at least 1 and base plus the number of ActivePassive slaves is at most 255 |
| `Agreement.QuiescentNets` | providers/ipvsdr/ipvsdr.go:279-287 | with a quiescent status every spec node goes on with the reports of all spec nodes |
| `Agreement.PeerListsAgree` | providers/ipvsdr/ipvsdr.go:371-413 | two nodes holding the same reports emit identical peer lists for a virtual address, containing both nodes' own addresses |
| `Agreement.RealServersAgree` | providers/ipvsdr/ipvsdr.go:415-423 | two nodes holding the same reports emit identical virtual servers for a virtual address |
| `Agreement.QuiescentPeerLists` | providers/ipvsdr/ipvsdr.go:328-413 | the same directly from a quiescent status and each node's own map of reports |
| `Director.Provider.constructor` | providers/ipvsdr/ipvsdr.go:84-103 | a new provider has no cached object, so its cache is true |
| `Director.Provider.Validate` | providers/ipvsdr/ipvsdr.go:218-245 | accepts exactly objects that are not deleted, have the provider and nodes, list this node, and pass the API's own validation |
| `Director.Provider.IsLBChanged` | providers/ipvsdr/ipvsdr.go:186-196 | unchanged means that whatever chains serve the cached object also serve this one |
| `Director.Provider.IsListenPortChanged` | providers/ipvsdr/ipvsdr.go:198-216 | unchanged exactly when the cached lists are the sorted arrangements of the exported ports, whatever order the maps are walked in |
| `Director.Provider.GetSelectors` | providers/ipvsdr/ipvsdr.go:293-299 | succeeds exactly when every named Node object exists, with the selector of each |
| `Director.Provider.OnUpdateIptables` | providers/ipvsdr/ipvsdr.go:645-670 | fails, without touching the chains, exactly when the own interface cannot be found; otherwise flushes and installs the chains of the object |
| `Director.Provider.OnUpdateKeepalived` | providers/ipvsdr/ipvsdr.go:307-312 | compiles the configuration that the object stands for, only when the object changed; fails exactly when it cannot be compiled or reloaded |
| `Director.Provider.Register` | providers/ipvsdr/ipvsdr.go:273-287 | one attempt on behalf of this node; the cached object keeps its value although the copy may be the cached object itself |
| `Director.Provider.ProgramHost` | providers/ipvsdr/ipvsdr.go:293-318 | the verdict for a registered object, the installed chains, what was flushed, and the cache afterwards, which describes the chains after every success |
| `Director.Provider.Configure` | providers/ipvsdr/ipvsdr.go:270-318 | the exact verdict for a valid object that is not skipped: missing Node, given up with the conflict or error of the attempt, no own interface, failed reload, or configured |
| `Director.Provider.OnUpdate` | providers/ipvsdr/ipvsdr.go:248-319 | the exact verdict of every call; a call that skips leaves chains that are those of a rebuild from the current object and port maps, for every order of the maps, if and only if the cache asks for the same chains as the last flush; a call that flushes always does; that the cache describes the chains is kept by every call but a failed reload and restored by every success |
| `Director.ProgrammedIff` | providers/ipvsdr/ipvsdr.go:658-667 | chains programmed for one program serve another if and only if both ask for the same rules in both families |
| `Director.SkipSoundIff` | providers/ipvsdr/ipvsdr.go:265-268 | for an object with the compared fields and ports of the cached one, the chains are up to date if and only if the cached object and lists ask for the same chains as the last flush |
| `SkipExample.OtherAddressDiffers` | providers/ipvsdr/ipvsdr.go:658-667 | what was flushed for one virtual address is not what the cached object asks for, for another |
| `SkipExample.SkipAfterFailedReload` | providers/ipvsdr/ipvsdr.go:300-318 | a concrete run of one director: configured for one address, a failed reload for another, then a skip for the first address while the chains are those of the other |
| `Director.SameListIff` | providers/ipvsdr/ipvsdr.go:212-214 | a cached list equals the sorted ports exactly when it is sorted and holds the same ports |
| `Director.InstalledForSame` | providers/ipvsdr/ipvsdr.go:186-196 | equal compared fields and rearranged port lists stand for the same chains |
| `Director.UpToDateFrom` | providers/ipvsdr/ipvsdr.go:265-268 | chains installed for an object with the same compared fields are up to date for the new one, whatever order the maps are walked in |
| `Forwarding.RegistrationSettles` | providers/ipvsdr/ipvsdr.go:148-183 | after any run of the registration protocol, two rounds settle the group if and only if the store already listed all reports or some node that has something to write can see it |
| `Forwarding.EveryDirectorIsNeighbour` | providers/ipvsdr/ipvsdr.go:332-345 | in a settled group whose interfaces can be selected and have MACs, every director is a neighbour in every director's program |
| `Forwarding.DirectorIgnoresDirector` | providers/ipvsdr/ipvsdr.go:698-715 | a packet that carries a director's MAC and arrives with mark bit 0 leaves every director's chain with mark bit 0 |
| `Forwarding.NoForwardingLoop` | providers/ipvsdr/ipvsdr.go:702-715 | along any forwarding path through the group, even with different port maps on the directors, only the first director can accept |
| `Decimals.AtoiItoa` | providers/azure/utils.go:268-317 | a 32-bit port printed in decimal reads back as itself |
| `Decimals.ItoaInjective` | providers/azure/utils.go:267-268 | different 32-bit ports print differently |
| `Decimals.Int32` | providers/azure/utils.go:321-339 | the conversion to int32 stays in range, keeps values in range and is congruent modulo 2^32 |
| `ResourceIds.IndexFrom` | providers/azure/utils.go:361-366 | the first occurrence of a keyword at or after a position, -1 exactly when there is none |
| `ResourceIds.SpecifyNameSurvivesTail` | providers/azure/utils.go:361-373 | a name read from an ID is the name read from any continuation of it that starts with a slash |
| `ResourceIds.TruncationStable` | providers/azure/utils.go:443-449 | whenever the interface ID cut from an ip-config ID parses, the full ip-config ID parses to the same pair, so recovery and synchronization detach the same interface |
| `ResourceIds.NameIsLookup` | providers/azure/utils.go:361-373 | of an ID made of slash-separated segments, the name read for any keyword is the segment after the first one that contains the keyword |
| `ResourceIds.FormattedIDParsesIff` | providers/azure/utils.go:349-373 | a formatted ID parses back to its parts if and only if the subscription does not contain "resourceGroups" and neither subscription nor group contains the kind, up to the names that equal what is read instead |
| `ResourceIds.GroupNamedLikeKind` | providers/azure/utils.go:361-372 | a group named like the resource kind makes the name parse as "providers" |
| `SecurityRules.DefaultRuleProto` | providers/azure/loadbalancer.go:485-504 | a default rule is recognized as managed for its own protocol |
| `SecurityRules.ResetShape` | providers/azure/loadbalancer.go:444-466 | resetting gives the default shape and keeps protocol and port; it changes the rule exactly when the rule was not default-shaped |
| `SecurityRules.EnsureSyncWithDefaultSetting` | providers/azure/loadbalancer.go:415-441 | what one rule does to the scan: the user's rules stay, the first rule of a wanted port is reset and consumes the port, every other managed rule goes |
| `SecurityRules.GridSize` | providers/azure/loadbalancer.go:398-409 | the searched slots are exactly 1000, 1010, ..., 4090: 310 of them |
| `SecurityRules.GetValidPriority` | providers/azure/loadbalancer.go:391-411 | a freed priority if there is one, else the lowest unused slot; fails exactly when both are used up, and terminates |
| `SecurityRules.AddPorts` | providers/azure/loadbalancer.go:360-378 | succeeds exactly when the ports fit into the pool; each port gets one default rule with its own priority from the pool |
| `SecurityRules.ScanLoop` | providers/azure/loadbalancer.go:341-355 | the loop over the existing rules computes the scan |
| `SecurityRules.SyncRules` | providers/azure/loadbalancer.go:333-385 | one group succeeds if and only if the number of missing ports is at most the number of freed priorities plus grid slots no kept rule uses; `change` says exactly whether anything is missing or was modified |
| `SecurityResults.ScanKeepsInv` | providers/azure/loadbalancer.go:341-355 | the scan keeps the user's rules in order, its kept rules serve exactly the ports it has taken, and every priority is either used or freed |
| `SecurityResults.SyncIsExact` | providers/azure/loadbalancer.go:333-385 | on success there is exactly one default-shaped rule per TCP and UDP port, no other managed rule, and the user's rules are unchanged and in order |
| `SecurityResults.KeptPriorities` | providers/azure/loadbalancer.go:336-351 | if priorities were distinct, those of kept rules are, and no freed one is in use |
| `SecurityResults.IssuedPriorities` | providers/azure/loadbalancer.go:360-378 | every issued priority was freed by a removed rule or is a grid slot that no kept rule holds |
| `SecurityResults.PrioritiesStayUnique` | providers/azure/loadbalancer.go:336-378 | if a group's priorities were pairwise distinct, they are after a successful sync |
| `SecurityResults.NamesStayDistinct` | providers/azure/loadbalancer.go:489-492 | names stay distinct if the user's were |
| `SecurityResults.ScanOfExact` | providers/azure/loadbalancer.go:341-355 | scanning exact rules changes nothing and takes exactly the ports they serve |
| `SecurityResults.SecondRunIsIdle` | providers/azure/loadbalancer.go:333-385 | a second run with the same ports succeeds, changes nothing and writes nothing |
| `SecurityResults.NoChangeMeansSame` | providers/azure/loadbalancer.go:379-385 | a group that is not written keeps exactly its rules |
| `SecurityResults.StripIsEmptySync` | providers/azure/loadbalancer.go:517-531 | stripping a group is syncing it with empty port maps |
| `SecurityResults.StripUndoesSync` | providers/azure/loadbalancer.go:506-542 | stripping after any successful sync leaves what stripping the original leaves |
| `SecurityResults.AllGroupsExactIff` | providers/azure/loadbalancer.go:323-386 | with the port maps shared by all groups of a run, every group ends up exact for the original ports if and only if no group but the last one visited already had a managed rule for one of them |
| `SecurityResults.EveryOrderExactIff` | providers/azure/loadbalancer.go:323-386 | when every visiting order succeeds, all orders leave all groups exact if and only if there is at most one group or none has a managed rule for a wanted port |
| `SecurityResults.SharedMapsLosePorts` | providers/azure/loadbalancer.go:323-386 | a concrete successful run over two groups after which the second lacks the only port |
| `GroupSync.StripRules` | providers/azure/loadbalancer.go:517-531 | keeps exactly the user's rules and tells whether any rule was removed |
| `GroupSync.DeleteUselessSecurityRules` | providers/azure/loadbalancer.go:507-542 | strips the named groups; succeeds exactly when every ID names a stored group, and otherwise only visited groups are stripped |
| `GroupSync.SyncOneGroup` | providers/azure/loadbalancer.go:323-386 | one group's iteration succeeds exactly when the ID names a stored group whose missing ports fit; on failure that group is not written |
| `GroupSync.EnsureSyncRulesToSecurityGroups` | providers/azure/loadbalancer.go:322-388 | the visited groups are synchronized one after the other, each with the ports earlier ones left; a failure names a group that cannot be synchronized |
| `GroupSync.GetSuitableSecurityGroup` | providers/azure/loadbalancer.go:545-573 | the groups to sync are those of desired interfaces, the groups to strip those of detached interfaces without them; fails exactly when an interface has no group |
| `GroupSync.SyncSecurityGroupRules` | providers/azure/loadbalancer.go:306-319 | a whole run: strip, then synchronize; a failed run has one of the three possible reasons |
| `GroupSync.StripKeepsIff` | providers/azure/loadbalancer.go:517-539 | stripping leaves a group as it is if and only if it has no managed rule |
| `GroupSync.StripsExactlyUnused` | providers/azure/loadbalancer.go:544-573 | over a whole run, a group that no desired interface uses is stripped exactly when a detached one uses it; a group in use keeps its rules through the strip if and only if no ID of a detached interface, other than IDs in use, names it, or it has no managed rule; so always when different IDs name different groups |
| `GroupSync.AliasNamesSameGroup` | providers/azure/utils.go:361-373 | an ID and the same ID with a slash at its end name one group |
| `GroupSync.RunIsExactIff` | providers/azure/loadbalancer.go:306-388 | a run leaves every group in use exact if and only if no group but the last one visited already had a managed rule for a wanted port |
| `GroupSync.AliasedGroupIsStripped` | providers/azure/loadbalancer.go:564-571 | a concrete store in which a detached and a desired interface name one group by different IDs, and the group in use is stripped first |
| `BackendPools.RemovePool` | providers/azure/loadbalancer.go:687-695 | drops exactly the pools equal to the ID ignoring case, and keeps the order of the others |
| `BackendPools.DetachNetworkInterface` | providers/azure/loadbalancer.go:664-709 | succeeds exactly when the ID names a stored interface, whose configurations then leave the pool; nothing else changes |
| `BackendPools.AttachNetworkInterface` | providers/azure/loadbalancer.go:711-760 | succeeds exactly when the ID names a stored interface with a list of configurations, which then all enter the pool; nothing else changes |
| `BackendPools.DetachNicLeaves` | providers/azure/loadbalancer.go:682-699 | a detached interface is not in the pool |
| `BackendPools.AttachNicEntersIff` | providers/azure/loadbalancer.go:729-750 | an attached interface is in the pool if and only if it has an ip-config |
| `BackendPools.EmptyNicNeverEnters` | providers/azure/loadbalancer.go:726-752 | attaching an interface with an empty list of ip-configs changes nothing and leaves it out of the pool |
| `BackendPools.NicKeepsOthers` | providers/azure/loadbalancer.go:682-750 | both operations keep every other pool, in order, and everything else of an interface |
| `BackendPools.OpsPointwise` | providers/azure/loadbalancer.go:649-660 | operations on distinct interfaces act on each one independently of the order |
| `BackendPools.OrderIrrelevant` | providers/azure/loadbalancer.go:649-660 | the same operations in any order give the same store |
| `BackendPools.GetAzureBackendPoolIP` | providers/azure/utils.go:406-426 | the interface IDs cut from the pool's ip-config IDs; those that cannot be cut are skipped |
| `BackendPools.GetDiff` | providers/azure/utils.go:395-404 | the IDs in one set and not in the other, each once, in any order |
| `BackendPools.DetachAll` | providers/azure/loadbalancer.go:649-654 | detaches up to the first interface that cannot be, and stops there |
| `BackendPools.AttachAll` | providers/azure/loadbalancer.go:655-660 | attaches up to the first interface that cannot be, and stops there |
| `BackendPools.SyncBackendPools` | providers/azure/loadbalancer.go:638-662 | succeeds if and only if every interface only in the view is stored and every interface only desired is stored with a list of configurations; the store always reflects a prefix of the planned operations |
| `BackendPools.RunOutcome` | providers/azure/loadbalancer.go:638-662 | a successful run has carried out the whole plan |
| `BackendPools.SyncedNic` | providers/azure/loadbalancer.go:638-662 | each interface after a successful sync |
| `BackendPools.TargetReachedIff` | providers/azure/loadbalancer.go:638-662 | if the pool view agrees with the store and IDs name different interfaces, then afterwards the interfaces in the pool are exactly the nodes', if and only if every attached one has an ip-config |
| `BackendPools.SyncKeepsOthers` | providers/azure/loadbalancer.go:664-760 | other pools keep their order and other interfaces are untouched |
| `BackendPools.SyncOrderIrrelevant` | providers/azure/loadbalancer.go:649-660 | any other order of the same detaches and attaches gives the same store |
| `LoadBalancingRules.RuleNameInjective` | providers/azure/utils.go:217-220 | different protocols or ports give different rule names |
| `LoadBalancingRules.RemainConstantRules` | providers/azure/utils.go:263-297 | which old rules remain, whether one goes, and which ports are left to serve |
| `LoadBalancingRules.AddNewRules` | providers/azure/utils.go:237-254 | one new rule per readable key, in whatever order the map is walked |
| `LoadBalancingRules.AzureLoadBalancer.MakeUpRules` | providers/azure/utils.go:223-260 | the rules afterwards are the remaining ones and the new ones; without a difference they are unchanged |
| `LoadBalancingRules.AzureLoadBalancer.PatchDefaultRules` | providers/azure/loadbalancer.go:218-234 | adds each default that no present rule equals; `change` says exactly whether the rules differ |
| `LoadBalancingRules.NoDiffKeepsRules` | providers/azure/utils.go:263-297 | without a difference all old rules remain, in order |
| `RuleResults.LeftOver` | providers/azure/utils.go:263-297 | a port is left to serve if and only if it is wanted and no old rule serves it under its proper name |
| `RuleResults.ProtectedStay` | providers/azure/utils.go:263-297 | rules of other protocols and TCP rules for 80 and 443 all stay, in order |
| `RuleResults.KeptCount` | providers/azure/utils.go:266-295 | of the old rules for any other pair, exactly one stays if the pair is wanted and served, else none |
| `RuleResults.NewCount` | providers/azure/utils.go:299-347 | canonical keys give exactly one properly named rule each |
| `RuleResults.RuleCounts` | providers/azure/utils.go:223-260 | how many rules each (protocol, port) pair has after a run: one per wanted pair and none otherwise, except that the old TCP 80/443 rules are kept |
| `RuleResults.OncePerPairIff` | providers/azure/utils.go:223-260 | every pair ends up at most once, and each wanted pair exactly once, if and only if 80 and 443 had at most one old TCP rule each, properly named if the port is wanted |
| `RuleResults.RenamedDefaultIsDoubled` | providers/azure/utils.go:281-293 | an old TCP rule for 80 under another name stays beside the new one |
| `RuleResults.OnlyWantedRules` | providers/azure/utils.go:223-297 | every resulting rule is of another protocol, an old protected one, or named and wanted; rules of other protocols keep their order |
| `RuleResults.SecondRunIdleIff` | providers/azure/utils.go:223-260 | a second run with the same ports reports no difference if and only if every key is the decimal text of the 32-bit number it is read as |
| `RuleResults.PaddedKeyNeverSettles` | providers/azure/utils.go:317-321 | a concrete key, 080, with which every run reports a difference |
| `RuleResults.PatchCovers` | providers/azure/loadbalancer.go:218-234 | patching keeps every rule and then some rule equals each default |
| `RuleResults.PatchIdle` | providers/azure/loadbalancer.go:218-260 | patching changes nothing if and only if some rule equals each default |
| `RuleResults.SyncKeepsCovered` | providers/azure/utils.go:290-293 | synchronizing the user's rules never drops a rule that equals a default |
| `RuleResults.JointFixedPoint` | providers/azure/loadbalancer.go:192-234 | after patching the defaults of the probes and synchronizing, patching again adds nothing, and synchronizing again reports no difference if and only if all keys are canonical |
| `RuleResults.DefaultsAreFixed` | providers/azure/loadbalancer.go:197-202 | a load balancer that gets the defaults as they are needs no patch |
| `Choice.AllBindsAre` | providers/ipvsdr/nodenetwork.go:121-132 | a bind is considered exactly when the provider or one of its slaves has it |
| `Choice.MetadataIs` | providers/ipvsdr/util.go:106-124 | the address of a node under a key is that of a label that parses, else that of an annotation that does, else none |
| `Choice.SelectorIs` | providers/ipvsdr/ipvsdr.go:122-131 | a selector holds an address for a key exactly when some bind names that annotation and the node has an address under it, and it holds that address |
| `Choice.UsableTextsAre` | providers/ipvsdr/nodenetwork.go:45-53 | an address is reported as often as the interface has it with a global unicast address and a mask that is not all 0xff |
| `Choice.NetIs` | providers/ipvsdr/nodenetwork.go:65-73 | a reported interface has the name and MAC address of a host interface that is neither loopback nor point-to-point, and its counting addresses, sorted |
| `Choice.ReportIs` | providers/ipvsdr/nodenetwork.go:89-119 | a node reports, sorted by name, exactly those interfaces whose name some bind asks for, or that hold the node's own address or one that a bind asks for |
| `Choice.ChoiceIs` | providers/ipvsdr/nodenetwork.go:134-173 | without a bind the first interface with the node's address is chosen; with one, the first of its name, else the first with the address under its annotation; the address is preferred exactly when the interface holds it |
| `Choice.AddressIs` | providers/ipvsdr/nodenetwork.go:77-87 | the address of a family is the preferred one if it has the family, else the first that has, else none |
| `Sorting.LeqIs` | providers/ipvsdr/ipvsdr.go:212-213 | the order of strings: a start comes first, else the first differing character decides |
| `Views.NetOfNodeIs` | providers/ipvsdr/ipvsdr.go:332-341 | what a director goes by for a node is its own host for itself and the first entry of the status for every other node |
| `Views.NodeNetsAre` | providers/ipvsdr/ipvsdr.go:332-346 | the interfaces of the group are those chosen on every node that has one, in node order |
| `Treatment.ExportedTCPAre` | core/provider/ports.go:34-49 | the exported TCP ports are "450", "451", the HTTP and HTTPS port with their defaults, and the keys of the map, four more than the map has |
| `Treatment.ExportedUDPAre` | core/provider/ports.go:51-55 | the exported UDP ports are the keys of the map |
| `Treatment.DefaultPortTexts` | core/provider/ports.go:43-43 | the default ports print as "80" and "443" |
| `Treatment.InstalledTreats` | providers/ipvsdr/ipvsdr.go:645-732 | chains installed for an object treat every packet as the object and the port maps say, field by field: nothing in ActivePassive mode; else, on the own interface and to a listed address, packets of the group lose the mark bit and other packets to an exported port get it |
| `Treatment.UpToDateTreats` | providers/ipvsdr/ipvsdr.go:645-732 | the same for chains that are up to date, so after every call that flushes and every sound skip |
| `Treatment.ActivePassiveKeepsMarks` | providers/ipvsdr/ipvsdr.go:658-667 | in ActivePassive mode every packet keeps its mark |
| `Compiled.ConsideredAre` | providers/ipvsdr/ipvsdr.go:371-381 | of the addresses that parse, exactly those that start a run of their family are considered, in their order |
| `Compiled.FrameBlockIs` | providers/ipvsdr/ipvsdr.go:368-425 | a block has one instance, in order, per considered address of whose family the own interface has an address, with every field given; and one virtual server each unless ActivePassive |
| `Compiled.ConfigurationIs` | providers/ipvsdr/ipvsdr.go:428-462 | the compiled configuration, without reference to how it is computed: it exists exactly when the own interface for the main provider is found; it is the main block followed by the blocks of all ActivePassive slaves whose own interface is found; the main VRID is the status VRID or 110, and each ActivePassive slave takes the next one |
| `Compiled.EmittedPriority` | providers/ipvsdr/ipvsdr.go:439-441 | on the i-th of the sorted nodes every emitted instance, of the main provider and of slaves, has priority 100 + 60 * i, and is MASTER exactly when its provider is ActivePassive and the node is the last one |
| `Compiled.MasterOutranks` | providers/ipvsdr/ipvsdr.go:361-366 | an emitted MASTER instance has a higher priority than every instance that any other director emits, and those are BACKUP |
| `Verdicts.InvalidIs` | providers/ipvsdr/ipvsdr.go:218-245 | the reasons for which an object is rejected |
| `Verdicts.SameLBIs` | providers/ipvsdr/ipvsdr.go:186-196 | the change test ignores version, ports, VRID and validity, and nothing else of the object |
| `Verdicts.CompilesAfterFlush` | providers/ipvsdr/ipvsdr.go:301-312 | the configuration can be compiled exactly when the own interface for the chains is found |
| `Verdicts.VerdictIs` | providers/ipvsdr/ipvsdr.go:270-318 | every outcome of a valid object that is not skipped, case by case; a call fails after the flush only by the reload |
| `Verdicts.AttemptIs` | providers/ipvsdr/ipvsdr.go:174-183 | an attempt that changes something leaves the merge in the copy, and in the store, one version on, exactly when it succeeds |
| `Decimals.AtoiOfDigits` | providers/azure/utils.go:317-320 | signs are read, and numbers beyond 64 bits are refused |
| `Decimals.OnlyDigitsParse` | providers/azure/utils.go:317-320 | a text is a number exactly when it has digits only, and at least one |
| `ResourceIds.CutIs` | providers/azure/utils.go:443-449 | an ip-config ID is cut exactly in front of the first "/ipConfigurations" |
| `ResourceIds.NoCutIff` | providers/azure/utils.go:443-447 | there is no cut exactly when the keyword does not occur |
| `ResourceIds.CutOfConfig` | providers/azure/utils.go:443-449 | the ID of an ip-config of an interface is cut to the interface's ID |
| `ResourceIds.FormatIsWritten` | providers/azure/utils.go:349-373 | a formatted ID is the text with the written-out keywords |
| `ResourceIds.WrittenIDsParse` | providers/azure/utils.go:349-373 | written-out IDs of interfaces and security groups are read back as their group and name |
| `AsciiText.EqualFoldIs` | providers/azure/loadbalancer.go:690-690 | folding compares letter by letter, up to the two cases of one letter |
| `BackendPools.DetachRemoves` | providers/azure/loadbalancer.go:682-699 | detaching takes every occurrence of the pool out and leaves the list of the others |
| `BackendPools.AttachAddsOnce` | providers/azure/loadbalancer.go:729-750 | attaching adds the pool once, behind the others, unless it is there |
| `BackendPools.ViewMember` | providers/azure/utils.go:416-424 | an interface is in the view exactly when some listed ip-config ID is cut to it |
| `BackendPools.CorrectPoolIsIdle` | providers/azure/loadbalancer.go:638-662 | with a pool that lists ip-configs of exactly the desired interfaces a run succeeds, detaches and attaches nothing, and leaves the store as it is |
| `GroupSync.GroupsOfAre` | providers/azure/loadbalancer.go:575-588 | the groups of some interfaces are those stored with the interfaces that the IDs name |
| `GroupSync.KeysOfAre` | providers/azure/loadbalancer.go:507-512 | the keys of some groups are those that their IDs name |
| `SecurityRules.GridIs` | providers/azure/loadbalancer.go:398-409 | the slots are the multiples of ten from 1000 to 4090 |
| `SecurityMeaning.ManagedIsOurs` | providers/azure/loadbalancer.go:421-430 | a rule is managed exactly when its name starts with cps-lb-tcp- or cps-lb-udp-, and for the protocol of that prefix |
| `SecurityMeaning.DefaultRuleOpens` | providers/azure/loadbalancer.go:485-504 | a default rule, field by field: name, protocol, port, access, direction, ranges, prefixes and priority |
| `SecurityMeaning.SyncOpensPorts` | providers/azure/loadbalancer.go:333-385 | after a successful sync every rule with one of the prefixes opens one wanted port of its protocol, field by field, and every wanted port is opened by such a rule |
| `SecurityMeaning.SyncOpensOnce` | providers/azure/loadbalancer.go:333-385 | no port is opened twice |
| `SecurityMeaning.SyncKeepsTheUsers` | providers/azure/loadbalancer.go:341-355 | rules whose names have neither prefix stay as they are and in their order |
| `SecurityMeaning.StripKeepsTheUsers` | providers/azure/loadbalancer.go:517-531 | stripping leaves exactly the rules whose names have neither prefix, in their order |
| `RuleMeaning.NewRuleIs` | providers/azure/utils.go:300-347 | a new rule, field by field: the first frontend, backend pool and probe, equal frontend and backend port, and the fixed settings, for a key that is read as its port |
| `RuleMeaning.AddedRulesAre` | providers/azure/utils.go:237-254 | every rule that a run adds is such a rule for a wanted key of its protocol |
| `RuleMeaning.OldDefaultsStay` | providers/azure/utils.go:290-293 | every old TCP rule for 80 or 443 stays |
| `RuleMeaning.OthersStay` | providers/azure/utils.go:275-278 | every old rule of another protocol stays |
| `RuleMeaning.RemainingAreNamed` | providers/azure/utils.go:280-294 | every other old rule that remains is named tcp- or udp- and its port, and serves a wanted key |
| `RuleMeaning.PatchAdds` | providers/azure/loadbalancer.go:220-232 | patching keeps the rules as they are and adds only defaults, behind them |
| `RuleMeaning.ProbeRulesAre` | providers/azure/utils.go:166-196 | one default TCP rule per probe, in order, field by field |
| `RuleMeaning.EqualRuleIs` | providers/azure/loadbalancer.go:237-260 | a rule equals a default exactly when they agree in every field that the program sets |
| `RuleMeaning.PatchForwardsProbes` | providers/azure/loadbalancer.go:192-234 | after patching, every probe's port is forwarded between the given frontend and backend pool |

## Left out

- Kubernetes and Azure clients, informers, the work queue, the rate limiter, logging, authentication: only versioned Update, Get and CreateOrUpdate remain. An informer may deliver any stored version, which allows more runs than a real one; the rounds of convergence deliver only newer versions.
- The API server gives every successful Update a new version, also one that changes nothing; no modelled call depends on it.
- Errors of Azure calls other than a missing record, and errors of ConfigMap reads other than "not found": the caller returns them, and the state is that of the steps before.
- `ValidateLoadBalancer` is foreign code: its verdict is a field of the object.
- `getK8sNodeIP` (providers/ipvsdr/util.go:81-104): the host IP is a field of the node.
- IP and MAC parsing: a parser that gives a canonical text and a family is a parameter; so is which port numbers a `--dports` argument covers.
- Real iptables errors: a rule is always ensured. The filter chain of `ensureIptablesOutputDrop` (providers/ipvsdr/ipvsdr.go:672-689), jump rules and sysctl settings are not modelled.
- Marks are natural numbers without a width; only bit 0 is ever written.
- Keepalived's template, the checksum of its file and whether keepalived runs: a reload succeeds or fails. Its configuration also depends on the HTTP port and the VRID of the status, which the change test does not compare, so freshness is stated for the chains only.
- `providers/azure/azure.go`: the lifecycle around the reconcilers, mostly service calls.
- `ensureSyncDefaultConfigExceptRules`, `createAzureLoadBalancer` and the frontends, probes and pools they set: parameters of the rule writers.
- `recoverDefaultAzureLoadBalancer` beyond the parsing of the IDs it passes on.
- `getBackendPoolIPFromNodes` and the virtual machines behind it: the desired interface IDs are a parameter.
- Nil pointers: a load balancer, a rule or a security group whose pointer is nil where the code dereferences it (as at providers/azure/loadbalancer.go:333) is not in the model. Nil and empty lists of rules are one value, and so are nil and empty slices in the compared status.
- The values of the port maps, which are never read; the maps are sets of keys, and copying them is passing a value.
- Stores are keyed by the exact group and name. Comparison of pool IDs ignores case for ASCII letters only.
- BackendPools.TargetReachedIff: asks that different IDs in the view and among the desired ones name different interfaces, as the code compares IDs as text.
- Chain.Iptables.Rebuild: states the set of rules and their layering, not the order inside a layer, which no packet can observe.
- Convergence.RoundsConvergeIff: convergence is stated for two rounds of turns without faults after an arbitrary run; no fairness of the scheduler is modelled. Only safety results allow an informer to deliver an object again.
- `core/provider/controller.go`, the ingress sidecar, `pkg/execd`, `cmd`: processes, I/O and flags.
