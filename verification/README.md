# Cross-cluster DNS, verified

Cross-cluster Connectivity replicates the load-balancer addresses of clusters into DNS in two
stages. On the management cluster a controller collects one gateway per cluster that a GatewayDNS
selects, and writes an EndpointSlice for each to every workload cluster. On a workload cluster a DNS
server copies those slices into a cache and answers queries from it. A third program patches a
forwarding section into the cluster's own Corefile. This project models all three in Dafny and proves
what they promise.

- **Convergence** (`Gateways`, `Convergence`, `Diff`, `Fleet`, `ClusterReconciler`, `Controller`,
  `ReconcileRuns`). The
  clusters are one object whose API calls are steps; each call may succeed, be lost, or take effect
  with its answer lost. The reconcilers are methods over it that visit maps in any order. They are
  proved against `Wish.Target`, a function of one key at a time, and everything else (recovery after
  failed passes, fixpoints, commuting GatewayDNS objects, what is never touched) is proved about that
  function, over whole runs where it matters.
- **Cache** (`CacheView`, `DnsCache`, `CacheRuns`, `Wildcards`). The cache is a class with the two maps
  of the program, proved equal to one flat list of entries plus the set of names that were emptied but
  not dropped. Lookup is stated on the text of names: the longest stored suffix wins.
- **Replica and answers** (`Feeder`, `Replica`, `CrossCluster`, `Domains`, `EndToEnd`). The feeding reconciler is a
  step of a state machine with slice changes, failed reads and crashes. `EndToEnd.EndToEnd` joins both
  stages: a query under a cluster's gateway domain resolves to exactly that cluster's addresses.
- **Corefile** (`Corefile`, `Patcher`). The regular expression and white-space trimming are written out
  on text; stripping and writing the section are near inverses, and the exact conditions are proved.

`dafny verify dfyconfig.toml` checks everything.

## What the code does where a reader might expect otherwise

- `DeleteByResourceKey` never drops a name with its last entry: its emptiness test is only reached
  before the removal (`Wildcards.DeletedNameHidesWildcard`; exact effect in `Wildcards.EmptiedNamesHide`).
- A slice that loses its hostname, or takes an unhandled address type, stays cached
  (`Replica.StaleAfterLosingHostname`; `Replica.SettledKeysAgree` says exactly when, from the history).
- Reconciling a deleted slice that was never cached dereferences nil; the model crashes there and
  restarts with an empty cache (`Replica.UnannotatedSliceCrashes`).
- Clusters of different namespaces can share a slice key (`Gateways.KeysCollide`), and a dotted cluster
  name can put one domain under another (`Domains.DomainsOverlap`).
- The wildcard `*.` is never reached by fallback; for a single remaining label the text `*..` is tried.
- Skipping a slice that compares equal is the same as merging into it only because the diff lists
  slices of the same GatewayDNS (`Convergence.SkipIsMerge`).
- A Corefile with a begin marker and no end marker behind it loses its tail after two patches
  (`Corefile.OpenSectionSwallows`; exact condition in `Corefile.StripUndoesPatch`).

## Model

| member | source | states |
|---|---|---|
| EndToEnd.EndToEnd | pkg/controllers/gatewaydns/endpoint_slice_reconciler.go:68-117 | after an error-free pass and a caught-up cache, any name under a plain cluster's gateway domain answers exactly that cluster's parseable load-balancer IPs in order, and nothing when the cluster has no gateway and the slice under its key, if any, was owned |
| EndToEnd.GatewayHosts | pkg/coredns/plugins/crosscluster/crosscluster.go:43-50 | the hosts answered for a gateway are exactly the normal forms of its ingress IPs that parse, each with a TTL of 30 |
| EndToEnd.GatewayHostsInOrder | pkg/coredns/plugins/crosscluster/crosscluster.go:43-50 | when all of them parse, host by host in order |
| EndToEnd.AnswerFollowsSlice | pkg/controllers/endpointslicedns/controller.go:49-80 | over every run of changes, reconciles, failed reads and crashes on generated slices, the answer for a settled cluster is its slice's parseable addresses or NameNotFound |
| EndToEnd.LookupFindsGateway | pkg/controllers/endpointslicedns/cache.go:115-138 | a cache of gateway names answers a query strictly under a domain with that cluster's list, whatever the prefix |
| EndToEnd.OnlyGatewayDomainsAnswer | pkg/controllers/endpointslicedns/cache.go:115-138 | and it answers no query that lies under no plain cluster's domain |
| EndToEnd.RunOnlyGateways | pkg/controllers/endpointslicedns/controller.go:33-80 | a cache fed only generated slices holds, and has emptied, only gateway names |
| EndToEnd.PlainInjective | pkg/controllers/gatewaydns/cluster_gateway.go:27-31 | the labels of a gateway domain tell plain clusters apart |
| ClusterReconciler.EndpointSliceReconciler.ConvergeCluster | pkg/controllers/gatewaydns/endpoint_slice_reconciler.go:68-117 | for every visiting order an error-free pass yields exactly the per-key target of each key; a failed one leaves each key untouched or done; it issues no write exactly when the store was settled; without faults it does not fail |
| ClusterReconciler.EndpointSliceReconciler.CreateMissing | pkg/controllers/gatewaydns/endpoint_slice_reconciler.go:74-98 | the missing slices are created or taken over by merging, one key at a time, up to the first error |
| ClusterReconciler.EndpointSliceReconciler.TakeOver | pkg/controllers/gatewaydns/endpoint_slice_reconciler.go:77-93 | a slice already there under another owner is merged with the desired one |
| ClusterReconciler.EndpointSliceReconciler.UpdateChanged | pkg/controllers/gatewaydns/endpoint_slice_reconciler.go:100-106 | the changed slices are brought to their targets and nothing else moves |
| ClusterReconciler.EndpointSliceReconciler.DeleteUndesired | pkg/controllers/gatewaydns/endpoint_slice_reconciler.go:108-114 | the undesired slices go and nothing else moves |
| ClusterReconciler.EndpointSliceReconciler.DiffCluster | pkg/controllers/gatewaydns/endpoint_slice_reconciler.go:125-184 | the three lists enumerate, each key once, exactly the missing, changed and undesired slices |
| ClusterReconciler.EndpointSliceReconciler.ListExisting | pkg/controllers/gatewaydns/endpoint_slice_reconciler.go:131-149 | the existing map holds exactly the slices of the namespace with a hostname and this reference |
| ClusterReconciler.EndpointSliceReconciler.DiffDesired | pkg/controllers/gatewaydns/endpoint_slice_reconciler.go:156-170 | unreachable gateways give nothing, equal slices nothing, the rest one entry each in the right list |
| ClusterReconciler.EndpointSliceReconciler.DiffExisting | pkg/controllers/gatewaydns/endpoint_slice_reconciler.go:172-181 | owned slices without a desired gateway, reachable or not, and only those, are undesired |
| ClusterReconciler.EndpointSliceReconciler.ConvergeToClusters | pkg/controllers/gatewaydns/endpoint_slice_reconciler.go:29-66 | each cluster by itself is converged, skipped for want of the namespace, or failed; a cluster fails only if it has no API server or one of the calls of its own visit fails, so an error on one never stops the next; exactly one error per failed cluster; unlisted clusters do not move |
| ClusterReconciler.CalmMeansNoFailure | pkg/controllers/gatewaydns/endpoint_slice_reconciler.go:37-65 | in a stretch of calls without faults no cluster that has an API server fails |
| ClusterReconciler.FailuresCounted | pkg/controllers/gatewaydns/endpoint_slice_reconciler.go:37-65 | the number of errors is the number of failed clusters |
| ClusterReconciler.EndpointSliceReconciler.VisitCluster | pkg/controllers/gatewaydns/endpoint_slice_reconciler.go:33-63 | client, namespace and pass of one cluster, with an error exactly when it failed |
| Diff.DiffCovers | pkg/controllers/gatewaydns/endpoint_slice_reconciler.go:156-183 | the three key sets are disjoint, and a key in none of them already is at its target |
| Diff.DiffEmpty | pkg/controllers/gatewaydns/endpoint_slice_reconciler.go:156-183 | a diff is empty exactly on settled stores |
| Convergence.Recovery | pkg/controllers/gatewaydns/endpoint_slice_reconciler.go:74-114 | from any state a failed pass may leave, a later error-free pass ends where one from the original store would |
| Convergence.RecoveryAfterMany | pkg/controllers/gatewaydns/endpoint_slice_reconciler.go:74-114 | the same after any number of failed passes |
| Convergence.TargetTwice | pkg/controllers/gatewaydns/endpoint_slice_reconciler.go:156-196 | the target of a key is idempotent |
| Convergence.ConvergedIsSettled | pkg/controllers/gatewaydns/endpoint_slice_reconciler.go:137-154 | a converged store has an empty diff exactly when the reachable gateways carry this reference and the listed namespace |
| Convergence.SettledIsFixed | pkg/controllers/gatewaydns/endpoint_slice_reconciler.go:156-183 | a settled store is a fixpoint |
| Convergence.SkipIsMerge | pkg/controllers/gatewaydns/endpoint_slice_reconciler.go:162-166 | leaving an equal owned slice alone equals merging into it exactly when the gateway carries the same reference |
| Convergence.MergeManages | pkg/controllers/gatewaydns/endpoint_slice_reconciler.go:186-203 | a merge makes the slices compare equal, sets the reference, and keeps labels, key and every other annotation |
| Convergence.MergeAgain | pkg/controllers/gatewaydns/endpoint_slice_reconciler.go:186-196 | merging twice is merging once |
| Convergence.Commute | pkg/controllers/gatewaydns/endpoint_slice_reconciler.go:137-154 | two GatewayDNS objects commute on a store exactly when at no wanted key both write, or one writes into a slice the other would remove and keeps something of it |
| Convergence.LastWriterOwns | pkg/controllers/gatewaydns/endpoint_slice_reconciler.go:74-98 | a reachable key wanted by both belongs to whichever ran last, so the orders differ |
| Convergence.Cleanup | pkg/controllers/gatewaydns/controller.go:57-64 | converging to nothing removes exactly the owned slices |
| Convergence.SparedForever | pkg/controllers/gatewaydns/endpoint_slice_reconciler.go:132-181 | across any run of passes, failed or not, a slice that no wish owns or reaches for, or whose gateway is unreachable, is never changed or removed |
| Convergence.OtherNamespacesSpared | pkg/controllers/gatewaydns/endpoint_slice_reconciler.go:132-135 | slices outside the controller namespace survive every run unchanged |
| Convergence.ForeignSlicesSpared | pkg/controllers/gatewaydns/endpoint_slice_reconciler.go:138-149 | so do undesired slices without a hostname or with a reference outside the run |
| Convergence.NoGatewayLost | pkg/controllers/gatewaydns/endpoint_slice_reconciler.go:151-154 | for distinct clusters of one namespace the desired map has one entry per gateway |
| Convergence.LastGatewayCounts | pkg/controllers/gatewaydns/endpoint_slice_reconciler.go:151-154 | of several gateways with one key the last is desired |
| Controller.GatewayDNSReconciler.Reconcile | pkg/controllers/gatewaydns/controller.go:52-87 | a reconcile either ended early, with an error and nothing moved, because one of its own calls failed or the selector does not parse, or went over every cluster of the namespace for the true wish and failed exactly when one of those clusters failed through its own calls; every store ends between old and target; failed or not, whatever moved was moved for the true wish; with no faults on the way there is no error |
| Controller.GatewayDNSReconciler.ConvergeOnClusters | pkg/controllers/gatewaydns/controller.go:89-103 | the pass covers exactly the clusters of the namespace and fails exactly when one of them failed through its own calls, or when they could not be listed |
| Controller.DeletedLeavesNothing | pkg/controllers/gatewaydns/controller.go:57-64 | after an error-free reconcile of a deleted GatewayDNS no listed cluster with the namespace holds a slice there with a hostname and this reference, and all others stay |
| ReconcileRuns.SparedByReconciles | pkg/controllers/gatewaydns/controller.go:52-103 | across any run of reconciles of any GatewayDNS objects, failed or not, a slice no possible wish of theirs touches stays as it is |
| ReconcileRuns.OtherNamespacesSurvive | pkg/controllers/gatewaydns/controller.go:52-103 | slices outside the controller namespace survive every run of reconciles |
| ReconcileRuns.ForeignSlicesSurvive | pkg/controllers/gatewaydns/controller.go:52-103 | so does a slice under the key of no selected cluster that lacks a hostname or names no GatewayDNS of the run |
| ReconcileRuns.DeletedTakesOnlyItsOwn | pkg/controllers/gatewaydns/controller.go:57-64 | reconciling a deleted GatewayDNS, failed or not, changes nothing and removes only slices of the namespace that name it |
| ReconcileRuns.TrueWishKeys | pkg/controllers/gatewaydns/cluster_gateway_collector.go:27-59 | only keys of selected clusters are ever desired |
| Controller.ClusterGatewayCollector.GetGatewaysForClusters | pkg/controllers/gatewaydns/cluster_gateway_collector.go:27-59 | the list is the order-preserving selection of unreachable clusters and usable services, with true readings, and a cluster is called unreachable only for want of an API server or a failed call of its own |
| Controller.ClusterGatewayCollector.GetLoadBalancerService | pkg/controllers/gatewaydns/cluster_gateway_collector.go:61-93 | a cluster is usable, absent or unreachable as its service says |
| Controller.CollectedWish | pkg/controllers/gatewaydns/cluster_gateway_collector.go:36-48 | collected gateways carry their own reference and the shared namespace, as main wires them |
| Controller.InNamespaceMembers | pkg/controllers/gatewaydns/controller.go:90-91 | the namespaced list holds exactly the clusters of the namespace, each once |
| Controller.MatchingMembers | pkg/controllers/gatewaydns/cluster_searcher.go:29-38 | the clusters listed are exactly those of the namespace whose labels the selector accepts, each once |
| Controller.SelectedIsDesired | pkg/controllers/gatewaydns/controller.go:71-84 | each selected cluster is desired exactly as it was read: not at all, as unreachable, or with its service |
| Gateways.CollectedMembers | pkg/controllers/gatewaydns/cluster_gateway_collector.go:33-58 | a gateway is collected exactly when its cluster was unreachable or had a usable service |
| Gateways.CollectedIsSafe | pkg/controllers/gatewaydns/cluster_gateway_collector.go:86-113 | every gateway turned into a slice has a service and at least one address |
| Gateways.CollectedDistinct | pkg/controllers/gatewaydns/cluster_gateway_collector.go:33-58 | distinct clusters give gateways of distinct clusters |
| Gateways.ToEndpointSlice | pkg/controllers/gatewaydns/cluster_gateway.go:26-56 | the loop builds the desired slice with the ingress IPs in order |
| Gateways.DesiredFields | pkg/controllers/gatewaydns/cluster_gateway.go:26-60 | every field of that slice: namespace, name, hostname, reference, label, address type, and the IP of each ingress in place |
| Gateways.KeysInjective | pkg/controllers/gatewaydns/cluster_gateway.go:58-64 | within one namespace distinct clusters have distinct slice keys |
| Gateways.KeysCollide | pkg/controllers/gatewaydns/cluster_gateway.go:58-64 | two clusters share a slice key exactly when they are one or the dash between namespace and name can be read both ways |
| Gateways.KeysCollideAcrossNamespaces | pkg/controllers/gatewaydns/cluster_gateway.go:58-64 | a pair of legal names for which it can |
| Gateways.DomainsInjective | pkg/controllers/gatewaydns/cluster_gateway.go:27-31 | with dot-free namespaces the hostname determines cluster and namespace up to case |
| Gateways.DomainLabels | pkg/controllers/gatewaydns/cluster_gateway.go:27-31 | the labels of a gateway domain, for any suffix |
| Domains.DomainsOverlap | pkg/controllers/gatewaydns/cluster_gateway.go:27-31 | with dot-free namespaces one gateway domain lies under another exactly when, case aside, the namespaces agree and one name is the other with "gateway.", or any text and ".gateway.", in front |
| Domains.QueryUnderBoth | pkg/controllers/gatewaydns/cluster_gateway.go:27-31 | a query under two domains means they are equal or one lies under the other |
| Domains.DottedNamesOverlap | pkg/controllers/gatewaydns/cluster_gateway.go:27-31 | a dotted cluster name that puts one query under two domains |
| Gateways.ParseRoundTrip | pkg/controllers/gatewaydns/cluster_gateway_collector.go:95-103 | namespace/name text parses back exactly for slash-free parts |
| Gateways.ParseMalformed | pkg/controllers/gatewaydns/cluster_gateway_collector.go:95-103 | any other text gives the empty name |
| Slices.KeyTextInjective | pkg/controllers/gatewaydns/cluster_gateway.go:66-68 | with slash-free namespaces the key text determines the object |
| DnsCache.DNSCache.Upsert | pkg/controllers/endpointslicedns/cache.go:31-74 | on the two maps, insert, in-place update and move are Put on the flat list; the grouping and the index hold after |
| DnsCache.DNSCache.Delete | pkg/controllers/endpointslicedns/cache.go:77-89 | a name goes with all its entries and their keys |
| DnsCache.DNSCache.DeleteByResourceKey | pkg/controllers/endpointslicedns/cache.go:92-112 | one entry goes; its name stays, in the emptied set if it was the last |
| DnsCache.DNSCache.Lookup | pkg/controllers/endpointslicedns/cache.go:115-138 | the loop over labels finds the whole list of the answering name of the view |
| DnsCache.DNSCache.LookupByResourceKey | pkg/controllers/endpointslicedns/cache.go:141-157 | the entry of the key in the flat list, through both maps |
| DnsCache.DNSCache.IsValid | pkg/controllers/endpointslicedns/cache.go:179-204 | true exactly when the list is non-empty and all addresses are IPs or there is a single one |
| DnsCache.ValidIgnoresOrder | pkg/controllers/endpointslicedns/cache.go:174-204 | validity does not depend on the order of entries or addresses |
| DnsCache.UpsertGroups | pkg/controllers/endpointslicedns/cache.go:41-73 | moving out of the old list and writing into the new one keeps grouping and index |
| DnsCache.DeleteByKeyGroups | pkg/controllers/endpointslicedns/cache.go:99-111 | removing an entry but not its name keeps grouping and index |
| DnsCache.DeleteGroups | pkg/controllers/endpointslicedns/cache.go:84-88 | removing a name keeps grouping and index |
| CacheView.UnderPut | pkg/controllers/endpointslicedns/cache.go:62-72 | the written name's list is updated in place or appended to, every other list only loses the key, order kept |
| CacheView.ByKeyPut | pkg/controllers/endpointslicedns/cache.go:73 | a write changes what its own key reads and no other |
| CacheRuns.ReachableIsConsistent | pkg/controllers/endpointslicedns/cache.go:31-112 | in every reachable cache a key occurs once, emptied names have no entries, non-IP addresses are canonical and names too once there is an address |
| CacheRuns.LastWriteWins | pkg/controllers/endpointslicedns/cache.go:31-112 | a key reads what the write history says, and is listed exactly under that entry's name |
| CacheRuns.EmptiedOnlyByKey | pkg/controllers/endpointslicedns/cache.go:100-108 | a name becomes emptied exactly when deletion by key takes its only entry |
| CacheRuns.EmptiedUntilWritten | pkg/controllers/endpointslicedns/cache.go:70-88 | it stays so exactly until the name is upserted or deleted |
| Names.CanonicalIsCaseBlind | pkg/controllers/endpointslicedns/cache.go:39 | names that differ in case or in the trailing dot have one canonical form |
| Names.LowerLetters | pkg/controllers/endpointslicedns/cache.go:39 | lower-casing maps the 26 letters and nothing else |
| Wildcards.LongestSuffixAnswers | pkg/controllers/endpointslicedns/cache.go:123-137 | the exact name, else the wildcard over the longest stored suffix, else the text of a dangling wildcard, else nothing |
| Wildcards.ExactNameListsAll | pkg/controllers/endpointslicedns/cache.go:123-126 | a stored name is answered by all its entries and no other |
| Wildcards.LongestSuffixListsAll | pkg/controllers/endpointslicedns/cache.go:128-135 | otherwise all the entries of the wildcard over the longest stored suffix are, and no other |
| Wildcards.NothingStoredNothingFound | pkg/controllers/endpointslicedns/cache.go:123-137 | a name neither stored nor under a stored wildcard finds nothing |
| Wildcards.LookupIsCaseBlind | pkg/controllers/endpointslicedns/cache.go:123 | queries that differ in case or in the trailing dot get one answer |
| Wildcards.OnlyWildcardAnswers | pkg/controllers/endpointslicedns/cache.go:128-135 | a query under exactly one stored wildcard gets that one |
| Wildcards.WildcardNeverAnswersItsBase | pkg/controllers/endpointslicedns/cache.go:128-135 | no wildcard answers its own base name, and the root wildcard never answers by fallback |
| Wildcards.EmptiedNamesHide | pkg/controllers/endpointslicedns/cache.go:103-108 | emptied names change an answer exactly when, among the names tried in order, the first with a list is an emptied one and one behind it has entries |
| Wildcards.DeletedNameHidesWildcard | pkg/controllers/endpointslicedns/cache.go:103-108 | deleting a last entry by key hides a covering wildcard, deleting its name does not |
| Feeder.EndpointSliceReconciler.Reconcile | pkg/controllers/endpointslicedns/controller.go:33-99 | the cache after one reconcile, the crash exactly on an uncached deleted slice, the slices skipped, and the validity reported |
| Feeder.SliceIsCached | pkg/controllers/endpointslicedns/controller.go:49-80 | a slice with a hostname is cached under its key and canonical hostname: an FQDN slice with every address in place, each made canonical unless it is an IP, an IPv4 slice with its parsed addresses |
| Feeder.OtherSlicesChangeNothing | pkg/controllers/endpointslicedns/controller.go:49-74 | a slice without a hostname or of another address type leaves the cache as it was |
| Feeder.ParsedMembers | pkg/controllers/endpointslicedns/controller.go:57-66 | the parsed addresses are the normal forms of those that parse, and no other |
| Feeder.EndpointSliceReconciler.IPv4Addresses | pkg/controllers/endpointslicedns/controller.go:57-66 | the nested loops keep the parseable addresses in normal form and order |
| Replica.SettledKeysAgree | pkg/controllers/endpointslicedns/controller.go:33-80 | over every interleaving a settled key reads exactly its slice, unless the slice is ignored and the history of changes and reconciles left an earlier one cached |
| Replica.HistoryReads | pkg/controllers/endpointslicedns/controller.go:33-80 | what each key reads, and when the process crashes, is told by the history: the last readable reconcile of a handled slice, cleared by a found deletion or a crash |
| Replica.AllSettledAgree | pkg/controllers/endpointslicedns/controller.go:49-74 | in a run where no key turns ignored while cached every settled key agrees |
| Replica.SettledNameListsSlices | pkg/controllers/endpointslicedns/controller.go:33-80 | when all keys of such a run are settled, a stored name answers with exactly the entries of the slices that carry it |
| Replica.UnannotatedSliceCrashes | pkg/controllers/endpointslicedns/controller.go:37-42 | from any state a slice without a hostname that is created, reconciled, removed and reconciled crashes the process, and every other settled key is lost |
| Replica.StaleAfterLosingHostname | pkg/controllers/endpointslicedns/controller.go:49-52 | a slice that becomes ignored stays cached |
| Replica.FullResync | pkg/controllers/endpointslicedns/controller.go:33-80 | one reconcile of each stored or cached key makes each agree and leaves the others alone |
| Replica.FedReads | pkg/controllers/endpointslicedns/controller.go:36-80 | a reconcile sets what its own key reads and no other |
| CrossCluster.CrossCluster.Services | pkg/coredns/plugins/crosscluster/crosscluster.go:34-53 | all addresses of the looked-up list in order with TTL 30, or no such name |
| Corefile.StripIsFinal | pkg/dnsconfig/corefile_patcher.go:70-72 | stripping leaves no match of the section expression and is idempotent, for every text |
| Corefile.MatchIsLeftmostGreedy | pkg/dnsconfig/corefile_patcher.go:36 | the cut runs from the leftmost opening to the last end marker |
| Corefile.OneCut | pkg/dnsconfig/corefile_patcher.go:71 | there is never a second match to replace |
| Corefile.ReplaceAllLeavesNoMatch | pkg/dnsconfig/corefile_patcher.go:71 | joining what is left of and behind the cut makes no new match |
| Corefile.PatchIsIdempotent | pkg/dnsconfig/corefile_patcher.go:57-67 | after a patch the block is there, and repeating the patch changes nothing |
| Corefile.StripUndoesPatch | pkg/dnsconfig/corefile_patcher.go:62-72 | stripping a newly patched file gives the stripped original exactly when that has no open section |
| Corefile.StripUndoesWrite | pkg/dnsconfig/corefile_patcher.go:64-72 | the same for any trimmed text and any domain and address |
| Corefile.OpenSectionSwallows | pkg/dnsconfig/corefile_patcher.go:36 | a file with an open section for which the round trip fails |
| Corefile.LastWriterWins | pkg/dnsconfig/corefile_patcher.go:48-68 | patching with a then b equals b alone: always if a was there; with neither block exactly when the kept text has no open section and not b's block; with b's block only exactly when the file is what a patch with b writes |
| Corefile.ThereAndBack | pkg/dnsconfig/corefile_patcher.go:48-68 | patching away and back restores a written file |
| Corefile.OtherBlockOnlyKept | pkg/dnsconfig/corefile_patcher.go:57 | a written file contains another address's block only if the kept text does |
| Corefile.SectionLines | pkg/dnsconfig/corefile_patcher.go:25-34 | for a domain and an address of one line, the section is six lines: begin marker, a server block for the domain that forwards to the address and reloads, end marker |
| Corefile.WrittenLines | pkg/dnsconfig/corefile_patcher.go:64 | a written file is the lines kept, the lines of the section and a final newline |
| Corefile.TrimDropsSpace | pkg/dnsconfig/corefile_patcher.go:71 | trimming keeps every character that is no white space, in place |
| Patcher.CorefilePatcher.AppendStubDomainBlock | pkg/dnsconfig/corefile_patcher.go:38-68 | the outcome and the new config map in every case of read error, up-to-date file, missing data and update error |

## Left out

- Slice aliasing in Go: sequences are values, so the in-place change of a caller's address slice and of a list already handed to a reader is not modelled; each method guarded by the mutex is one atomic step.
- `IsPopulated` and `SetPopulated`, and the plugin's other methods, which are constants or stubs.
- nil maps of a new cache are the empty maps; nil and empty slices are equal.
- IP parsing is a parameter (the normal form of an address, if it is one); `EndToEnd` asks only that normal forms parse to themselves.
- Names with backslash escapes; lower-casing is that of ASCII letters, also in the plugin's own `ToLower`.
- Label selectors are tests on labels; a selector that does not parse is an error.
- Resource versions, conflicts, defaulting by the API server and other writers between two calls of one pass.
- An API object is known by the text of its key; `Slices.KeyTextInjective` shows that this loses nothing for legal namespaces.
- Logging, watches, the polling loop, `ClusterToGatewayDNS`, and the program that waits for the DNS service address.
- The CoreDNS handler behind `Services`: zones, record types and messages.
- Corefile text that is not valid UTF-8.
