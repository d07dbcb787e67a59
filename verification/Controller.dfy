// One reconcile of a GatewayDNS: find its clusters, collect their gateways, converge everywhere.
module Controller {
  import opened Text
  import opened Slices
  import opened Gateways
  import opened Convergence
  import opened ClusterReconciler
  import Fleet

  datatype Cluster = Cluster(name: NamespacedName, labels: map<string, string>)

  /** A selector is a test on labels; `None` is one that does not parse. */
  datatype GatewayDNS = GatewayDNS(selector: Option<map<string, string> -> bool>, service: string)

  function InNamespaceOf(clusters: seq<Cluster>, namespace: string): seq<NamespacedName> {
    if clusters == [] then []
    else if clusters[0].name.namespace == namespace then [clusters[0].name] + InNamespaceOf(clusters[1..], namespace)
    else InNamespaceOf(clusters[1..], namespace)
  }

  function Matching(clusters: seq<Cluster>, namespace: string, selector: map<string, string> -> bool): seq<NamespacedName> {
    if clusters == [] then []
    else if clusters[0].name.namespace == namespace && selector(clusters[0].labels) then
      [clusters[0].name] + Matching(clusters[1..], namespace, selector)
    else Matching(clusters[1..], namespace, selector)
  }

  predicate DistinctNames(names: seq<NamespacedName>) {
    forall i, j | 0 <= i < j < |names| :: names[i] != names[j]
  }

  predicate DistinctClusterNames(clusters: seq<Cluster>) {
    forall i, j | 0 <= i < j < |clusters| :: clusters[i].name != clusters[j].name
  }

  lemma {:induction false} InNamespaceMembers(clusters: seq<Cluster>, namespace: string)
    requires DistinctClusterNames(clusters)
    ensures DistinctNames(InNamespaceOf(clusters, namespace))
    ensures forall n :: n in InNamespaceOf(clusters, namespace) <==>
              n.namespace == namespace && exists i :: 0 <= i < |clusters| && clusters[i].name == n
  {
    if clusters != [] {
      InNamespaceMembers(clusters[1..], namespace);
      forall n ensures n in InNamespaceOf(clusters, namespace) <==>
          n.namespace == namespace && exists i :: 0 <= i < |clusters| && clusters[i].name == n
      {
        if i :| 0 <= i < |clusters| && clusters[i].name == n {
          if i > 0 {
            assert clusters[1..][i - 1].name == n;
          }
        }
      }
      assert forall i | 0 <= i < |clusters[1..]| :: clusters[1..][i].name != clusters[0].name;
    }
  }

  /** A GatewayDNS selects the clusters of its own namespace whose labels pass, each once. */
  lemma {:induction false} MatchingMembers(clusters: seq<Cluster>, namespace: string, selector: map<string, string> -> bool)
    ensures forall n :: n in Matching(clusters, namespace, selector) <==>
              exists i :: 0 <= i < |clusters| && clusters[i].name == n && n.namespace == namespace && selector(clusters[i].labels)
    ensures DistinctClusterNames(clusters) ==> DistinctNames(Matching(clusters, namespace, selector))
  {
    if clusters != [] {
      MatchingMembers(clusters[1..], namespace, selector);
      forall n ensures n in Matching(clusters, namespace, selector) <==>
          exists i :: 0 <= i < |clusters| && clusters[i].name == n && n.namespace == namespace && selector(clusters[i].labels)
      {
        if i :| 0 <= i < |clusters| && clusters[i].name == n && n.namespace == namespace && selector(clusters[i].labels) {
          assert i == 0 || clusters[1..][i - 1] == clusters[i];
        }
      }
      if DistinctClusterNames(clusters) {
        assert forall i | 0 <= i < |clusters[1..]| :: clusters[1..][i].name != clusters[0].name;
        assert DistinctClusterNames(clusters[1..]);
      }
    }
  }

  /** What a reading says about the cluster it was taken from. */
  ghost predicate ReadingHolds(services: map<NamespacedName, map<NamespacedName, Service>>, cluster: NamespacedName,
                               service: NamespacedName, r: Reading)
  {
    match r
    case Unreachable => true
    case Absent =>
      cluster in services && service in services[cluster] ==>
        services[cluster][service].kind != "LoadBalancer" || services[cluster][service].ingress == []
    case Usable(s) =>
      && cluster in services && service in services[cluster] && services[cluster][service] == s
      && s.kind == "LoadBalancer" && s.ingress != []
  }

  class ClusterGatewayCollector {
    const api: Fleet.Api
    const domainSuffix: string
    const namespace: string

    constructor (api: Fleet.Api, domainSuffix: string, namespace: string)
      ensures this.api == api && this.domainSuffix == domainSuffix && this.namespace == namespace
    {
      this.api, this.domainSuffix, this.namespace := api, domainSuffix, namespace;
    }

    method GetLoadBalancerService(service: NamespacedName, cluster: NamespacedName) returns (reading: Reading)
      modifies api`clock
      ensures api.clock >= old(api.clock)
      ensures ReadingHolds(api.services, cluster, service, reading)
      ensures api.Calm(old(api.clock), api.clock) && cluster in api.stores ==> !reading.Unreachable?
    {
      var ok := api.GetClient(cluster);
      if !ok {
        return Unreachable;
      }
      var reply, found := api.GetService(cluster, service);
      if reply.NotFound? {
        return Absent;
      } else if !reply.Ok? {
        return Unreachable;
      }
      return if IsLoadBalancerWithExternalIP(found.value) then Usable(found.value) else Absent;
    }

    method GetGatewaysForClusters(gatewayDNS: NamespacedName, service: string, clusters: seq<NamespacedName>)
      returns (gateways: seq<ClusterGateway>, ghost readings: seq<Reading>, ghost starts: seq<nat>)
      modifies api`clock
      ensures api.clock >= old(api.clock)
      ensures |readings| == |clusters|
      ensures gateways == Collected(clusters, readings, domainSuffix, namespace, gatewayDNS)
      ensures forall i | 0 <= i < |clusters| :: ReadingHolds(api.services, clusters[i], ParseNamespacedName(service), readings[i])
      ensures OwnReadings(api, api.stores.Keys, old(api.clock), api.clock, clusters, readings, starts)
    {
      gateways, readings, starts := [], [], [api.clock];
      for i := 0 to |clusters|
        invariant api.clock >= old(api.clock) && |readings| == i
        invariant gateways == Collected(clusters[..i], readings, domainSuffix, namespace, gatewayDNS)
        invariant forall j | 0 <= j < i :: ReadingHolds(api.services, clusters[j], ParseNamespacedName(service), readings[j])
        invariant OwnReadings(api, api.stores.Keys, old(api.clock), api.clock, clusters[..i], readings, starts)
      {
        var reading := GetLoadBalancerService(ParseNamespacedName(service), clusters[i]);
        if !reading.Absent? {
          var found := if reading.Usable? then Some(reading.service) else None;
          gateways := gateways + [ClusterGateway(clusters[i], found, reading.Unreachable?, domainSuffix, namespace, gatewayDNS)];
        }
        CollectedNext(clusters, i, readings, reading, domainSuffix, namespace, gatewayDNS);
        OneMoreReading(api, api.stores.Keys, old(api.clock), api.clock, clusters, i, readings, reading, starts);
        readings, starts := readings + [reading], starts + [api.clock];
      }
      assert clusters[..|clusters|] == clusters;
    }
  }

  /** As OwnFaults: a cluster with an API server is unreachable only if a call of its own failed. */
  ghost predicate OwnReadings(api: Fleet.Api, served: set<NamespacedName>, from: nat, to: nat,
                              clusters: seq<NamespacedName>, readings: seq<Reading>, starts: seq<nat>)
  {
    && |readings| == |clusters| && |starts| == |clusters| + 1
    && starts[0] == from && starts[|clusters|] == to
    && forall i | 0 <= i < |clusters| ::
         && starts[i] <= starts[i + 1]
         && (readings[i].Unreachable? && clusters[i] in served ==> !api.Calm(starts[i], starts[i + 1]))
  }

  lemma OneMoreReading(api: Fleet.Api, served: set<NamespacedName>, from: nat, to: nat, clusters: seq<NamespacedName>,
                       i: nat, readings: seq<Reading>, reading: Reading, starts: seq<nat>)
    requires i < |clusters| && |starts| == i + 1 && starts[i] <= to
    requires OwnReadings(api, served, from, starts[i], clusters[..i], readings, starts)
    requires reading.Unreachable? && clusters[i] in served ==> !api.Calm(starts[i], to)
    ensures OwnReadings(api, served, from, to, clusters[..i + 1], readings + [reading], starts + [to])
  {
    var all, marks := clusters[..i + 1], starts + [to];
    forall j | 0 <= j < |all|
      ensures marks[j] <= marks[j + 1]
      ensures (readings + [reading])[j].Unreachable? && all[j] in served ==> !api.Calm(marks[j], marks[j + 1])
    {
      if j < i {
        assert clusters[..i][j] == all[j];
      }
    }
  }

  lemma {:induction false} ReadingsInOrder(api: Fleet.Api, served: set<NamespacedName>, from: nat, to: nat,
                                           clusters: seq<NamespacedName>, readings: seq<Reading>, starts: seq<nat>, i: nat)
    requires OwnReadings(api, served, from, to, clusters, readings, starts) && i <= |clusters|
    ensures from <= starts[i]
  {
    if i > 0 {
      ReadingsInOrder(api, served, from, to, clusters, readings, starts, i - 1);
      assert starts[i - 1] <= starts[i - 1 + 1];
    }
  }

  /** The gateways of one more cluster are appended. */
  lemma CollectedNext(clusters: seq<NamespacedName>, i: nat, readings: seq<Reading>, reading: Reading,
                      domainSuffix: string, namespace: string, gatewayDNS: NamespacedName)
    requires i < |clusters| && |readings| == i
    ensures Collected(clusters[..i + 1], readings + [reading], domainSuffix, namespace, gatewayDNS) ==
            Collected(clusters[..i], readings, domainSuffix, namespace, gatewayDNS) +
            if reading.Absent? then []
            else [ClusterGateway(clusters[i], if reading.Usable? then Some(reading.service) else None, reading.Unreachable?,
                                 domainSuffix, namespace, gatewayDNS)]
  {
    assert clusters[..i + 1][..i] == clusters[..i] && (readings + [reading])[..i] == readings;
  }

  /** Collected gateways make a valid wish, each carrying its own reference and the shared namespace. */
  lemma CollectedWish(gs: seq<ClusterGateway>, domainSuffix: string, namespace: string, gatewayDNS: NamespacedName)
    requires WellCollected(gs, domainSuffix, namespace, gatewayDNS) && Free('/', namespace)
    ensures var w := WishOf(gatewayDNS, namespace, gs); w.Valid() && w.OwnGateways() && w.SharedNamespace()
  {
    DesiredMapSound(gs);
    var w := WishOf(gatewayDNS, namespace, gs);
    forall k | k in w.desired
      ensures w.desired[k].controllerNamespace == namespace && w.desired[k].gatewayDNS == gatewayDNS
      ensures EndpointSliceKey(w.desired[k]) == k
      ensures w.desired[k].unreachable || w.desired[k].gateway.Some?
    {
      var i :| 0 <= i < |gs| && gs[i] == w.desired[k];
    }
  }

  /** What one reconcile works from: the request and what the management and workload clusters hold. */
  datatype Visit = Visit(request: NamespacedName, gatewayDNSes: map<NamespacedName, GatewayDNS>, clusters: seq<Cluster>,
                         services: map<NamespacedName, map<NamespacedName, Service>>)

  /** The wish is the one of the GatewayDNS: nothing if it is gone, else the gateways of the clusters it selects. */
  ghost predicate WishIsTrue(w: Wish, v: Visit, domainSuffix: string, namespace: string,
                             selected: seq<NamespacedName>, readings: seq<Reading>)
  {
    && w.ref == v.request.String() && w.namespace == namespace
    && w.Valid() && w.OwnGateways() && w.SharedNamespace()
    && (v.request !in v.gatewayDNSes ==> w.desired == map[])
    && (v.request in v.gatewayDNSes ==>
          var gatewayDNS := v.gatewayDNSes[v.request];
          && gatewayDNS.selector.Some?
          && selected == Matching(v.clusters, v.request.namespace, gatewayDNS.selector.value)
          && |readings| == |selected|
          && (forall i | 0 <= i < |selected| ::
                ReadingHolds(v.services, selected[i], ParseNamespacedName(gatewayDNS.service), readings[i]))
          && w.desired == DesiredMap(Collected(selected, readings, domainSuffix, namespace, v.request)))
  }

  /** A wish for nothing fits a GatewayDNS that is gone and every store that has not moved. */
  lemma GoneIsTrue(v: Visit, domainSuffix: string, namespace: string, stores: map<NamespacedName, Store>)
    ensures var w := WishOf(v.request, namespace, []);
            && w.Valid() && w.OwnGateways() && w.SharedNamespace() && w.desired == map[]
            && (v.request !in v.gatewayDNSes ==> WishIsTrue(w, v, domainSuffix, namespace, [], []))
            && forall c | c in stores :: w.Between(stores[c], stores[c])
  {
    NothingMoved(WishOf(v.request, namespace, []), stores);
  }

  lemma CollectedIsTrue(v: Visit, domainSuffix: string, namespace: string, selected: seq<NamespacedName>, readings: seq<Reading>)
    requires v.request in v.gatewayDNSes && v.gatewayDNSes[v.request].selector.Some? && Free('/', namespace)
    requires selected == Matching(v.clusters, v.request.namespace, v.gatewayDNSes[v.request].selector.value)
    requires |readings| == |selected|
    requires forall i | 0 <= i < |selected| ::
               ReadingHolds(v.services, selected[i], ParseNamespacedName(v.gatewayDNSes[v.request].service), readings[i])
    ensures var gateways := Collected(selected, readings, domainSuffix, namespace, v.request);
            && WellCollected(gateways, domainSuffix, namespace, v.request)
            && WishIsTrue(WishOf(v.request, namespace, gateways), v, domainSuffix, namespace, selected, readings)
  {
    CollectedIsSafe(selected, readings, domainSuffix, namespace, v.request);
    CollectedWish(Collected(selected, readings, domainSuffix, namespace, v.request), domainSuffix, namespace, v.request);
  }

  /** What a reconcile, failed or not, may have done to one store. */
  ghost predicate Visited(v: Visit, domainSuffix: string, namespace: string, before: Store, after: Store) {
    after == before || exists w, selected, readings ::
      WishIsTrue(w, v, domainSuffix, namespace, selected, readings) && w.Between(before, after)
  }

  /** The record of one reconcile: clusters read and their readings, the call that listed all clusters, the pass. */
  datatype Account = Account(selected: seq<NamespacedName>, readings: seq<Reading>, readStarts: seq<nat>, listCall: nat,
                             results: seq<ClusterResult>, starts: seq<nat>)

  /** A selected cluster is wished for exactly as it was read. */
  lemma SelectedIsDesired(w: Wish, v: Visit, domainSuffix: string, namespace: string, selected: seq<NamespacedName>,
                          readings: seq<Reading>, j: nat)
    requires WishIsTrue(w, v, domainSuffix, namespace, selected, readings) && v.request in v.gatewayDNSes
    requires DistinctClusterNames(v.clusters) && j < |selected|
    ensures var key := GatewayKey(namespace, selected[j]);
            match readings[j]
            case Absent => key !in w.desired
            case Unreachable => key in w.desired && w.desired[key].unreachable
            case Usable(s) => w.Reachable(key) && w.desired[key].cluster == selected[j] && w.desired[key].gateway == Some(s)
  {
    var selector := v.gatewayDNSes[v.request].selector.value;
    var gs := Collected(selected, readings, domainSuffix, namespace, v.request);
    var key := GatewayKey(namespace, selected[j]);
    MatchingMembers(v.clusters, v.request.namespace, selector);
    assert forall i | 0 <= i < |selected| :: selected[i] in selected && selected[i].namespace == v.request.namespace;
    CollectedDistinct(selected, readings, domainSuffix, namespace, v.request);
    forall i | 0 <= i < |gs|
      ensures gs[i].controllerNamespace == namespace && gs[i].cluster.namespace == v.request.namespace
    {
      CollectedMembers(selected, readings, domainSuffix, namespace, v.request, gs[i]);
    }
    NoGatewayLost(gs, namespace, v.request.namespace);
    if readings[j].Absent? {
      AbsentNotDesired(gs, selected, readings, domainSuffix, namespace, v.request, j);
    } else {
      var g := ClusterGateway(selected[j], if readings[j].Usable? then Some(readings[j].service) else None,
                              readings[j].Unreachable?, domainSuffix, namespace, v.request);
      CollectedMembers(selected, readings, domainSuffix, namespace, v.request, g);
      var i :| 0 <= i < |gs| && gs[i] == g;
      assert EndpointSliceKey(gs[i]) == key;
    }
  }

  lemma AbsentNotDesired(gs: seq<ClusterGateway>, selected: seq<NamespacedName>, readings: seq<Reading>, domainSuffix: string,
                         namespace: string, request: NamespacedName, j: nat)
    requires |readings| == |selected| && j < |selected| && readings[j].Absent? && DistinctNames(selected)
    requires forall i | 0 <= i < |selected| :: selected[i].namespace == request.namespace
    requires gs == Collected(selected, readings, domainSuffix, namespace, request)
    ensures GatewayKey(namespace, selected[j]) !in DesiredMap(gs)
  {
    var key := GatewayKey(namespace, selected[j]);
    DesiredMapSound(gs);
    if key in DesiredMap(gs) {
      var g := DesiredMap(gs)[key];
      CollectedMembers(selected, readings, domainSuffix, namespace, request, g);
      var i :| 0 <= i < |selected| && !readings[i].Absent? && g.cluster == selected[i] && g.controllerNamespace == namespace;
      KeysInjective(namespace, selected[i], selected[j]);
    }
  }

  class GatewayDNSReconciler {
    const api: Fleet.Api
    const gatewayDNSes: map<NamespacedName, GatewayDNS>
    const clusters: seq<Cluster>
    const endpointSliceReconciler: EndpointSliceReconciler
    const clusterGatewayCollector: ClusterGatewayCollector

    constructor (gatewayDNSes: map<NamespacedName, GatewayDNS>, clusters: seq<Cluster>,
                 reconciler: EndpointSliceReconciler, collector: ClusterGatewayCollector)
      requires reconciler.api == collector.api && reconciler.namespace == collector.namespace
      requires DistinctClusterNames(clusters) && Free('/', reconciler.namespace)
      ensures Wired() && this.gatewayDNSes == gatewayDNSes && this.clusters == clusters
    {
      this.api, this.gatewayDNSes, this.clusters := reconciler.api, gatewayDNSes, clusters;
      this.endpointSliceReconciler, this.clusterGatewayCollector := reconciler, collector;
    }

    /** Both parts share one namespace and talk to the same clusters. */
    ghost predicate Wired() {
      && endpointSliceReconciler.api == api && clusterGatewayCollector.api == api
      && endpointSliceReconciler.namespace == clusterGatewayCollector.namespace
      && Free('/', endpointSliceReconciler.namespace)
      && DistinctClusterNames(clusters)
    }

    method ConvergeOnClusters(gatewayDNS: NamespacedName, gateways: seq<ClusterGateway>, ghost w: Wish)
      returns (failed: bool, ghost results: seq<ClusterResult>, ghost starts: seq<nat>)
      requires Wired() && AllWellKeyed(api.stores)
      requires w == WishOf(gatewayDNS, endpointSliceReconciler.namespace, gateways) && w.Valid() && w.OwnGateways()
      modifies api
      ensures api.clock > old(api.clock) && api.stores.Keys == old(api.stores).Keys
      ensures !api.faults(old(api.clock)).Healthy? ==>
                failed && api.stores == old(api.stores) && api.clock == old(api.clock) + 1
      ensures api.faults(old(api.clock)).Healthy? ==>
                && Passed(w, api.namespaces, InNamespaceOf(clusters, gatewayDNS.namespace), old(api.stores), api.stores, results)
                && OwnFaults(api, api.stores.Keys, old(api.clock) + 1, api.clock,
                             InNamespaceOf(clusters, gatewayDNS.namespace), results, starts)
                && (failed <==> Failed in results)
    {
      var fault := api.Call();
      if !fault.Healthy? {
        return true, [], [];
      }
      InNamespaceMembers(clusters, gatewayDNS.namespace);
      var errors;
      errors, results, starts :=
        endpointSliceReconciler.ConvergeToClusters(InNamespaceOf(clusters, gatewayDNS.namespace), gatewayDNS, gateways, w);
      assert Failed in results <==> Failed in multiset(results);
      return |errors| > 0, results, starts;
    }

    /** Every cluster has an API server, and the selector of the request, if any, parses. */
    ghost predicate InOrder(request: NamespacedName, served: set<NamespacedName>) {
      && (forall i | 0 <= i < |clusters| :: clusters[i].name in served)
      && (request in gatewayDNSes ==> gatewayDNSes[request].selector.Some?)
    }

    /** With no faults on the way nothing ends early and no cluster fails. */
    lemma CalmSucceeds(request: NamespacedName, w: Wish, a: Account, before: map<NamespacedName, Store>,
                       after: map<NamespacedName, Store>, from: nat, to: nat)
      requires Wired() && w.Valid() && InOrder(request, before.Keys) && api.Calm(from, to)
      ensures !EndedEarly(request, w, a, before.Keys, from, to)
      ensures WentThrough(request, w, a, before, after, from, to) ==> Failed !in a.results
    {
      if GotGateways(request, w, a, before.Keys, from) {
        if request in gatewayDNSes {
          ReadingsInOrder(api, before.Keys, from + 2, a.listCall, a.selected, a.readings, a.readStarts, |a.selected|);
        }
        assert a.listCall >= from;
      }
      if WentThrough(request, w, a, before, after, from, to) {
        InNamespaceMembers(clusters, request.namespace);
        var targets := InNamespaceOf(clusters, request.namespace);
        forall i | 0 <= i < |targets| ensures targets[i] in before {
          assert targets[i] in targets;
        }
        CalmMeansNoFailure(api, before.Keys, a.listCall + 1, to, targets, a.results, a.starts);
      }
    }

    /** The request's own calls, and those of each cluster read, account for the gateways. */
    ghost predicate GotGateways(request: NamespacedName, w: Wish, a: Account, served: set<NamespacedName>, from: nat) {
      && WishIsTrue(w, Visit(request, gatewayDNSes, clusters, api.services), clusterGatewayCollector.domainSuffix,
                    endpointSliceReconciler.namespace, a.selected, a.readings)
      && (if request in gatewayDNSes then OwnReadings(api, served, from + 2, a.listCall, a.selected, a.readings, a.readStarts)
          else a.listCall == from + 1)
    }

    /** Why a reconcile ended before it reached any workload cluster: a call of the request itself failed. */
    ghost predicate EndedEarly(request: NamespacedName, w: Wish, a: Account, served: set<NamespacedName>, from: nat, to: nat) {
      || (to == from + 1 && !api.faults(from).Healthy?)
      || (to == from + 1 && request in gatewayDNSes && gatewayDNSes[request].selector.None?)
      || (to == from + 2 && request in gatewayDNSes && !api.faults(from + 1).Healthy?)
      || (to == a.listCall + 1 && GotGateways(request, w, a, served, from) && !api.faults(a.listCall).Healthy?)
    }

    /** The pass that follows, with every failure put down to the cluster's own calls. */
    ghost predicate WentThrough(request: NamespacedName, w: Wish, a: Account, before: map<NamespacedName, Store>,
                                after: map<NamespacedName, Store>, from: nat, to: nat)
      requires w.Valid()
    {
      && GotGateways(request, w, a, before.Keys, from)
      && Passed(w, api.namespaces, InNamespaceOf(clusters, request.namespace), before, after, a.results)
      && OwnFaults(api, before.Keys, a.listCall + 1, to, InNamespaceOf(clusters, request.namespace), a.results, a.starts)
    }

    /**
     * A reconcile. A GatewayDNS that is gone wishes for nothing, one that is there for the gateways
     * collected from the clusters it selects. Unless one of its own calls fails the pass goes over
     * every cluster of its namespace, and it fails exactly when one of those failed.
     */
    method Reconcile(request: NamespacedName) returns (failed: bool, ghost w: Wish, ghost a: Account)
      requires Wired() && AllWellKeyed(api.stores)
      modifies api
      ensures w.Valid() && w.OwnGateways() && w.SharedNamespace()
      ensures request !in gatewayDNSes ==> w.desired == map[]
      ensures forall c | c in old(api.stores) :: c in api.stores && w.Between(old(api.stores)[c], api.stores[c])
      ensures (failed && api.stores == old(api.stores)
               && EndedEarly(request, w, a, old(api.stores).Keys, old(api.clock), api.clock))
              || ((failed <==> Failed in a.results)
                  && WentThrough(request, w, a, old(api.stores), api.stores, old(api.clock), api.clock))
      ensures forall c | c in old(api.stores) ::
                Visited(Visit(request, gatewayDNSes, clusters, api.services), clusterGatewayCollector.domainSuffix,
                        endpointSliceReconciler.namespace, old(api.stores)[c], api.stores[c])
      ensures api.Calm(old(api.clock), api.clock) && InOrder(request, old(api.stores).Keys) ==> !failed
    {
      var namespace := endpointSliceReconciler.namespace;
      w, a := WishOf(request, namespace, []), Account([], [], [], api.clock + 1, [], []);
      ghost var before, from := api.stores, api.clock;
      GoneIsTrue(Visit(request, gatewayDNSes, clusters, api.services), clusterGatewayCollector.domainSuffix, namespace, before);
      var fault := api.Call();
      if !fault.Healthy? {
        return true, w, a;
      }
      var gateways := [];
      if request in gatewayDNSes {
        var gatewayDNS := gatewayDNSes[request];
        if gatewayDNS.selector.None? {
          return true, w, a;
        }
        fault := api.Call();
        if !fault.Healthy? {
          return true, w, a;
        }
        var matching := Matching(clusters, request.namespace, gatewayDNS.selector.value);
        ghost var readings, readStarts;
        gateways, readings, readStarts := clusterGatewayCollector.GetGatewaysForClusters(request, gatewayDNS.service, matching);
        CollectedIsTrue(Visit(request, gatewayDNSes, clusters, api.services), clusterGatewayCollector.domainSuffix, namespace,
                        matching, readings);
        w, a := WishOf(request, namespace, gateways), Account(matching, readings, readStarts, api.clock, [], []);
      }
      assert GotGateways(request, w, a, before.Keys, from) && a.listCall == api.clock;
      ghost var results, starts;
      failed, results, starts := ConvergeOnClusters(request, gateways, w);
      a := a.(results := results, starts := starts);
      AllVisited(w, Visit(request, gatewayDNSes, clusters, api.services), clusterGatewayCollector.domainSuffix, namespace,
                 a, api.namespaces, InNamespaceOf(clusters, request.namespace), before, api.stores);
      if api.Calm(from, api.clock) && InOrder(request, before.Keys) {
        CalmSucceeds(request, w, a, before, api.stores, from, api.clock);
      }
    }
  }

  lemma AllVisited(w: Wish, v: Visit, domainSuffix: string, namespace: string, a: Account,
                   namespaces: map<NamespacedName, set<string>>, clusters: seq<NamespacedName>,
                   before: map<NamespacedName, Store>, after: map<NamespacedName, Store>)
    requires WishIsTrue(w, v, domainSuffix, namespace, a.selected, a.readings)
    requires after == before || Passed(w, namespaces, clusters, before, after, a.results)
    ensures forall c | c in before :: c in after && w.Between(before[c], after[c])
    ensures forall c | c in before :: Visited(v, domainSuffix, namespace, before[c], after[c])
  {
    if after == before {
      NothingMoved(w, before);
    } else {
      PassIsBetween(w, namespaces, clusters, before, after, a.results);
    }
  }

  lemma NothingMoved(w: Wish, stores: map<NamespacedName, Store>)
    requires w.Valid()
    ensures forall c | c in stores :: w.Between(stores[c], stores[c])
  {}

  lemma PassIsBetween(w: Wish, namespaces: map<NamespacedName, set<string>>, clusters: seq<NamespacedName>,
                      before: map<NamespacedName, Store>, after: map<NamespacedName, Store>, results: seq<ClusterResult>)
    requires w.Valid() && Passed(w, namespaces, clusters, before, after, results)
    ensures forall c | c in before :: w.Between(before[c], after[c])
  {
    forall c | c in before ensures w.Between(before[c], after[c]) {
      if c in clusters {
        var i :| 0 <= i < |clusters| && clusters[i] == c;
        ResultIsBetween(w, namespaces, clusters[i], before, after, results[i]);
      }
    }
  }

  /** After an error-free pass for a deleted GatewayDNS, no listed cluster with the namespace holds a slice of it. */
  lemma DeletedLeavesNothing(w: Wish, namespaces: map<NamespacedName, set<string>>, clusters: seq<NamespacedName>,
                             before: map<NamespacedName, Store>, after: map<NamespacedName, Store>, results: seq<ClusterResult>,
                             c: NamespacedName)
    requires w.Valid() && w.desired == map[] && Passed(w, namespaces, clusters, before, after, results) && Failed !in results
    requires c in clusters && c in before && c in namespaces && w.namespace in namespaces[c]
    ensures after[c] == map k | k in before[c] && !w.Owns(before[c][k]) :: before[c][k]
    ensures forall k | k in after[c] :: !w.Owns(after[c][k])
    ensures forall k | k in after[c] && after[c][k].namespace == w.namespace && DNS_HOSTNAME in after[c][k].annotations ::
              GATEWAY_DNS_REF !in after[c][k].annotations || after[c][k].annotations[GATEWAY_DNS_REF] != w.ref
  {
    var i :| 0 <= i < |clusters| && clusters[i] == c;
    assert ResultHolds(w, namespaces, clusters[i], before, after, results[i]) && results[i] in results;
    Cleanup(w, before[c]);
  }
}
