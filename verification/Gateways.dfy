// Gateways of clusters, and the EndpointSlice each is published as.
module Gateways {
  import opened Text
  import opened Names
  import opened Slices

  datatype Ingress = Ingress(ip: string, hostname: string)

  datatype Service = Service(kind: string, ingress: seq<Ingress>)

  datatype ClusterGateway = ClusterGateway(
    cluster: NamespacedName,
    gateway: Option<Service>,
    unreachable: bool,
    domainSuffix: string,
    controllerNamespace: string,
    gatewayDNS: NamespacedName)

  /** The hostname of a gateway without its leading "*.". */
  function GatewayDomain(cluster: NamespacedName, domainSuffix: string): string {
    "gateway." + cluster.name + "." + cluster.namespace + ".clusters." + domainSuffix
  }

  function EndpointSliceName(cluster: NamespacedName): string {
    cluster.namespace + "-" + cluster.name + "-gateway"
  }

  /** The key of the slice a cluster's gateway is published under. */
  function GatewayKey(controllerNamespace: string, cluster: NamespacedName): string {
    controllerNamespace + "/" + EndpointSliceName(cluster)
  }

  function EndpointSliceKey(cg: ClusterGateway): string {
    GatewayKey(cg.controllerNamespace, cg.cluster)
  }

  function IPs(ingress: seq<Ingress>): seq<string> {
    seq(|ingress|, i requires 0 <= i < |ingress| => ingress[i].ip)
  }

  /** The slice a reachable gateway asks for. */
  function Desired(cg: ClusterGateway): EndpointSlice
    requires cg.gateway.Some?
  {
    EndpointSlice(
      cg.controllerNamespace,
      EndpointSliceName(cg.cluster),
      map[DNS_HOSTNAME := "*." + GatewayDomain(cg.cluster, cg.domainSuffix),
          GATEWAY_DNS_REF := cg.gatewayDNS.String()],
      map["kubernetes.io/service-name" := EndpointSliceName(cg.cluster)],
      IPv4,
      [Endpoint(IPs(cg.gateway.value.ingress), "")],
      [])
  }

  method ToEndpointSlice(cg: ClusterGateway) returns (slice: EndpointSlice)
    requires cg.gateway.Some?
    ensures slice == Desired(cg)
  {
    var hostname := "*.gateway." + cg.cluster.name + "." + cg.cluster.namespace + ".clusters." + cg.domainSuffix;
    assert hostname == "*." + GatewayDomain(cg.cluster, cg.domainSuffix);
    var addresses := [];
    for i := 0 to |cg.gateway.value.ingress|
      invariant addresses == IPs(cg.gateway.value.ingress[..i])
    {
      addresses := addresses + [cg.gateway.value.ingress[i].ip];
    }
    assert cg.gateway.value.ingress[..|cg.gateway.value.ingress|] == cg.gateway.value.ingress;
    slice := EndpointSlice(
      cg.controllerNamespace,
      EndpointSliceName(cg.cluster),
      map[DNS_HOSTNAME := hostname, GATEWAY_DNS_REF := cg.gatewayDNS.String()],
      map["kubernetes.io/service-name" := EndpointSliceName(cg.cluster)],
      IPv4,
      [Endpoint(addresses, "")],
      []);
  }

  lemma AnnotationKeysDiffer()
    ensures DNS_HOSTNAME != GATEWAY_DNS_REF
  {
    assert |DNS_HOSTNAME| < |GATEWAY_DNS_REF|;
  }

  /** What is published for a gateway, field by field. */
  lemma DesiredFields(cg: ClusterGateway)
    requires cg.gateway.Some?
    ensures var slice, ingress := Desired(cg), cg.gateway.value.ingress;
            && slice.namespace == cg.controllerNamespace
            && slice.name == cg.cluster.namespace + "-" + cg.cluster.name + "-gateway"
            && slice.annotations.Keys == {DNS_HOSTNAME, GATEWAY_DNS_REF}
            && slice.annotations[DNS_HOSTNAME] ==
               "*.gateway." + cg.cluster.name + "." + cg.cluster.namespace + ".clusters." + cg.domainSuffix
            && slice.annotations[GATEWAY_DNS_REF] == cg.gatewayDNS.namespace + "/" + cg.gatewayDNS.name
            && slice.labels == map["kubernetes.io/service-name" := slice.name]
            && slice.addressType == IPv4 && slice.ports == []
            && |slice.endpoints| == 1 && |slice.endpoints[0].addresses| == |ingress|
            && forall i | 0 <= i < |ingress| :: slice.endpoints[0].addresses[i] == ingress[i].ip
  {
    AnnotationKeysDiffer();
    assert "*.gateway." == "*." + "gateway.";
  }

  lemma CancelSuffix(a: string, b: string, tail: string)
    requires a + tail == b + tail
    ensures a == b
  {
    assert |a| == |b| && a == (a + tail)[..|a|] && b == (b + tail)[..|b|];
  }

  lemma CancelPrefix(head: string, a: string, b: string)
    requires head + a == head + b
    ensures a == b
  {
    assert a == (head + a)[|head|..] && b == (head + b)[|head|..];
  }

  /** Within one namespace distinct clusters are published under distinct keys. */
  lemma KeysInjective(controllerNamespace: string, a: NamespacedName, b: NamespacedName)
    requires a.namespace == b.namespace
    requires GatewayKey(controllerNamespace, a) == GatewayKey(controllerNamespace, b)
    ensures a == b
  {
    CancelPrefix(controllerNamespace + "/", EndpointSliceName(a), EndpointSliceName(b));
    var head := a.namespace + "-";
    assert EndpointSliceName(a) == head + (a.name + "-gateway") && EndpointSliceName(b) == head + (b.name + "-gateway");
    CancelPrefix(head, a.name + "-gateway", b.name + "-gateway");
    CancelSuffix(a.name, b.name, "-gateway");
  }

  /** The namespace of b is that of a with a piece taken over from the front of a's name. */
  ghost predicate Shifted(a: NamespacedName, b: NamespacedName) {
    exists x :: b.namespace == a.namespace + "-" + x && a.name == x + "-" + b.name
  }

  /** Two clusters are published under one key exactly when they are one, or a dash can be read both ways. */
  lemma KeysCollide(controllerNamespace: string, a: NamespacedName, b: NamespacedName)
    ensures GatewayKey(controllerNamespace, a) == GatewayKey(controllerNamespace, b) <==>
            a == b || Shifted(a, b) || Shifted(b, a)
  {
    var head, tail := controllerNamespace + "/", "-gateway";
    KeyShape(controllerNamespace, a);
    KeyShape(controllerNamespace, b);
    var ta, tb := a.namespace + "-" + a.name, b.namespace + "-" + b.name;
    if head + ta + tail == head + tb + tail {
      CancelSuffix(head + ta, head + tb, tail);
      CancelPrefix(head, ta, tb);
    }
    DashesCollide(a, b);
  }

  lemma KeyShape(controllerNamespace: string, a: NamespacedName)
    ensures GatewayKey(controllerNamespace, a) == controllerNamespace + "/" + (a.namespace + "-" + a.name) + "-gateway"
  {}

  lemma DashesCollide(a: NamespacedName, b: NamespacedName)
    ensures a.namespace + "-" + a.name == b.namespace + "-" + b.name <==> a == b || Shifted(a, b) || Shifted(b, a)
  {
    if a.namespace + "-" + a.name == b.namespace + "-" + b.name {
      if |a.namespace| < |b.namespace| {
        DashShift(a, b);
      } else if |b.namespace| < |a.namespace| {
        DashShift(b, a);
      } else {
        assert a.namespace + ("-" + a.name) == a.namespace + "-" + a.name;
        assert b.namespace + ("-" + b.name) == b.namespace + "-" + b.name;
        CancelPrefixOfSameLength(a.namespace, "-" + a.name, b.namespace, "-" + b.name);
        CancelPrefix("-", a.name, b.name);
      }
    }
    if Shifted(a, b) {
      ShiftedText(a, b);
    }
    if Shifted(b, a) {
      ShiftedText(b, a);
    }
  }

  lemma CancelPrefixOfSameLength(a: string, x: string, b: string, y: string)
    requires a + x == b + y && |a| == |b|
    ensures a == b && x == y
  {
    assert a == (a + x)[..|a|] == b && x == (a + x)[|a|..] == y;
  }

  lemma DashShift(a: NamespacedName, b: NamespacedName)
    requires a.namespace + "-" + a.name == b.namespace + "-" + b.name && |a.namespace| < |b.namespace|
    ensures Shifted(a, b)
  {
    var n := |a.namespace|;
    var x := b.namespace[n + 1..];
    var whole := a.namespace + "-" + a.name;
    assert b.namespace == whole[..|b.namespace|];
    assert b.namespace[..n] == a.namespace && b.namespace[n] == '-';
    assert b.namespace == a.namespace + "-" + x;
    assert a.namespace + "-" + a.name == (a.namespace + "-") + (x + "-" + b.name);
    CancelPrefix(a.namespace + "-", a.name, x + "-" + b.name);
  }

  lemma ShiftedText(a: NamespacedName, b: NamespacedName)
    requires Shifted(a, b)
    ensures a.namespace + "-" + a.name == b.namespace + "-" + b.name
  {
    var x :| b.namespace == a.namespace + "-" + x && a.name == x + "-" + b.name;
    assert a.namespace + "-" + (x + "-" + b.name) == (a.namespace + "-" + x) + "-" + b.name;
  }

  /** Such a pair: two legal names in two legal namespaces. */
  lemma KeysCollideAcrossNamespaces(controllerNamespace: string)
    ensures var a, b := NamespacedName("dev", "team-a"), NamespacedName("dev-team", "a");
            a != b && GatewayKey(controllerNamespace, a) == GatewayKey(controllerNamespace, b)
  {
    var a, b := NamespacedName("dev", "team-a"), NamespacedName("dev-team", "a");
    assert |a.namespace| != |b.namespace|;
    assert b.namespace == a.namespace + "-" + "team" && a.name == "team" + "-" + b.name;
    KeysCollide(controllerNamespace, a, b);
  }

  /** Putting labels in front of a non-root name. */
  lemma PrependLabels(front: string, rest: string)
    requires rest != "" && Canonical(rest) != "."
    ensures Canonical(front + "." + rest) != "."
    ensures Canonical(front + "." + rest) == Lower(front) + "." + Canonical(rest)
    ensures Labels(Canonical(front + "." + rest)) == Split(Lower(front), '.') + Labels(Canonical(rest))
  {
    CanonicalConcat(front + ".", rest);
    LowerConcat(front, ".");
    CanonicalIsFqdn(rest);
    LabelsConcat(Lower(front), Canonical(rest));
  }

  lemma DomainShape(cluster: NamespacedName, domainSuffix: string)
    ensures GatewayDomain(cluster, domainSuffix) ==
            "gateway" + "." + (cluster.name + "." + (cluster.namespace + "." + ("clusters." + domainSuffix)))
  {
    assert "gateway." == "gateway" + "." && ".clusters." == "." + "clusters.";
  }

  lemma DomainNonempty(cluster: NamespacedName, domainSuffix: string)
    ensures GatewayDomain(cluster, domainSuffix) != ""
  {
    assert |GatewayDomain(cluster, domainSuffix)| >= |"gateway."|;
  }

  lemma LowerGateway()
    ensures Lower("gateway") == "gateway"
  {}

  /** A gateway domain in canonical form, piece by piece. */
  lemma DomainText(cluster: NamespacedName, domainSuffix: string)
    ensures Canonical(GatewayDomain(cluster, domainSuffix)) ==
            "gateway" + "." + (Lower(cluster.name) + "." +
            (Lower(cluster.namespace) + "." + Canonical("clusters." + domainSuffix)))
  {
    var tail := "clusters." + domainSuffix;
    PrependLabels(cluster.namespace, tail);
    var inner := cluster.namespace + "." + tail;
    PrependLabels(cluster.name, inner);
    var named := cluster.name + "." + inner;
    PrependLabels("gateway", named);
    DomainShape(cluster, domainSuffix);
    LowerGateway();
  }

  lemma GatewayLabel()
    ensures Split(Lower("gateway"), '.') == ["gateway"]
  {
    assert Lower("gateway") == "gateway";
    SplitOfFree("gateway", '.');
  }

  /** The labels of a gateway domain, with the cluster and its namespace in fixed places. */
  lemma DomainLabels(cluster: NamespacedName, domainSuffix: string)
    requires Free('.', cluster.namespace)
    ensures IsFqdn(Canonical(GatewayDomain(cluster, domainSuffix)))
    ensures Canonical(GatewayDomain(cluster, domainSuffix)) != "."
    ensures Labels(Canonical(GatewayDomain(cluster, domainSuffix))) ==
            ["gateway"] + (Split(Lower(cluster.name), '.') + ([Lower(cluster.namespace)] + Labels(Canonical("clusters." + domainSuffix))))
  {
    var tail := "clusters." + domainSuffix;
    PrependLabels(cluster.namespace, tail);
    LowerFree(cluster.namespace);
    SplitOfFree(Lower(cluster.namespace), '.');
    var inner := cluster.namespace + "." + tail;
    PrependLabels(cluster.name, inner);
    var named := cluster.name + "." + inner;
    PrependLabels("gateway", named);
    GatewayLabel();
    DomainShape(cluster, domainSuffix);
    CanonicalIsFqdn("gateway" + "." + named);
  }

  /** With dot-free namespaces the hostname of a gateway tells its cluster, case aside. */
  lemma DomainsInjective(a: NamespacedName, b: NamespacedName, domainSuffix: string)
    requires Free('.', a.namespace) && Free('.', b.namespace)
    requires Canonical(GatewayDomain(a, domainSuffix)) == Canonical(GatewayDomain(b, domainSuffix))
    ensures Lower(a.name) == Lower(b.name) && Lower(a.namespace) == Lower(b.namespace)
  {
    DomainLabels(a, domainSuffix);
    DomainLabels(b, domainSuffix);
    SamePieces("gateway", Split(Lower(a.name), '.'), Split(Lower(b.name), '.'), Lower(a.namespace), Lower(b.namespace),
               Labels(Canonical("clusters." + domainSuffix)));
    JoinSplit(Lower(a.name), '.');
    JoinSplit(Lower(b.name), '.');
  }

  lemma SamePieces(head: string, a: seq<string>, b: seq<string>, x: string, y: string, tail: seq<string>)
    requires [head] + (a + ([x] + tail)) == [head] + (b + ([y] + tail))
    ensures a == b && x == y
  {
    var all := [head] + (a + ([x] + tail));
    assert |a| == |b| && a == all[1..1 + |a|] && b == all[1..1 + |b|];
    assert all[1 + |a|] == x && all[1 + |b|] == y;
  }

  // ---------- Collecting gateways ----------

  /** newNamespacedNameFromString: both parts empty unless there is exactly one slash. */
  function ParseNamespacedName(s: string): NamespacedName {
    var parts := Split(s, '/');
    if |parts| == 2 then NamespacedName(parts[0], parts[1]) else NamespacedName("", "")
  }

  /** Writing a name and reading it back is the identity exactly on slash-free names. */
  lemma ParseRoundTrip(n: NamespacedName)
    ensures ParseNamespacedName(n.String()) == n <==> Free('/', n.namespace) && Free('/', n.name)
  {
    SplitConcat(n.namespace, n.name, '/');
    if Free('/', n.namespace) && Free('/', n.name) {
      SplitOfFree(n.namespace, '/');
      SplitOfFree(n.name, '/');
    }
  }

  /** Text without exactly one slash names nothing. */
  lemma ParseMalformed(s: string)
    ensures ParseNamespacedName(s) == NamespacedName("", "")
            || exists n: NamespacedName :: n.String() == s && Free('/', n.namespace) && Free('/', n.name)
                                           && ParseNamespacedName(s) == n
  {
    var parts := Split(s, '/');
    if |parts| == 2 {
      JoinSplit(s, '/');
      var n := NamespacedName(parts[0], parts[1]);
      assert parts[1..] == [parts[1]];
      assert n.String() == s;
    }
  }

  predicate IsLoadBalancerWithExternalIP(s: Service) {
    s.kind == "LoadBalancer" && |s.ingress| > 0
  }

  /** What one cluster answered: no client or a failed read, no usable service, or a service. */
  datatype Reading = Unreachable | Absent | Usable(service: Service)

  /** The gateways collected from a list of readings, in cluster order, absent ones left out. */
  function Collected(clusters: seq<NamespacedName>, readings: seq<Reading>, domainSuffix: string,
                     controllerNamespace: string, gatewayDNS: NamespacedName): seq<ClusterGateway>
    requires |clusters| == |readings|
  {
    if clusters == [] then []
    else
      var last := |clusters| - 1;
      var before := Collected(clusters[..last], readings[..last], domainSuffix, controllerNamespace, gatewayDNS);
      match readings[last]
      case Unreachable =>
        before + [ClusterGateway(clusters[last], None, true, domainSuffix, controllerNamespace, gatewayDNS)]
      case Absent => before
      case Usable(s) =>
        before + [ClusterGateway(clusters[last], Some(s), false, domainSuffix, controllerNamespace, gatewayDNS)]
  }

  /** Readings come from the cluster, so a usable service has an ingress. */
  predicate TrueReading(r: Reading) {
    r.Usable? ==> IsLoadBalancerWithExternalIP(r.service)
  }

  /** A gateway list as the collector hands it to one GatewayDNS reconcile. */
  predicate WellCollected(gs: seq<ClusterGateway>, domainSuffix: string, controllerNamespace: string, gatewayDNS: NamespacedName) {
    forall i | 0 <= i < |gs| ::
      && gs[i].domainSuffix == domainSuffix
      && gs[i].controllerNamespace == controllerNamespace
      && gs[i].gatewayDNS == gatewayDNS
      && (gs[i].unreachable <==> gs[i].gateway.None?)
      && (gs[i].gateway.Some? ==> Desired(gs[i]).endpoints[0].addresses != [])
  }

  /** Every gateway the diff turns into a slice has a service and at least one address. */
  lemma {:induction false} CollectedIsSafe(clusters: seq<NamespacedName>, readings: seq<Reading>, domainSuffix: string,
                                           controllerNamespace: string, gatewayDNS: NamespacedName)
    requires |clusters| == |readings| && forall i | 0 <= i < |readings| :: TrueReading(readings[i])
    ensures WellCollected(Collected(clusters, readings, domainSuffix, controllerNamespace, gatewayDNS),
                          domainSuffix, controllerNamespace, gatewayDNS)
  {
    if clusters != [] {
      var last := |clusters| - 1;
      CollectedIsSafe(clusters[..last], readings[..last], domainSuffix, controllerNamespace, gatewayDNS);
      assert TrueReading(readings[last]);
    }
  }

  /** The collected list holds exactly the unreachable clusters and those with a usable service. */
  lemma {:induction false} CollectedMembers(clusters: seq<NamespacedName>, readings: seq<Reading>, domainSuffix: string,
                                            controllerNamespace: string, gatewayDNS: NamespacedName, g: ClusterGateway)
    requires |clusters| == |readings|
    ensures g in Collected(clusters, readings, domainSuffix, controllerNamespace, gatewayDNS) <==>
            exists i | 0 <= i < |clusters| :: !readings[i].Absent?
              && g == ClusterGateway(clusters[i], if readings[i].Usable? then Some(readings[i].service) else None,
                                     readings[i].Unreachable?, domainSuffix, controllerNamespace, gatewayDNS)
  {
    if clusters != [] {
      var last := |clusters| - 1;
      CollectedMembers(clusters[..last], readings[..last], domainSuffix, controllerNamespace, gatewayDNS, g);
      if i :| 0 <= i < last && !readings[i].Absent?
              && g == ClusterGateway(clusters[i], if readings[i].Usable? then Some(readings[i].service) else None,
                                     readings[i].Unreachable?, domainSuffix, controllerNamespace, gatewayDNS)
      {
        assert clusters[..last][i] == clusters[i] && readings[..last][i] == readings[i];
      }
    }
  }

  /** No two gateways are of one cluster. */
  predicate DistinctClusters(gs: seq<ClusterGateway>) {
    forall i, j | 0 <= i < j < |gs| :: gs[i].cluster != gs[j].cluster
  }

  predicate ClustersAmong(gs: seq<ClusterGateway>, clusters: seq<NamespacedName>) {
    forall i | 0 <= i < |gs| :: gs[i].cluster in clusters
  }

  /** Distinct clusters give gateways of distinct clusters. */
  lemma {:induction false} CollectedDistinct(clusters: seq<NamespacedName>, readings: seq<Reading>, domainSuffix: string,
                                             controllerNamespace: string, gatewayDNS: NamespacedName)
    requires |clusters| == |readings| && forall i, j | 0 <= i < j < |clusters| :: clusters[i] != clusters[j]
    ensures DistinctClusters(Collected(clusters, readings, domainSuffix, controllerNamespace, gatewayDNS))
    ensures ClustersAmong(Collected(clusters, readings, domainSuffix, controllerNamespace, gatewayDNS), clusters)
  {
    if clusters != [] {
      var last := |clusters| - 1;
      var before := Collected(clusters[..last], readings[..last], domainSuffix, controllerNamespace, gatewayDNS);
      CollectedDistinct(clusters[..last], readings[..last], domainSuffix, controllerNamespace, gatewayDNS);
      forall i | 0 <= i < |before|
        ensures before[i].cluster in clusters && before[i].cluster != clusters[last]
      {
        var k :| 0 <= k < last && clusters[..last][k] == before[i].cluster;
        assert clusters[k] == before[i].cluster;
      }
    }
  }
}
