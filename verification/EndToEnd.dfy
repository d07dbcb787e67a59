// From the load balancers of the clusters to the answers of the DNS server.
module EndToEnd {
  import opened Text
  import opened Names
  import opened Slices
  import opened CacheView
  import opened Gateways
  import opened Convergence
  import opened CrossCluster
  import opened Domains
  import Feeder
  import Replica
  import DnsCache
  import ClusterReconciler
  import Wildcards

  /** Dot-free, lower-case name and namespace. */
  predicate Plain(c: NamespacedName) {
    && Free('.', c.name) && Free('.', c.namespace)
    && Lower(c.name) == c.name && Lower(c.namespace) == c.namespace
  }

  /** The name the gateway of a cluster is cached under. */
  function WildName(c: NamespacedName, suffix: string): string {
    "*." + Domain(c, suffix)
  }

  predicate GeneratedFor(c: NamespacedName, suffix: string, controllerNamespace: string, s: EndpointSlice) {
    && Plain(c) && SliceKey(s) == GatewayKey(controllerNamespace, c)
    && DNS_HOSTNAME in s.annotations && s.annotations[DNS_HOSTNAME] == "*." + GatewayDomain(c, suffix)
    && s.addressType.IPv4?
  }

  ghost predicate Generated(suffix: string, controllerNamespace: string, s: EndpointSlice) {
    exists c :: GeneratedFor(c, suffix, controllerNamespace, s)
  }

  ghost predicate OnlyGenerated(suffix: string, controllerNamespace: string, store: Store) {
    forall k | k in store :: SliceKey(store[k]) == k && Generated(suffix, controllerNamespace, store[k])
  }

  /** Every change in the run puts a generated slice under its key, or removes one. */
  ghost predicate GeneratedChanges(suffix: string, controllerNamespace: string, events: seq<Replica.Event>) {
    forall i | 0 <= i < |events| && events[i].Change? && events[i].slice.Some? ::
      SliceKey(events[i].slice.value) == events[i].key && Generated(suffix, controllerNamespace, events[i].slice.value)
  }

  predicate CachedFor(c: NamespacedName, suffix: string, controllerNamespace: string, e: Entry) {
    Plain(c) && e.key == GatewayKey(controllerNamespace, c) && NameOf(e) == WildName(c, suffix)
  }

  predicate Named(c: NamespacedName, suffix: string, name: string) {
    Plain(c) && name == WildName(c, suffix)
  }

  /** The cache holds entries of generated slices only, and emptied names of such entries only. */
  ghost predicate OnlyGateways(suffix: string, controllerNamespace: string, view: View) {
    && view.Valid()
    && (forall e | e in view.flat :: exists c :: CachedFor(c, suffix, controllerNamespace, e))
    && (forall name | name in view.emptied :: exists c :: Named(c, suffix, name))
  }

  lemma WildNameIsCanonical(c: NamespacedName, suffix: string)
    ensures Canonical("*." + GatewayDomain(c, suffix)) == WildName(c, suffix)
  {
    DomainNonempty(c, suffix);
    CanonicalWildcard(GatewayDomain(c, suffix));
  }

  lemma UpsertOnlyGateways(parse: ParseIP, suffix: string, controllerNamespace: string, view: View, s: EndpointSlice)
    requires OnlyGateways(suffix, controllerNamespace, view) && Generated(suffix, controllerNamespace, s)
    ensures !Feeder.Ignored(s)
    ensures OnlyGateways(suffix, controllerNamespace, view.Upsert(parse, Feeder.Record(parse, SliceKey(s), s)))
  {
    var c :| GeneratedFor(c, suffix, controllerNamespace, s);
    WildNameIsCanonical(c, suffix);
    var record := Feeder.Record(parse, SliceKey(s), s);
    var next := view.Upsert(parse, record);
    DnsCache.UpsertLaws(parse, view, record, "", "");
    NormaliseKeepsName(parse, record);
    forall e | e in next.flat ensures exists c :: CachedFor(c, suffix, controllerNamespace, e) {
      ByKeyMember(next.flat, e);
      DnsCache.UpsertLaws(parse, view, record, "", e.key);
      ByKeyFound(view.flat, e.key);
      if e.key == record.key {
        assert CachedFor(c, suffix, controllerNamespace, e);
      }
    }
  }

  lemma DeleteOnlyGateways(suffix: string, controllerNamespace: string, view: View, key: string)
    requires OnlyGateways(suffix, controllerNamespace, view)
    ensures OnlyGateways(suffix, controllerNamespace, view.DeleteByKey(key))
  {
    DnsCache.DeleteByKeyLaws(view, key, "", key);
    if ByKey(view.flat, key).Some? {
      forall e | e in view.DeleteByKey(key).flat ensures e in view.flat {
        DeletedWasThere(view, key, e);
      }
      var gone := ByKey(view.flat, key).value;
      ByKeyFound(view.flat, key);
      var c :| CachedFor(c, suffix, controllerNamespace, gone);
      assert Named(c, suffix, NameOf(gone));
    }
  }

  lemma DeletedWasThere(view: View, key: string, e: Entry)
    requires view.Valid() && e in view.DeleteByKey(key).flat
    ensures e in view.flat
  {
    DnsCache.DeleteByKeyLaws(view, key, "", e.key);
    ByKeyMember(view.DeleteByKey(key).flat, e);
    ByKeyMember(view.flat, e);
  }

  lemma {:induction false} RunOnlyGateways(parse: ParseIP, suffix: string, controllerNamespace: string,
                                           store: Store, events: seq<Replica.Event>)
    requires OnlyGenerated(suffix, controllerNamespace, store) && GeneratedChanges(suffix, controllerNamespace, events)
    ensures var s := Replica.Run(parse, store, events);
            OnlyGenerated(suffix, controllerNamespace, s.store) && OnlyGateways(suffix, controllerNamespace, s.view)
  {
    if events != [] {
      var before, event := events[..|events| - 1], events[|events| - 1];
      RunOnlyGateways(parse, suffix, controllerNamespace, store, before);
      var s := Replica.Run(parse, store, before);
      if event.Reconcile? && !Replica.Crashes(s, event) {
        match Replica.ReplyTo(s.store, event)
        case Found(slice) => UpsertOnlyGateways(parse, suffix, controllerNamespace, s.view, slice);
        case NotFound => DeleteOnlyGateways(suffix, controllerNamespace, s.view, event.key);
        case Unavailable =>
      }
    }
  }

  // ---------- The query ----------

  lemma PlainLabels(c: NamespacedName, suffix: string)
    requires Plain(c)
    ensures IsFqdn(Domain(c, suffix)) && Domain(c, suffix) != "."
    ensures |Labels(Domain(c, suffix))| == 3 + |Labels(Canonical("clusters." + suffix))|
  {
    DomainLabels(c, suffix);
    SplitOfFree(c.name, '.');
  }

  /** Plain clusters are told apart by the labels of their domains. */
  lemma PlainInjective(a: NamespacedName, b: NamespacedName, suffix: string)
    requires Plain(a) && Plain(b)
    requires Labels(Domain(a, suffix)) == Labels(Domain(b, suffix))
    ensures a == b
  {
    PlainLabels(a, suffix);
    PlainLabels(b, suffix);
    LabelsDetermine(Domain(a, suffix));
    LabelsDetermine(Domain(b, suffix));
    DomainsInjective(a, b, suffix);
  }

  lemma StoredIsGateway(suffix: string, controllerNamespace: string, view: View, name: string) returns (c: NamespacedName)
    requires OnlyGateways(suffix, controllerNamespace, view) && view.Stored(name)
    ensures Named(c, suffix, name)
  {
    if name in view.emptied {
      c :| Named(c, suffix, name);
    } else {
      UnderMembers(view.flat, name);
      var e := Under(view.flat, name)[0];
      assert e in Under(view.flat, name);
      c :| CachedFor(c, suffix, controllerNamespace, e);
    }
  }

  /** The labels of a suffix of a name are the last labels of the name. */
  lemma SuffixLabels(n: string, i: nat)
    requires IsFqdn(n) && n != "." && i < |Labels(n)|
    ensures var t := Wildcards.Suffix(n, i); IsFqdn(t) && (t != "." ==> Labels(t) == Labels(n)[i..])
  {
    var t, labels := Wildcards.Suffix(n, i), Labels(n);
    if t != "." {
      assert t[..|t| - 1] == Join(labels[i..], '.');
      forall j | 0 <= j < |labels[i..]| ensures Free('.', labels[i..][j]) {
        assert labels[i..][j] == labels[i + j];
      }
      SplitJoin(labels[i..], '.');
    }
  }

  /** A query under a plain cluster's gateway domain, in canonical form. */
  lemma QueryShape(prefix: string, c: NamespacedName, suffix: string)
    requires Plain(c)
    ensures var q := prefix + "." + GatewayDomain(c, suffix);
            && Canonical(Lower(q)) == Lower(prefix) + "." + Domain(c, suffix)
            && Labels(Canonical(Lower(q))) == Split(Lower(prefix), '.') + Labels(Domain(c, suffix))
  {
    DomainNonempty(c, suffix);
    PlainLabels(c, suffix);
    PrependLabels(prefix, GatewayDomain(c, suffix));
    CanonicalOfLower(prefix + "." + GatewayDomain(c, suffix));
  }

  lemma RootSuffix(n: string)
    ensures Wildcards.Suffix(n, |Labels(n)|) == "."
  {}

  /** Of all gateway names only the one of the cluster itself covers, or is, the query. */
  lemma OnlyOwnName(prefix: string, c: NamespacedName, other: NamespacedName, suffix: string, i: nat)
    requires Plain(c) && Plain(other)
    requires var n := Canonical(Lower(prefix + "." + GatewayDomain(c, suffix)));
             i <= |Labels(n)| && "*." + Wildcards.Suffix(n, i) == WildName(other, suffix)
    ensures other == c && i == |Split(Lower(prefix), '.')|
  {
    var n := Canonical(Lower(prefix + "." + GatewayDomain(c, suffix)));
    QueryShape(prefix, c, suffix);
    PlainLabels(c, suffix);
    PlainLabels(other, suffix);
    var t := Wildcards.Suffix(n, i);
    assert t == ("*." + t)[2..] == Domain(other, suffix);
    CanonicalIsFqdn(Lower(prefix + "." + GatewayDomain(c, suffix)));
    RootSuffix(n);
    SuffixLabels(n, i);
    assert Labels(n)[i..] == Labels(Domain(c, suffix));
    PlainInjective(other, c, suffix);
  }

  lemma OwnSuffix(prefix: string, c: NamespacedName, suffix: string)
    requires Plain(c)
    ensures var n, i := Canonical(Lower(prefix + "." + GatewayDomain(c, suffix))), |Split(Lower(prefix), '.')|;
            1 <= i < |Labels(n)| && "*." + Wildcards.Suffix(n, i) == WildName(c, suffix)
  {
    QueryShape(prefix, c, suffix);
    PlainLabels(c, suffix);
    var n, i := Canonical(Lower(prefix + "." + GatewayDomain(c, suffix))), |Split(Lower(prefix), '.')|;
    assert Labels(n)[i..] == Labels(Domain(c, suffix));
    LabelsDetermine(Domain(c, suffix));
  }

  lemma WildLabels(c: NamespacedName, suffix: string)
    requires Plain(c)
    ensures Labels(WildName(c, suffix)) == ["*"] + Labels(Domain(c, suffix))
  {
    PlainLabels(c, suffix);
    StarLabel(Domain(c, suffix));
  }

  lemma StarLabel(domain: string)
    requires IsFqdn(domain) && domain != "."
    ensures Labels("*." + domain) == ["*"] + Labels(domain)
  {
    var star := "*";
    SplitOfFree(star, '.');
    LabelsConcat(star, domain);
    assert "*." + domain == star + "." + domain;
  }

  lemma SameTail<T>(a: seq<T>, x: seq<T>, b: seq<T>, y: seq<T>)
    requires a + x == b + y && |x| == |y|
    ensures x == y
  {
    assert |a| == |b| && x == (a + x)[|a|..] && y == (b + y)[|b|..];
  }

  /** If the query itself is stored, it is the cluster's own wildcard name. */
  lemma ExactIsOwn(prefix: string, c: NamespacedName, other: NamespacedName, suffix: string)
    requires Plain(c) && Plain(other)
    requires Canonical(Lower(prefix + "." + GatewayDomain(c, suffix))) == WildName(other, suffix)
    ensures other == c
  {
    QueryShape(prefix, c, suffix);
    PlainLabels(c, suffix);
    PlainLabels(other, suffix);
    WildLabels(other, suffix);
    SameTail(Split(Lower(prefix), '.'), Labels(Domain(c, suffix)), ["*"], Labels(Domain(other, suffix)));
    PlainInjective(other, c, suffix);
  }

  /** A cache of gateways answers a query strictly under a domain with the list of that cluster. */
  lemma LookupFindsGateway(suffix: string, controllerNamespace: string, view: View, prefix: string, c: NamespacedName)
    requires Plain(c) && OnlyGateways(suffix, controllerNamespace, view)
    ensures view.Lookup(Lower(prefix + "." + GatewayDomain(c, suffix))) == Under(view.flat, WildName(c, suffix))
  {
    var n := Canonical(Lower(prefix + "." + GatewayDomain(c, suffix)));
    var own := |Split(Lower(prefix), '.')|;
    OwnSuffix(prefix, c, suffix);
    if view.Stored(n) {
      var other := StoredIsGateway(suffix, controllerNamespace, view, n);
      ExactIsOwn(prefix, c, other, suffix);
    } else {
      forall j | 0 < j <= |Labels(n)| && j != own ensures !view.Stored("*." + Wildcards.Suffix(n, j)) {
        if view.Stored("*." + Wildcards.Suffix(n, j)) {
          var other := StoredIsGateway(suffix, controllerNamespace, view, "*." + Wildcards.Suffix(n, j));
          OnlyOwnName(prefix, c, other, suffix, j);
        }
      }
      assert Labels(n)[0..] == Labels(n);
      if view.Stored(WildName(c, suffix)) {
        Wildcards.FirstWildcardAt(view, n, 0, own);
      } else {
        Wildcards.NoWildcard(view, n, 0);
      }
    }
  }

  lemma NoneLeft(list: seq<Entry>, key: string)
    requires ByKey(list, key).None? && forall e | e in list :: e.key == key
    ensures list == []
  {
    ByKeyFound(list, key);
  }

  /** And it answers nothing else: a query with an answer lies under the domain of a plain cluster. */
  lemma OnlyGatewayDomainsAnswer(suffix: string, controllerNamespace: string, view: View, qname: string)
    requires OnlyGateways(suffix, controllerNamespace, view) && view.Lookup(Lower(qname)) != []
    ensures exists c :: Plain(c) && Wildcards.Covers(Domain(c, suffix), Canonical(Lower(qname)))
  {
    var n := Canonical(Lower(qname));
    CanonicalIsFqdn(Lower(qname));
    if view.Stored(n) {
      var c := StoredCovers(suffix, controllerNamespace, view, n);
    } else {
      assert view.FirstWildcard(Labels(n)).Some?;
      var c := WildcardCovers(suffix, controllerNamespace, view, n);
    }
  }

  lemma StoredCovers(suffix: string, controllerNamespace: string, view: View, n: string) returns (c: NamespacedName)
    requires OnlyGateways(suffix, controllerNamespace, view) && view.Stored(n)
    ensures Plain(c) && Wildcards.Covers(Domain(c, suffix), n)
  {
    c := StoredIsGateway(suffix, controllerNamespace, view, n);
    DomainNotEmpty(c, suffix);
    var star := "*";
    assert n == star + "." + Domain(c, suffix);
  }

  lemma WildcardCovers(suffix: string, controllerNamespace: string, view: View, n: string) returns (c: NamespacedName)
    requires OnlyGateways(suffix, controllerNamespace, view) && IsFqdn(n) && view.FirstWildcard(Labels(n)).Some?
    ensures Plain(c) && Wildcards.Covers(Domain(c, suffix), n)
  {
    assert Labels(n)[0..] == Labels(n);
    var i := FoundSuffix(view, n, 0);
    c := StoredIsGateway(suffix, controllerNamespace, view, "*." + Wildcards.Suffix(n, i));
    CancelPrefix("*.", Wildcards.Suffix(n, i), Domain(c, suffix));
    PlainLabels(c, suffix);
    RootSuffix(n);
    Wildcards.SuffixCovers(n, i);
  }

  lemma DomainNotEmpty(c: NamespacedName, suffix: string)
    ensures Domain(c, suffix) != ""
  {
    CanonicalIsFqdn(GatewayDomain(c, suffix));
  }

  /** The wildcard found by the search is over one of the suffixes behind the starting label. */
  lemma {:induction false} FoundSuffix(view: View, n: string, from: nat) returns (i: nat)
    requires from <= |Labels(n)| && view.FirstWildcard(Labels(n)[from..]).Some?
    ensures from < i <= |Labels(n)| && view.Stored("*." + Wildcards.Suffix(n, i))
    decreases |Labels(n)| - from
  {
    var labels := Labels(n);
    assert labels[from..] != [] && labels[from..][1..] == labels[from + 1..];
    assert WildcardOver(labels[from + 1..]) == "*." + Wildcards.Suffix(n, from + 1);
    if view.Stored("*." + Wildcards.Suffix(n, from + 1)) {
      i := from + 1;
    } else {
      i := FoundSuffix(view, n, from + 1);
    }
  }

  /** A list of distinct keys in which only one key occurs. */
  lemma SingleKey(list: seq<Entry>, key: string)
    requires DistinctKeys(list) && forall e | e in list :: e.key == key
    ensures list == match ByKey(list, key) case None => [] case Some(e) => [e]
  {
    if list != [] {
      assert list[0] in list && forall e | e in list[1..] :: e in list;
      NoneLeft(list[1..], key);
    }
  }

  /** The list of a cluster's name is what its slice key reads, if that is for this cluster. */
  lemma GatewayList(suffix: string, controllerNamespace: string, view: View, c: NamespacedName)
    requires Plain(c) && OnlyGateways(suffix, controllerNamespace, view)
    ensures Under(view.flat, WildName(c, suffix)) ==
            match ByKey(view.flat, GatewayKey(controllerNamespace, c))
            case None => []
            case Some(e) => if NameOf(e) == WildName(c, suffix) then [e] else []
  {
    var name, key := WildName(c, suffix), GatewayKey(controllerNamespace, c);
    ByKeyUnder(view.flat, name, key);
    UnderMembers(view.flat, name);
    forall e | e in Under(view.flat, name) ensures e.key == key {
      var other :| CachedFor(other, suffix, controllerNamespace, e);
      assert Domain(other, suffix) == WildName(other, suffix)[2..] == Domain(c, suffix);
      PlainInjective(other, c, suffix);
    }
    SingleKey(Under(view.flat, name), key);
  }

  /** Normal forms parse to themselves. */
  ghost predicate Normaliser(parse: ParseIP) {
    forall a :: parse(a).Some? ==> parse(parse(a).value) == parse(a)
  }

  lemma {:induction false} ParsedStays(parse: ParseIP, addresses: seq<string>)
    requires Normaliser(parse)
    ensures forall i | 0 <= i < |Feeder.Parsed(parse, addresses)| :: parse(Feeder.Parsed(parse, addresses)[i]).Some?
  {
    if addresses != [] {
      ParsedStays(parse, addresses[1..]);
    }
  }

  /** The hosts a slice stands for. */
  function SliceAnswer(parse: ParseIP, s: EndpointSlice): Answer {
    Hosts(ToServices(Feeder.Parsed(parse, Flatten(s.endpoints))))
  }

  /**
   * A cache fed only from generated slices, over any run of changes, reconciles, failed reads and
   * crashes: once the slice key of a plain cluster has been reconciled since its last change, every
   * query strictly under its gateway domain gets exactly the parseable addresses of its slice, or
   * no such name if there is none.
   */
  lemma AnswerFollowsSlice(parse: ParseIP, suffix: string, controllerNamespace: string,
                           store: Store, events: seq<Replica.Event>, c: NamespacedName, prefix: string)
    requires Normaliser(parse) && Plain(c)
    requires OnlyGenerated(suffix, controllerNamespace, store) && GeneratedChanges(suffix, controllerNamespace, events)
    requires GatewayKey(controllerNamespace, c) in Replica.Run(parse, store, events).settled
    ensures var s, key := Replica.Run(parse, store, events), GatewayKey(controllerNamespace, c);
            ServicesOf(s.view, prefix + "." + GatewayDomain(c, suffix)) ==
            if key in s.store && GeneratedFor(c, suffix, controllerNamespace, s.store[key])
            then SliceAnswer(parse, s.store[key]) else NameNotFound
  {
    var s, key := Replica.Run(parse, store, events), GatewayKey(controllerNamespace, c);
    RunOnlyGateways(parse, suffix, controllerNamespace, store, events);
    Replica.RunKeepsInvariant(parse, store, events);
    LookupFindsGateway(suffix, controllerNamespace, s.view, prefix, c);
    GatewayList(suffix, controllerNamespace, s.view, c);
    if key in s.store {
      var slice := s.store[key];
      var other :| GeneratedFor(other, suffix, controllerNamespace, slice);
      var record := Feeder.Record(parse, key, slice);
      WildNameIsCanonical(other, suffix);
      NormaliseKeepsName(parse, record);
      assert ByKey(s.view.flat, key) == Some(Normalise(parse, record));
      if other == c {
        ParsedStays(parse, Flatten(slice.endpoints));
        NormalisedAddresses(parse, record);
      } else {
        NamesDiffer(other, c, suffix);
      }
    }
  }

  lemma NamesDiffer(a: NamespacedName, b: NamespacedName, suffix: string)
    requires Plain(a) && Plain(b) && a != b
    ensures WildName(a, suffix) != WildName(b, suffix)
    ensures "*." + GatewayDomain(a, suffix) != "*." + GatewayDomain(b, suffix)
  {
    WildNameIsCanonical(a, suffix);
    WildNameIsCanonical(b, suffix);
    if WildName(a, suffix) == WildName(b, suffix) {
      assert Domain(a, suffix) == WildName(a, suffix)[2..] == WildName(b, suffix)[2..] == Domain(b, suffix);
      PlainInjective(a, b, suffix);
    }
  }

  lemma NormalisedAddresses(parse: ParseIP, e: Entry)
    requires forall i | 0 <= i < |e.addresses| :: parse(e.addresses[i]).Some?
    ensures DnsCache.Addresses([Normalise(parse, e)]) == e.addresses
  {
    assert Normalise(parse, e).addresses == e.addresses;
    assert [Normalise(parse, e)][1..] == [];
    assert DnsCache.Addresses([]) == [];
  }

  /** The addresses a gateway is published with, as hosts. */
  function GatewayAnswer(parse: ParseIP, g: ClusterGateway): Answer
    requires g.gateway.Some?
  {
    Hosts(ToServices(Feeder.Parsed(parse, IPs(g.gateway.value.ingress))))
  }

  /** The hosts are the normal forms of the ingress IPs that parse, and each lives thirty seconds. */
  lemma GatewayHosts(parse: ParseIP, g: ClusterGateway, host: string)
    requires g.gateway.Some?
    ensures var services := GatewayAnswer(parse, g).services;
            && (forall i | 0 <= i < |services| :: services[i].ttl == 30)
            && ((exists i :: 0 <= i < |services| && services[i].host == host) <==>
                (exists i :: 0 <= i < |g.gateway.value.ingress| && parse(g.gateway.value.ingress[i].ip) == Some(host)))
  {
    var parsed, services := Feeder.Parsed(parse, IPs(g.gateway.value.ingress)), GatewayAnswer(parse, g).services;
    ParsedIngress(parse, g.gateway.value.ingress, host);
    forall j | 0 <= j < |services| ensures services[j].host == parsed[j] && services[j].host in parsed {
      assert parsed[j] in parsed;
    }
    if host in parsed {
      var j :| 0 <= j < |parsed| && parsed[j] == host;
      assert services[j].host == host;
    }
  }

  lemma ParsedIngress(parse: ParseIP, ingress: seq<Ingress>, host: string)
    ensures host in Feeder.Parsed(parse, IPs(ingress)) <==>
            exists i :: 0 <= i < |ingress| && parse(ingress[i].ip) == Some(host)
  {
    var addresses := IPs(ingress);
    Feeder.ParsedMembers(parse, addresses, host);
    if host in Feeder.Parsed(parse, addresses) {
      var i :| 0 <= i < |addresses| && parse(addresses[i]) == Some(host);
      assert ingress[i].ip == addresses[i];
    }
    if i :| 0 <= i < |ingress| && parse(ingress[i].ip) == Some(host) {
      assert addresses[i] == ingress[i].ip && addresses[i] in addresses;
    }
  }

  /** When every ingress IP parses, the hosts are theirs, one by one and in order. */
  lemma GatewayHostsInOrder(parse: ParseIP, g: ClusterGateway)
    requires g.gateway.Some? && forall i | 0 <= i < |g.gateway.value.ingress| :: parse(g.gateway.value.ingress[i].ip).Some?
    ensures var services, ingress := GatewayAnswer(parse, g).services, g.gateway.value.ingress;
            && |services| == |ingress|
            && forall i | 0 <= i < |ingress| :: parse(ingress[i].ip) == Some(services[i].host)
  {
    Feeder.ParsedInPlace(parse, IPs(g.gateway.value.ingress));
  }

  /**
   * End to end. A workload cluster was converged without error for gateways collected from distinct
   * clusters of one namespace, and its DNS server has seen only generated slices and has caught up
   * with the slice of cluster c. Then any name strictly under the gateway domain of c resolves to
   * exactly the parseable load-balancer addresses of c, in order; and if c has no gateway and
   * the slice under its key, if any, was owned, to nothing.
   */
  lemma EndToEnd(parse: ParseIP, suffix: string, controllerNamespace: string, gatewayDNS: NamespacedName,
                 gateways: seq<ClusterGateway>, original: Store, store: Store, events: seq<Replica.Event>,
                 c: NamespacedName, prefix: string)
    requires Normaliser(parse) && Plain(c) && Free('/', controllerNamespace)
    requires WellCollected(gateways, suffix, controllerNamespace, gatewayDNS) && DistinctClusters(gateways)
    requires forall i | 0 <= i < |gateways| :: gateways[i].cluster.namespace == c.namespace
    requires OnlyGenerated(suffix, controllerNamespace, store) && GeneratedChanges(suffix, controllerNamespace, events)
    requires var w := ClusterReconciler.WishOf(gatewayDNS, controllerNamespace, gateways);
             w.Valid() && WellKeyed(original) && Replica.Run(parse, store, events).store == w.Converged(original)
    requires GatewayKey(controllerNamespace, c) in Replica.Run(parse, store, events).settled
    ensures var answer := ServicesOf(Replica.Run(parse, store, events).view, prefix + "." + GatewayDomain(c, suffix));
            && (forall i | 0 <= i < |gateways| && gateways[i].cluster == c && !gateways[i].unreachable ::
                  answer == GatewayAnswer(parse, gateways[i]))
            && ((forall i | 0 <= i < |gateways| :: gateways[i].cluster != c)
                && (GatewayKey(controllerNamespace, c) in original ==>
                      GatewayWish(gatewayDNS, controllerNamespace, gateways).Owns(original[GatewayKey(controllerNamespace, c)]))
                ==> answer == NameNotFound)
  {
    var w, key := GatewayWish(gatewayDNS, controllerNamespace, gateways), GatewayKey(controllerNamespace, c);
    var s := Replica.Run(parse, store, events);
    AnswerFollowsSlice(parse, suffix, controllerNamespace, store, events, c, prefix);
    NoGatewayLost(gateways, controllerNamespace, c.namespace);
    assert Get(s.store, key) == w.Target(key, Get(original, key));
    forall i | 0 <= i < |gateways| && gateways[i].cluster == c && !gateways[i].unreachable
      ensures key in s.store && GeneratedFor(c, suffix, controllerNamespace, s.store[key])
      ensures SliceAnswer(parse, s.store[key]) == GatewayAnswer(parse, gateways[i])
    {
      var g := gateways[i];
      assert EndpointSliceKey(g) == key && w.desired[key] == g;
      ConvergedHostname(w, original, key);
      FlattenOne(IPs(g.gateway.value.ingress));
      if key in original {
        SameNamespace(w, original, key);
      }
    }
    if (forall i | 0 <= i < |gateways| :: gateways[i].cluster != c) && (key in original ==> w.Owns(original[key])) {
      DesiredMapSound(gateways);
      if key in w.desired {
        KeysInjective(controllerNamespace, w.desired[key].cluster, c);
      }
    }
  }

  ghost function GatewayWish(gatewayDNS: NamespacedName, namespace: string, gateways: seq<ClusterGateway>): Wish {
    ClusterReconciler.WishOf(gatewayDNS, namespace, gateways)
  }

  lemma ConvergedHostname(w: Wish, original: Store, k: string)
    requires w.Valid() && w.Reachable(k)
    ensures var s := w.Target(k, Get(original, k)).value;
            && DNS_HOSTNAME in s.annotations && s.annotations[DNS_HOSTNAME] == Annotation(Desired(w.desired[k]), DNS_HOSTNAME)
            && s.addressType.IPv4? && s.endpoints == Desired(w.desired[k]).endpoints
            && Annotation(Desired(w.desired[k]), DNS_HOSTNAME) == "*." + GatewayDomain(w.desired[k].cluster, w.desired[k].domainSuffix)
  {
    AnnotationKeysDiffer();
  }

  lemma FlattenOne(addresses: seq<string>)
    ensures Flatten([Endpoint(addresses, "")]) == addresses
  {
    assert [Endpoint(addresses, "")][1..] == [];
  }
}
