// The DNS plugin's answer to a query.
module CrossCluster {
  import opened Text
  import opened Names
  import opened CacheView
  import DnsCache

  datatype Service = Service(host: string, ttl: nat)

  datatype Answer = NameNotFound | Hosts(services: seq<Service>)

  const TTL := 30

  function ToServices(addresses: seq<string>): seq<Service> {
    seq(|addresses|, i requires 0 <= i < |addresses| => Service(addresses[i], TTL))
  }

  /** One service for each address, in order, to live thirty seconds. */
  predicate InOrder(addresses: seq<string>, services: seq<Service>) {
    |services| == |addresses| && forall i | 0 <= i < |addresses| :: services[i] == Service(addresses[i], 30)
  }

  lemma InOrderIsAll(addresses: seq<string>, services: seq<Service>)
    requires InOrder(addresses, services)
    ensures services == ToServices(addresses)
  {}

  /** The answer of a cache to a query. */
  function ServicesOf(view: View, qname: string): Answer {
    var list := view.Lookup(Lower(qname));
    if list == [] then NameNotFound else Hosts(ToServices(DnsCache.Addresses(list)))
  }

  class CrossCluster {
    const recordsCache: DnsCache.DNSCache

    constructor (recordsCache: DnsCache.DNSCache)
      ensures this.recordsCache == recordsCache
    {
      this.recordsCache := recordsCache;
    }

    method Services(qname: string) returns (answer: Answer)
      requires recordsCache.Valid()
      ensures answer == ServicesOf(recordsCache.view, qname)
      ensures answer.NameNotFound? <==> recordsCache.view.Lookup(Lower(qname)) == []
      ensures answer.Hosts? ==>
                InOrder(DnsCache.Addresses(recordsCache.view.Lookup(Lower(qname))), answer.services)
    {
      var cacheEntries := recordsCache.Lookup(Lower(qname));
      if |cacheEntries| == 0 {
        return NameNotFound;
      }
      var services := [];
      for i := 0 to |cacheEntries|
        invariant InOrder(DnsCache.Seen(cacheEntries, i, 0), services)
      {
        for j := 0 to |cacheEntries[i].addresses|
          invariant InOrder(DnsCache.Seen(cacheEntries, i, j), services)
        {
          DnsCache.SeenNext(cacheEntries, i, j);
          services := services + [Service(cacheEntries[i].addresses[j], TTL)];
        }
        DnsCache.SeenEntry(cacheEntries, i);
      }
      assert cacheEntries[..|cacheEntries|] == cacheEntries;
      InOrderIsAll(DnsCache.Addresses(cacheEntries), services);
      return Hosts(services);
    }
  }
}
