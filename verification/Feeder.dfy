// The reconciler that copies one EndpointSlice at a time into the DNS cache.
module Feeder {
  import opened Text
  import opened Names
  import opened Slices
  import opened CacheView
  import DnsCache

  /** What reading the slice of a request gives. */
  datatype Reply = Found(slice: EndpointSlice) | NotFound | Unavailable

  /** `Crashed` is the nil dereference on a deleted slice that was never cached. */
  datatype Outcome = Skipped | Synced(valid: bool) | Removed | Failed | Crashed

  /** The addresses that parse, in normal form. */
  function Parsed(parse: ParseIP, addresses: seq<string>): seq<string> {
    if addresses == [] then []
    else if parse(addresses[0]).Some? then [parse(addresses[0]).value] + Parsed(parse, addresses[1..])
    else Parsed(parse, addresses[1..])
  }

  lemma {:induction false} ParsedAppend(parse: ParseIP, addresses: seq<string>, a: string)
    ensures Parsed(parse, addresses + [a]) ==
            Parsed(parse, addresses) + if parse(a).Some? then [parse(a).value] else []
  {
    if addresses == [] {
      assert addresses + [a] == [a];
    } else {
      assert (addresses + [a])[1..] == addresses[1..] + [a];
      ParsedAppend(parse, addresses[1..], a);
    }
  }

  /** A slice without a hostname, or of a type that is neither IPv4 nor FQDN. */
  predicate Ignored(s: EndpointSlice) {
    DNS_HOSTNAME !in s.annotations || s.addressType.Other?
  }

  /** The entry a slice stands for. */
  function Record(parse: ParseIP, key: string, s: EndpointSlice): Entry
    requires !Ignored(s)
  {
    var all := Flatten(s.endpoints);
    Entry(key, s.annotations[DNS_HOSTNAME], if s.addressType.IPv4? then Parsed(parse, all) else all)
  }

  /** The cache after a reconcile. */
  function Fed(parse: ParseIP, view: View, key: string, reply: Reply): View {
    match reply
    case Found(s) => if Ignored(s) then view else view.Upsert(parse, Record(parse, key, s))
    case NotFound => view.DeleteByKey(key)
    case Unavailable => view
  }

  /** An address of an FQDN slice is kept if it is an IP and made canonical if it is a name. */
  ghost predicate StoredAddress(parse: ParseIP, given: string, stored: string) {
    stored == if parse(given).Some? then given else Canonical(given)
  }

  /** A slice with a hostname and a handled type is cached under the hostname, with all its addresses. */
  lemma SliceIsCached(parse: ParseIP, view: View, key: string, s: EndpointSlice)
    requires view.Valid() && DNS_HOSTNAME in s.annotations && (s.addressType == IPv4 || s.addressType == FQDN)
    ensures var cached, given := ByKey(Fed(parse, view, key, Found(s)).flat, key), Flatten(s.endpoints);
            && cached.Some? && cached.value.key == key && NameOf(cached.value) == Canonical(s.annotations[DNS_HOSTNAME])
            && (s.addressType == FQDN ==>
                  && |cached.value.addresses| == |given|
                  && forall i | 0 <= i < |given| :: StoredAddress(parse, given[i], cached.value.addresses[i]))
            && (s.addressType == IPv4 ==>
                  && |cached.value.addresses| == |Parsed(parse, given)|
                  && forall i | 0 <= i < |Parsed(parse, given)| ::
                       StoredAddress(parse, Parsed(parse, given)[i], cached.value.addresses[i]))
  {
    var record := Record(parse, key, s);
    DnsCache.UpsertLaws(parse, view, record, "", key);
    NormaliseKeepsName(parse, record);
  }

  /** The addresses of an IPv4 slice are the normal forms of those that parse, and no others. */
  lemma {:induction false} ParsedMembers(parse: ParseIP, addresses: seq<string>, ip: string)
    ensures ip in Parsed(parse, addresses) <==> exists a :: a in addresses && parse(a) == Some(ip)
  {
    if addresses != [] {
      ParsedMembers(parse, addresses[1..], ip);
      assert addresses == [addresses[0]] + addresses[1..];
    }
  }

  /** If all addresses parse, each has its own place. */
  lemma {:induction false} ParsedInPlace(parse: ParseIP, addresses: seq<string>)
    requires forall a | a in addresses :: parse(a).Some?
    ensures |Parsed(parse, addresses)| == |addresses|
    ensures forall i | 0 <= i < |addresses| :: parse(addresses[i]) == Some(Parsed(parse, addresses)[i])
  {
    if addresses != [] {
      ParsedInPlace(parse, addresses[1..]);
    }
  }

  /** Any other slice leaves the cache as it was. */
  lemma OtherSlicesChangeNothing(parse: ParseIP, view: View, key: string, s: EndpointSlice)
    requires DNS_HOSTNAME !in s.annotations || (s.addressType != IPv4 && s.addressType != FQDN)
    ensures Fed(parse, view, key, Found(s)) == view
  {}

  class EndpointSliceReconciler {
    const recordsCache: DnsCache.DNSCache

    constructor (recordsCache: DnsCache.DNSCache)
      ensures this.recordsCache == recordsCache
    {
      this.recordsCache := recordsCache;
    }

    method Reconcile(key: string, reply: Reply) returns (outcome: Outcome)
      requires recordsCache.Valid()
      modifies recordsCache
      ensures recordsCache.Valid()
      ensures recordsCache.view == Fed(recordsCache.parseIP, old(recordsCache.view), key, reply)
      ensures outcome.Failed? <==> reply.Unavailable?
      ensures outcome.Crashed? <==> reply.NotFound? && ByKey(old(recordsCache.view).flat, key).None?
      ensures outcome.Removed? <==> reply.NotFound? && ByKey(old(recordsCache.view).flat, key).Some?
      ensures outcome.Skipped? <==>
                reply.Found? && (DNS_HOSTNAME !in reply.slice.annotations
                                 || (reply.slice.addressType != IPv4 && reply.slice.addressType != FQDN))
      ensures outcome.Synced? ==>
                (outcome.valid <==> DnsCache.ValidAnswer(recordsCache.parseIP,
                                                         recordsCache.view.Lookup(reply.slice.annotations[DNS_HOSTNAME])))
    {
      if reply.NotFound? {
        var entry := recordsCache.LookupByResourceKey(key);
        recordsCache.DeleteByResourceKey(key);
        return if entry.None? then Crashed else Removed;
      } else if reply.Unavailable? {
        return Failed;
      }
      var slice := reply.slice;
      if DNS_HOSTNAME !in slice.annotations {
        return Skipped;
      }
      var fqdn := slice.annotations[DNS_HOSTNAME];
      var addresses := [];
      if slice.addressType.IPv4? {
        addresses := IPv4Addresses(slice.endpoints);
      } else if slice.addressType.FQDN? {
        addresses := FQDNAddresses(slice.endpoints);
      } else {
        return Skipped;
      }
      recordsCache.Upsert(Entry(key, fqdn, addresses));
      var valid := recordsCache.IsValid(fqdn);
      return Synced(valid);
    }

    method FQDNAddresses(endpoints: seq<Endpoint>) returns (addresses: seq<string>)
      ensures addresses == Flatten(endpoints)
    {
      addresses := [];
      for i := 0 to |endpoints|
        invariant addresses == Flatten(endpoints[..i])
      {
        addresses := addresses + endpoints[i].addresses;
        FlattenAppend(endpoints[..i], endpoints[i]);
        assert endpoints[..i + 1] == endpoints[..i] + [endpoints[i]];
      }
      assert endpoints[..|endpoints|] == endpoints;
    }

    method IPv4Addresses(endpoints: seq<Endpoint>) returns (addresses: seq<string>)
      ensures addresses == Parsed(recordsCache.parseIP, Flatten(endpoints))
    {
      addresses := [];
      ghost var parse := recordsCache.parseIP;
      for i := 0 to |endpoints|
        invariant addresses == Parsed(parse, Flatten(endpoints[..i]))
      {
        var list := endpoints[i].addresses;
        ghost var before := Flatten(endpoints[..i]);
        assert before + list[..0] == before;
        for j := 0 to |list|
          invariant addresses == Parsed(parse, before + list[..j])
        {
          var ip := recordsCache.parseIP(list[j]);
          if ip.Some? {
            addresses := addresses + [ip.value];
          }
          ParsedAppend(parse, before + list[..j], list[j]);
          assert before + list[..j + 1] == before + list[..j] + [list[j]];
        }
        assert list[..|list|] == list;
        FlattenAppend(endpoints[..i], endpoints[i]);
        assert endpoints[..i + 1] == endpoints[..i] + [endpoints[i]];
      }
      assert endpoints[..|endpoints|] == endpoints;
    }
  }
}
