// The Kubernetes objects both controllers exchange.
module Slices {
  import opened Text

  datatype NamespacedName = NamespacedName(namespace: string, name: string) {
    function String(): string {
      namespace + "/" + name
    }
  }

  const DNS_HOSTNAME := "connectivity.tanzu.vmware.com/dns-hostname"
  const GATEWAY_DNS_REF := "connectivity.tanzu.vmware.com/gateway-dns-ref"

  datatype AddressType = IPv4 | FQDN | Other(name: string)

  /** `rest` stands for every other field of an endpoint. */
  datatype Endpoint = Endpoint(addresses: seq<string>, rest: string)

  datatype Port = Port(name: string, number: int)

  datatype EndpointSlice = EndpointSlice(
    namespace: string,
    name: string,
    annotations: map<string, string>,
    labels: map<string, string>,
    addressType: AddressType,
    endpoints: seq<Endpoint>,
    ports: seq<Port>)

  /** The text a slice is known by: EndpointSliceKey, and String of a reconcile request. */
  function SliceKey(s: EndpointSlice): string {
    s.namespace + "/" + s.name
  }

  /** The slices of one cluster, by key. */
  type Store = map<string, EndpointSlice>

  function Get(store: Store, key: string): Option<EndpointSlice> {
    if key in store then Some(store[key]) else None
  }

  /** Every slice sits under its own key, in a namespace that is a legal one. */
  ghost predicate WellKeyed(store: Store) {
    forall k | k in store :: SliceKey(store[k]) == k && Free('/', store[k].namespace)
  }

  /** Indexing a Go map: the zero value when the key is missing. */
  function Annotation(s: EndpointSlice, key: string): string {
    if key in s.annotations then s.annotations[key] else ""
  }

  /** Namespaces hold no slash, so the text of a key determines the object. */
  lemma KeyTextInjective(a: NamespacedName, b: NamespacedName)
    requires Free('/', a.namespace) && Free('/', b.namespace)
    requires a.String() == b.String()
    ensures a == b
  {
    if |a.namespace| < |b.namespace| {
      SlashInside(b, a);
    } else if |b.namespace| < |a.namespace| {
      SlashInside(a, b);
    } else {
      assert a.namespace == a.String()[..|a.namespace|] == b.namespace;
      assert a.name == a.String()[|a.namespace| + 1..] == b.name;
    }
  }

  lemma SlashInside(longer: NamespacedName, shorter: NamespacedName)
    requires longer.String() == shorter.String() && |shorter.namespace| < |longer.namespace|
    ensures '/' in longer.namespace
  {
    assert longer.namespace[|shorter.namespace|] == shorter.String()[|shorter.namespace|] == '/';
  }

  function Flatten(endpoints: seq<Endpoint>): seq<string> {
    if endpoints == [] then [] else endpoints[0].addresses + Flatten(endpoints[1..])
  }

  lemma {:induction false} FlattenAppend(endpoints: seq<Endpoint>, e: Endpoint)
    ensures Flatten(endpoints + [e]) == Flatten(endpoints) + e.addresses
  {
    if endpoints != [] {
      assert (endpoints + [e])[1..] == endpoints[1..] + [e];
      FlattenAppend(endpoints[1..], e);
    }
  }
}
