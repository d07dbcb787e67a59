// The clusters as their API servers show them: every call is one step, and any call may fail.
module Fleet {
  import opened Text
  import opened Slices
  import opened Gateways

  /** How a call goes: answered, lost on the way, or carried out with its answer lost. */
  datatype Fault = Healthy | RequestLost | AnswerLost

  datatype Reply = Ok | AlreadyExists | NotFound | Error

  class Api {
    const faults: nat -> Fault
    const services: map<NamespacedName, map<NamespacedName, Service>>
    const namespaces: map<NamespacedName, set<string>>
    var clock: nat
    var writes: nat
    var stores: map<NamespacedName, Store>

    constructor (faults: nat -> Fault, stores: map<NamespacedName, Store>,
                 services: map<NamespacedName, map<NamespacedName, Service>>, namespaces: map<NamespacedName, set<string>>)
      ensures this.faults == faults && this.stores == stores && this.services == services && this.namespaces == namespaces
      ensures clock == 0 && writes == 0
    {
      this.faults, this.stores, this.services, this.namespaces := faults, stores, services, namespaces;
      clock, writes := 0, 0;
    }

    /** The calls numbered from `from` up to `to` all go well. */
    ghost predicate Calm(from: nat, to: nat) {
      forall n: nat | from <= n < to :: faults(n).Healthy?
    }

    method Call() returns (fault: Fault)
      modifies this`clock
      ensures clock == old(clock) + 1 && fault == faults(old(clock))
    {
      fault := faults(clock);
      clock := clock + 1;
    }

    /** Whether a client for the cluster can be had. */
    method GetClient(cluster: NamespacedName) returns (ok: bool)
      modifies this`clock
      ensures clock == old(clock) + 1
      ensures ok ==> cluster in stores
      ensures Calm(old(clock), clock) && cluster in stores ==> ok
    {
      var fault := Call();
      ok := fault.Healthy? && cluster in stores;
    }

    method GetNamespace(cluster: NamespacedName, namespace: string) returns (reply: Reply)
      modifies this`clock
      ensures clock == old(clock) + 1
      ensures reply.Ok? ==> cluster in namespaces && namespace in namespaces[cluster]
      ensures reply.NotFound? ==> !(cluster in namespaces && namespace in namespaces[cluster])
      ensures !reply.AlreadyExists? && (Calm(old(clock), clock) ==> !reply.Error?)
    {
      var fault := Call();
      reply := if !fault.Healthy? then Error
               else if cluster in namespaces && namespace in namespaces[cluster] then Ok else NotFound;
    }

    method GetService(cluster: NamespacedName, name: NamespacedName) returns (reply: Reply, service: Option<Service>)
      modifies this`clock
      ensures clock == old(clock) + 1
      ensures reply.Ok? <==> service.Some?
      ensures reply.Ok? ==> cluster in services && name in services[cluster] && services[cluster][name] == service.value
      ensures reply.NotFound? ==> !(cluster in services && name in services[cluster])
      ensures !reply.AlreadyExists? && (Calm(old(clock), clock) ==> !reply.Error?)
    {
      var fault := Call();
      if !fault.Healthy? {
        return Error, None;
      } else if cluster in services && name in services[cluster] {
        return Ok, Some(services[cluster][name]);
      } else {
        return NotFound, None;
      }
    }

    /** The slices of one namespace, in no particular order. */
    method List(cluster: NamespacedName, namespace: string) returns (ok: bool, items: seq<EndpointSlice>)
      requires cluster in stores && WellKeyed(stores[cluster])
      modifies this`clock
      ensures clock == old(clock) + 1
      ensures Calm(old(clock), clock) ==> ok
      ensures forall s | s in items :: s.namespace == namespace && Get(stores[cluster], SliceKey(s)) == Some(s)
      ensures ok ==> forall k | k in stores[cluster] && stores[cluster][k].namespace == namespace :: stores[cluster][k] in items
    {
      var fault := Call();
      items := [];
      if !fault.Healthy? {
        return false, items;
      }
      var rest := stores[cluster].Keys;
      while rest != {}
        invariant rest <= stores[cluster].Keys
        invariant clock == old(clock) + 1
        invariant forall s | s in items :: s.namespace == namespace && Get(stores[cluster], SliceKey(s)) == Some(s)
        invariant forall k | k in stores[cluster].Keys - rest && stores[cluster][k].namespace == namespace ::
                    stores[cluster][k] in items
        decreases rest
      {
        var k :| k in rest;
        if stores[cluster][k].namespace == namespace {
          items := items + [stores[cluster][k]];
        }
        rest := rest - {k};
      }
      return true, items;
    }

    method GetSlice(cluster: NamespacedName, key: string) returns (reply: Reply, slice: Option<EndpointSlice>)
      requires cluster in stores
      modifies this`clock
      ensures clock == old(clock) + 1
      ensures reply.Ok? <==> slice.Some?
      ensures reply.Ok? ==> Get(stores[cluster], key) == slice
      ensures reply.NotFound? ==> key !in stores[cluster]
      ensures !reply.AlreadyExists? && (Calm(old(clock), clock) ==> !reply.Error?)
    {
      var fault := Call();
      if !fault.Healthy? {
        return Error, None;
      } else if key in stores[cluster] {
        return Ok, Some(stores[cluster][key]);
      } else {
        return NotFound, None;
      }
    }

    /** The new store of a cluster, or the old one when the request was lost. */
    method Write(cluster: NamespacedName, after: Store) returns (reply: Reply)
      requires cluster in stores
      modifies this`clock, this`stores
      ensures clock == old(clock) + 1
      ensures reply.Ok? ==> stores == old(stores)[cluster := after]
      ensures reply.Error? ==> stores == old(stores) || stores == old(stores)[cluster := after]
      ensures reply.Ok? || reply.Error?
      ensures Calm(old(clock), clock) ==> reply.Ok?
    {
      var fault := Call();
      if !fault.RequestLost? {
        stores := stores[cluster := after];
      }
      reply := if fault.Healthy? then Ok else Error;
    }

    method Create(cluster: NamespacedName, slice: EndpointSlice) returns (reply: Reply)
      requires cluster in stores
      modifies this
      ensures clock == old(clock) + 1 && writes == old(writes) + 1
      ensures var key, store := SliceKey(slice), old(stores)[cluster];
              && (reply.Ok? ==> key !in store && stores == old(stores)[cluster := store[key := slice]])
              && (reply.AlreadyExists? ==> key in store && stores == old(stores))
              && (reply.Error? ==> stores == old(stores)
                                   || (key !in store && stores == old(stores)[cluster := store[key := slice]]))
      ensures !reply.NotFound? && (Calm(old(clock), clock) ==> !reply.Error?)
    {
      writes := writes + 1;
      if SliceKey(slice) in stores[cluster] {
        var fault := Call();
        reply := if fault.Healthy? then AlreadyExists else Error;
      } else {
        reply := Write(cluster, stores[cluster][SliceKey(slice) := slice]);
      }
    }

    method Update(cluster: NamespacedName, slice: EndpointSlice) returns (reply: Reply)
      requires cluster in stores
      modifies this
      ensures clock == old(clock) + 1 && writes == old(writes) + 1
      ensures var key, store := SliceKey(slice), old(stores)[cluster];
              && (reply.Ok? ==> key in store && stores == old(stores)[cluster := store[key := slice]])
              && (reply.NotFound? ==> key !in store && stores == old(stores))
              && (reply.Error? ==> stores == old(stores)
                                   || (key in store && stores == old(stores)[cluster := store[key := slice]]))
      ensures !reply.AlreadyExists? && (Calm(old(clock), clock) ==> !reply.Error?)
    {
      writes := writes + 1;
      if SliceKey(slice) !in stores[cluster] {
        var fault := Call();
        reply := if fault.Healthy? then NotFound else Error;
      } else {
        reply := Write(cluster, stores[cluster][SliceKey(slice) := slice]);
      }
    }

    method Delete(cluster: NamespacedName, slice: EndpointSlice) returns (reply: Reply)
      requires cluster in stores
      modifies this
      ensures clock == old(clock) + 1 && writes == old(writes) + 1
      ensures var key, store := SliceKey(slice), old(stores)[cluster];
              && (reply.Ok? ==> key in store && stores == old(stores)[cluster := store - {key}])
              && (reply.NotFound? ==> key !in store && stores == old(stores))
              && (reply.Error? ==> stores == old(stores)
                                   || (key in store && stores == old(stores)[cluster := store - {key}]))
      ensures !reply.AlreadyExists? && (Calm(old(clock), clock) ==> !reply.Error?)
    {
      writes := writes + 1;
      if SliceKey(slice) !in stores[cluster] {
        var fault := Call();
        reply := if fault.Healthy? then NotFound else Error;
      } else {
        reply := Write(cluster, stores[cluster] - {SliceKey(slice)});
      }
    }
  }
}
