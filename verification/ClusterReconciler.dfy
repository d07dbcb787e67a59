// The converge pass over clusters, proved against the per-key function of Convergence.
module ClusterReconciler {
  import opened Text
  import opened Slices
  import opened Gateways
  import opened Convergence
  import opened Diff
  import Fleet

  datatype ClusterError = NoClient | NamespaceUnreadable | NotConverged

  /** What became of one cluster in a pass over all of them. */
  datatype ClusterResult = Converged | NoNamespace | Failed

  /** The wish of one GatewayDNS for a gateway list. */
  ghost function WishOf(gatewayDNS: NamespacedName, namespace: string, gs: seq<ClusterGateway>): Wish {
    Wish(gatewayDNS.String(), namespace, DesiredMap(gs))
  }

  class EndpointSliceReconciler {
    const api: Fleet.Api
    const namespace: string

    constructor (api: Fleet.Api, namespace: string)
      ensures this.api == api && this.namespace == namespace
    {
      this.api, this.namespace := api, namespace;
    }

    /** The slices on the cluster that carry a hostname and this reference, by key. */
    method ListExisting(gatewayDNS: NamespacedName, cluster: NamespacedName, ghost w: Wish)
      returns (ok: bool, existing: Store)
      requires cluster in api.stores && WellKeyed(api.stores[cluster])
      requires w.ref == gatewayDNS.String() && w.namespace == namespace
      modifies api`clock
      ensures api.clock >= old(api.clock) && (api.Calm(old(api.clock), api.clock) ==> ok)
      ensures ok ==> existing == Existing(w, api.stores[cluster])
    {
      var items;
      ok, items := api.List(cluster, namespace);
      existing := map[];
      if !ok {
        return;
      }
      ghost var store := api.stores[cluster];
      for i := 0 to |items|
        invariant api.clock >= old(api.clock)
        invariant forall k | k in existing :: k in store && w.Owns(store[k]) && existing[k] == store[k]
        invariant forall j | 0 <= j < i :: w.Owns(items[j]) ==> SliceKey(items[j]) in existing
      {
        var item := items[i];
        assert Get(store, SliceKey(item)) == Some(item);
        if DNS_HOSTNAME in item.annotations
           && GATEWAY_DNS_REF in item.annotations && item.annotations[GATEWAY_DNS_REF] == gatewayDNS.String()
        {
          existing := existing[SliceKey(item) := item];
        }
      }
      forall k | k in store && w.Owns(store[k]) ensures k in existing {
        assert store[k] in items;
      }
    }

    /** Sorts desired gateways and existing slices into three lists, visiting both maps in any order. */
    method DiffCluster(gatewayDNS: NamespacedName, cluster: NamespacedName, gateways: seq<ClusterGateway>, ghost w: Wish)
      returns (ok: bool, diff: ClusterDiff)
      requires cluster in api.stores && WellKeyed(api.stores[cluster])
      requires w == WishOf(gatewayDNS, namespace, gateways) && w.Valid()
      modifies api`clock
      ensures api.clock >= old(api.clock) && (api.Calm(old(api.clock), api.clock) ==> ok)
      ensures ok ==> IsDiff(w, api.stores[cluster], diff)
    {
      diff := ClusterDiff([], [], []);
      var existing;
      ok, existing := ListExisting(gatewayDNS, cluster, w);
      if !ok {
        return;
      }
      var desired := BuildDesiredMap(gateways);
      var missing, changed := DiffDesired(desired, existing, w, api.stores[cluster]);
      var undesired := DiffExisting(desired, existing, w, api.stores[cluster]);
      diff := ClusterDiff(undesired, missing, changed);
    }

    static method BuildDesiredMap(gateways: seq<ClusterGateway>) returns (desired: map<string, ClusterGateway>)
      ensures desired == DesiredMap(gateways)
    {
      desired := map[];
      for i := 0 to |gateways|
        invariant desired == DesiredMap(gateways[..i])
      {
        desired := desired[EndpointSliceKey(gateways[i]) := gateways[i]];
        assert gateways[..i + 1][..i] == gateways[..i];
      }
      assert gateways[..|gateways|] == gateways;
    }

    static method DiffDesired(desired: map<string, ClusterGateway>, existing: Store, ghost w: Wish, ghost store: Store)
      returns (missing: seq<EndpointSlice>, changed: seq<EndpointSlice>)
      requires w.Valid() && w.desired == desired && existing == Existing(w, store) && WellKeyed(store)
      ensures Enumerates(missing, Missing(w, store), desired.Keys)
      ensures Enumerates(changed, Changed(w, store), desired.Keys)
    {
      missing, changed := [], [];
      var rest := desired.Keys;
      ghost var seen: set<string> := {};
      while rest != {}
        invariant rest !! seen && rest + seen == desired.Keys
        invariant Enumerates(missing, Missing(w, store), seen)
        invariant Enumerates(changed, Changed(w, store), seen)
        decreases rest
      {
        var k :| k in rest;
        var gateway := desired[k];
        if gateway.unreachable {
          EnumerateSkip(missing, Missing(w, store), seen, k);
          EnumerateSkip(changed, Changed(w, store), seen, k);
        } else {
          var slice := ToEndpointSlice(gateway);
          if k in existing {
            EnumerateSkip(missing, Missing(w, store), seen, k);
            if !Same(slice, existing[k]) {
              EnumerateAdd(changed, Changed(w, store), seen, k);
              changed := changed + [Merge(slice, existing[k])];
            } else {
              EnumerateSkip(changed, Changed(w, store), seen, k);
            }
          } else {
            EnumerateSkip(changed, Changed(w, store), seen, k);
            EnumerateAdd(missing, Missing(w, store), seen, k);
            missing := missing + [slice];
          }
        }
        rest, seen := rest - {k}, seen + {k};
      }
      assert seen == desired.Keys;
    }

    static method DiffExisting(desired: map<string, ClusterGateway>, existing: Store, ghost w: Wish, ghost store: Store)
      returns (undesired: seq<EndpointSlice>)
      requires w.desired == desired && existing == Existing(w, store) && WellKeyed(store)
      ensures Enumerates(undesired, Undesired(w, store), existing.Keys)
    {
      undesired := [];
      var rest := existing.Keys;
      ghost var seen: set<string> := {};
      while rest != {}
        invariant rest !! seen && rest + seen == existing.Keys
        invariant Enumerates(undesired, Undesired(w, store), seen)
        decreases rest
      {
        var k :| k in rest;
        if SliceKey(existing[k]) !in desired {
          EnumerateAdd(undesired, Undesired(w, store), seen, k);
          undesired := undesired + [existing[k]];
        } else {
          EnumerateSkip(undesired, Undesired(w, store), seen, k);
        }
        rest, seen := rest - {k}, seen + {k};
      }
      assert seen == existing.Keys;
    }

    /** Creates a missing slice, or takes over the one that is already there. */
    method CreateOne(cluster: NamespacedName, slice: EndpointSlice, ghost w: Wish, ghost store: Store, ghost done: set<string>)
      returns (failed: bool)
      requires cluster in api.stores && w.Valid() && WellKeyed(store)
      requires Progress(w, store, api.stores[cluster], done)
      requires SliceKey(slice) !in done && Get(Missing(w, store), SliceKey(slice)) == Some(slice)
      modifies api
      ensures Moved(old(api.stores), api.stores, cluster) && api.clock >= old(api.clock) && api.writes > old(api.writes)
      ensures w.Between(store, api.stores[cluster])
      ensures !failed ==> Progress(w, store, api.stores[cluster], done + {SliceKey(slice)})
      ensures api.Calm(old(api.clock), api.clock) ==> !failed
    {
      ghost var now, k := api.stores[cluster], SliceKey(slice);
      assert Get(now, k) == Get(store, k);
      var reply := api.Create(cluster, slice);
      if reply.AlreadyExists? {
        failed := TakeOver(cluster, slice, w, store, done);
      } else {
        StepIsBetween(w, store, now, done, k, api.stores[cluster]);
        failed := !reply.Ok?;
      }
    }

    /** Merges a missing slice into the one another owner left under its key. */
    method TakeOver(cluster: NamespacedName, slice: EndpointSlice, ghost w: Wish, ghost store: Store, ghost done: set<string>)
      returns (failed: bool)
      requires cluster in api.stores && w.Valid() && WellKeyed(store)
      requires Progress(w, store, api.stores[cluster], done)
      requires SliceKey(slice) !in done && Get(Missing(w, store), SliceKey(slice)) == Some(slice)
      requires SliceKey(slice) in api.stores[cluster]
      modifies api
      ensures Moved(old(api.stores), api.stores, cluster) && api.clock >= old(api.clock) && api.writes >= old(api.writes)
      ensures w.Between(store, api.stores[cluster])
      ensures !failed ==> Progress(w, store, api.stores[cluster], done + {SliceKey(slice)})
      ensures api.Calm(old(api.clock), api.clock) ==> !failed
    {
      ghost var now, k := api.stores[cluster], SliceKey(slice);
      assert Get(now, k) == Get(store, k);
      var reply, current := api.GetSlice(cluster, SliceKey(slice));
      if reply.Ok? {
        reply := api.Update(cluster, Merge(slice, current.value));
      }
      StepIsBetween(w, store, now, done, k, api.stores[cluster]);
      return !reply.Ok?;
    }

    /** Writes the merged form of a changed slice. */
    method UpdateOne(cluster: NamespacedName, slice: EndpointSlice, ghost w: Wish, ghost store: Store, ghost done: set<string>)
      returns (failed: bool)
      requires cluster in api.stores && w.Valid() && WellKeyed(store)
      requires Progress(w, store, api.stores[cluster], done)
      requires SliceKey(slice) !in done && Get(Changed(w, store), SliceKey(slice)) == Some(slice)
      modifies api
      ensures Moved(old(api.stores), api.stores, cluster) && api.clock >= old(api.clock) && api.writes > old(api.writes)
      ensures w.Between(store, api.stores[cluster])
      ensures !failed ==> Progress(w, store, api.stores[cluster], done + {SliceKey(slice)})
      ensures api.Calm(old(api.clock), api.clock) ==> !failed
    {
      ghost var now, k := api.stores[cluster], SliceKey(slice);
      assert Get(now, k) == Get(store, k);
      var reply := api.Update(cluster, slice);
      StepIsBetween(w, store, now, done, k, api.stores[cluster]);
      return !reply.Ok?;
    }

    /** Deletes an owned slice nobody wants. */
    method DeleteOne(cluster: NamespacedName, slice: EndpointSlice, ghost w: Wish, ghost store: Store, ghost done: set<string>)
      returns (failed: bool)
      requires cluster in api.stores && w.Valid() && WellKeyed(store)
      requires Progress(w, store, api.stores[cluster], done)
      requires SliceKey(slice) !in done && Get(Undesired(w, store), SliceKey(slice)) == Some(slice)
      modifies api
      ensures Moved(old(api.stores), api.stores, cluster) && api.clock >= old(api.clock) && api.writes > old(api.writes)
      ensures w.Between(store, api.stores[cluster])
      ensures !failed ==> Progress(w, store, api.stores[cluster], done + {SliceKey(slice)})
      ensures api.Calm(old(api.clock), api.clock) ==> !failed
    {
      ghost var now, k := api.stores[cluster], SliceKey(slice);
      assert Get(now, k) == Get(store, k);
      var reply := api.Delete(cluster, slice);
      StepIsBetween(w, store, now, done, k, api.stores[cluster]);
      return !reply.Ok?;
    }

    /** Works through the missing slices, stopping at the first error. */
    method CreateMissing(cluster: NamespacedName, list: seq<EndpointSlice>, ghost w: Wish, ghost store: Store, ghost before: set<string>)
      returns (failed: bool)
      requires cluster in api.stores && w.Valid() && WellKeyed(store)
      requires Progress(w, store, api.stores[cluster], before) && before !! Missing(w, store).Keys
      requires Enumerates(list, Missing(w, store), w.desired.Keys)
      modifies api
      ensures Moved(old(api.stores), api.stores, cluster) && api.clock >= old(api.clock)
      ensures w.Between(store, api.stores[cluster])
      ensures !failed ==> Progress(w, store, api.stores[cluster], before + KeysOf(list))
      ensures api.writes >= old(api.writes) && (list == [] <==> api.writes == old(api.writes))
      ensures api.Calm(old(api.clock), api.clock) ==> !failed
    {
      ProgressIsBetween(w, store, api.stores[cluster], before);
      ghost var done := before;
      for i := 0 to |list|
        invariant Moved(old(api.stores), api.stores, cluster) && api.clock >= old(api.clock)
        invariant done == before + KeysOf(list[..i])
        invariant Progress(w, store, api.stores[cluster], done) && w.Between(store, api.stores[cluster])
        invariant api.writes >= old(api.writes) + i && (i == 0 ==> api.writes == old(api.writes))
      {
        NextKey(list, Missing(w, store), w.desired.Keys, before, i);
        failed := CreateOne(cluster, list[i], w, store, done);
        if failed {
          return;
        }
        done := done + {SliceKey(list[i])};
      }
      assert list[..|list|] == list;
      return false;
    }

    /** Works through the changed slices. */
    method UpdateChanged(cluster: NamespacedName, list: seq<EndpointSlice>, ghost w: Wish, ghost store: Store, ghost before: set<string>)
      returns (failed: bool)
      requires cluster in api.stores && w.Valid() && WellKeyed(store)
      requires Progress(w, store, api.stores[cluster], before) && before !! Changed(w, store).Keys
      requires Enumerates(list, Changed(w, store), w.desired.Keys)
      modifies api
      ensures Moved(old(api.stores), api.stores, cluster) && api.clock >= old(api.clock)
      ensures w.Between(store, api.stores[cluster])
      ensures !failed ==> Progress(w, store, api.stores[cluster], before + KeysOf(list))
      ensures api.writes >= old(api.writes) && (list == [] <==> api.writes == old(api.writes))
      ensures api.Calm(old(api.clock), api.clock) ==> !failed
    {
      ProgressIsBetween(w, store, api.stores[cluster], before);
      ghost var done := before;
      for i := 0 to |list|
        invariant Moved(old(api.stores), api.stores, cluster) && api.clock >= old(api.clock)
        invariant done == before + KeysOf(list[..i])
        invariant Progress(w, store, api.stores[cluster], done) && w.Between(store, api.stores[cluster])
        invariant api.writes >= old(api.writes) + i && (i == 0 ==> api.writes == old(api.writes))
      {
        NextKey(list, Changed(w, store), w.desired.Keys, before, i);
        failed := UpdateOne(cluster, list[i], w, store, done);
        if failed {
          return;
        }
        done := done + {SliceKey(list[i])};
      }
      assert list[..|list|] == list;
      return false;
    }

    /** Works through the undesired slices. */
    method DeleteUndesired(cluster: NamespacedName, list: seq<EndpointSlice>, ghost w: Wish, ghost store: Store, ghost before: set<string>)
      returns (failed: bool)
      requires cluster in api.stores && w.Valid() && WellKeyed(store)
      requires Progress(w, store, api.stores[cluster], before) && before !! Undesired(w, store).Keys
      requires Enumerates(list, Undesired(w, store), Existing(w, store).Keys)
      modifies api
      ensures Moved(old(api.stores), api.stores, cluster) && api.clock >= old(api.clock)
      ensures w.Between(store, api.stores[cluster])
      ensures !failed ==> Progress(w, store, api.stores[cluster], before + KeysOf(list))
      ensures api.writes >= old(api.writes) && (list == [] <==> api.writes == old(api.writes))
      ensures api.Calm(old(api.clock), api.clock) ==> !failed
    {
      ProgressIsBetween(w, store, api.stores[cluster], before);
      ghost var done := before;
      for i := 0 to |list|
        invariant Moved(old(api.stores), api.stores, cluster) && api.clock >= old(api.clock)
        invariant done == before + KeysOf(list[..i])
        invariant Progress(w, store, api.stores[cluster], done) && w.Between(store, api.stores[cluster])
        invariant api.writes >= old(api.writes) + i && (i == 0 ==> api.writes == old(api.writes))
      {
        NextKey(list, Undesired(w, store), Existing(w, store).Keys, before, i);
        failed := DeleteOne(cluster, list[i], w, store, done);
        if failed {
          return;
        }
        done := done + {SliceKey(list[i])};
      }
      assert list[..|list|] == list;
      return false;
    }

    /**
     * One pass over one cluster. Without error, and in whatever order the maps were visited, it
     * leaves exactly the wished-for store; with an error, each key is either untouched or done.
     */
    method ConvergeCluster(gatewayDNS: NamespacedName, cluster: NamespacedName, gateways: seq<ClusterGateway>, ghost w: Wish)
      returns (failed: bool)
      requires cluster in api.stores && WellKeyed(api.stores[cluster])
      requires w == WishOf(gatewayDNS, namespace, gateways) && w.Valid() && w.OwnGateways()
      modifies api
      ensures Moved(old(api.stores), api.stores, cluster) && api.clock >= old(api.clock)
      ensures w.Between(old(api.stores)[cluster], api.stores[cluster])
      ensures !failed ==> api.stores[cluster] == w.Converged(old(api.stores)[cluster])
      ensures !failed ==> (api.writes == old(api.writes) <==> w.Settled(old(api.stores)[cluster]))
      ensures api.Calm(old(api.clock), api.clock) ==> !failed
    {
      ghost var store := api.stores[cluster];
      var ok, diff := DiffCluster(gatewayDNS, cluster, gateways, w);
      if !ok {
        return true;
      }
      DiffDisjoint(w, store);
      DiffEmpty(w, store, diff);
      DiffKeys(w, store, diff);
      failed := CreateMissing(cluster, diff.missing, w, store, {});
      if failed {
        return;
      }
      failed := UpdateChanged(cluster, diff.changed, w, store, KeysOf(diff.missing));
      if failed {
        return;
      }
      failed := DeleteUndesired(cluster, diff.undesired, w, store, KeysOf(diff.missing) + KeysOf(diff.changed));
      if !failed {
        DiffDone(w, store, api.stores[cluster]);
      }
    }

    /** One pass over one cluster of the list, starting with its client and its namespace. */
    method VisitCluster(cluster: NamespacedName, gatewayDNS: NamespacedName, gateways: seq<ClusterGateway>, ghost w: Wish)
      returns (error: Option<ClusterError>, ghost result: ClusterResult)
      requires w == WishOf(gatewayDNS, namespace, gateways) && w.Valid() && w.OwnGateways()
      requires AllWellKeyed(api.stores)
      modifies api
      ensures api.clock >= old(api.clock)
      ensures api.stores == old(api.stores) || Moved(old(api.stores), api.stores, cluster)
      ensures ResultHolds(w, api.namespaces, cluster, old(api.stores), api.stores, result)
      ensures error.Some? <==> result.Failed?
      ensures api.Calm(old(api.clock), api.clock) && cluster in api.stores ==> error.None?
    {
      var ok := api.GetClient(cluster);
      if !ok {
        return Some(NoClient), Failed;
      }
      var reply := api.GetNamespace(cluster, namespace);
      if reply.NotFound? {
        return None, NoNamespace;
      } else if !reply.Ok? {
        return Some(NamespaceUnreadable), Failed;
      }
      var failed := ConvergeCluster(gatewayDNS, cluster, gateways, w);
      if failed {
        return Some(NotConverged), Failed;
      }
      return None, Converged;
    }

    /** Every cluster by itself: an error on one neither stops nor touches the others. */
    method ConvergeToClusters(clusters: seq<NamespacedName>, gatewayDNS: NamespacedName, gateways: seq<ClusterGateway>, ghost w: Wish)
      returns (errors: seq<ClusterError>, ghost results: seq<ClusterResult>, ghost starts: seq<nat>)
      requires w == WishOf(gatewayDNS, namespace, gateways) && w.Valid() && w.OwnGateways()
      requires AllWellKeyed(api.stores)
      requires forall i, j | 0 <= i < j < |clusters| :: clusters[i] != clusters[j]
      modifies api
      ensures api.clock >= old(api.clock) && api.stores.Keys == old(api.stores).Keys
      ensures |errors| == multiset(results)[Failed]
      ensures Passed(w, api.namespaces, clusters, old(api.stores), api.stores, results)
      ensures OwnFaults(api, api.stores.Keys, old(api.clock), api.clock, clusters, results, starts)
    {
      errors, results, starts := [], [], [api.clock];
      for i := 0 to |clusters|
        invariant api.clock >= old(api.clock) && api.stores.Keys == old(api.stores).Keys
        invariant |errors| == Failures(results)
        invariant Passed(w, api.namespaces, clusters[..i], old(api.stores), api.stores, results)
        invariant AllWellKeyed(api.stores)
        invariant OwnFaults(api, api.stores.Keys, old(api.clock), api.clock, clusters[..i], results, starts)
      {
        ghost var before := api.stores;
        var error, result := VisitCluster(clusters[i], gatewayDNS, gateways, w);
        StillWellKeyed(w, api.namespaces, clusters[i], before, api.stores, result);
        PassOneMore(w, api.namespaces, clusters, i, old(api.stores), before, api.stores, results, result);
        if error.Some? {
          errors := errors + [error.value];
        }
        assert (results + [result])[..|results|] == results;
        OneMoreOwnFault(api, api.stores.Keys, old(api.clock), api.clock, clusters, i, results, result, starts);
        results, starts := results + [result], starts + [api.clock];
      }
      assert clusters[..|clusters|] == clusters;
      FailuresCounted(results);
    }
  }

  /**
   * The calls between two clock readings split into one stretch per cluster, and a cluster that
   * has an API server failed only if a call of its own stretch did.
   */
  ghost predicate OwnFaults(api: Fleet.Api, served: set<NamespacedName>, from: nat, to: nat,
                            clusters: seq<NamespacedName>, results: seq<ClusterResult>, starts: seq<nat>)
  {
    && |results| == |clusters| && |starts| == |clusters| + 1
    && starts[0] == from && starts[|clusters|] == to
    && forall i | 0 <= i < |clusters| ::
         && starts[i] <= starts[i + 1]
         && (results[i].Failed? && clusters[i] in served ==> !api.Calm(starts[i], starts[i + 1]))
  }

  lemma OneMoreOwnFault(api: Fleet.Api, served: set<NamespacedName>, from: nat, to: nat,
                        clusters: seq<NamespacedName>, i: nat, results: seq<ClusterResult>, result: ClusterResult,
                        starts: seq<nat>)
    requires i < |clusters| && |starts| == i + 1 && starts[i] <= to
    requires OwnFaults(api, served, from, starts[i], clusters[..i], results, starts)
    requires result.Failed? && clusters[i] in served ==> !api.Calm(starts[i], to)
    ensures OwnFaults(api, served, from, to, clusters[..i + 1], results + [result], starts + [to])
  {
    var all, marks := clusters[..i + 1], starts + [to];
    forall j | 0 <= j < |all|
      ensures marks[j] <= marks[j + 1]
      ensures (results + [result])[j].Failed? && all[j] in served ==> !api.Calm(marks[j], marks[j + 1])
    {
      if j < i {
        assert clusters[..i][j] == all[j];
      }
    }
  }

  /** With no faults at all no served cluster fails. */
  lemma CalmMeansNoFailure(api: Fleet.Api, served: set<NamespacedName>, from: nat, to: nat,
                           clusters: seq<NamespacedName>, results: seq<ClusterResult>, starts: seq<nat>)
    requires OwnFaults(api, served, from, to, clusters, results, starts) && api.Calm(from, to)
    requires forall i | 0 <= i < |clusters| :: clusters[i] in served
    ensures Failed !in results
  {
    StartsInOrder(api, served, from, to, clusters, results, starts, |clusters|);
    forall i | 0 <= i < |results| ensures !results[i].Failed? {
      StartsInOrder(api, served, from, to, clusters, results, starts, i);
      StretchEnds(api, served, from, to, clusters, results, starts, i + 1);
    }
  }

  lemma {:induction false} StartsInOrder(api: Fleet.Api, served: set<NamespacedName>, from: nat, to: nat,
                                         clusters: seq<NamespacedName>, results: seq<ClusterResult>, starts: seq<nat>,
                                         i: nat)
    requires OwnFaults(api, served, from, to, clusters, results, starts) && i <= |clusters|
    ensures from <= starts[i]
  {
    if i > 0 {
      StartsInOrder(api, served, from, to, clusters, results, starts, i - 1);
      assert starts[i - 1] <= starts[i - 1 + 1];
    }
  }

  lemma {:induction false} StretchEnds(api: Fleet.Api, served: set<NamespacedName>, from: nat, to: nat,
                                       clusters: seq<NamespacedName>, results: seq<ClusterResult>, starts: seq<nat>,
                                       i: nat)
    requires OwnFaults(api, served, from, to, clusters, results, starts) && i <= |clusters|
    ensures starts[i] <= to
    decreases |clusters| - i
  {
    if i < |clusters| {
      StretchEnds(api, served, from, to, clusters, results, starts, i + 1);
      assert starts[i] <= starts[i + 1];
    }
  }

  /** A pass over all listed clusters: one result each, and nothing else moved. */
  ghost predicate Passed(w: Wish, namespaces: map<NamespacedName, set<string>>, clusters: seq<NamespacedName>,
                         before: map<NamespacedName, Store>, after: map<NamespacedName, Store>, results: seq<ClusterResult>)
    requires w.Valid()
  {
    && |results| == |clusters|
    && after.Keys == before.Keys
    && (forall i | 0 <= i < |clusters| :: ResultHolds(w, namespaces, clusters[i], before, after, results[i]))
    && (forall c | c in after && c !in clusters :: after[c] == before[c])
  }

  lemma PassOneMore(w: Wish, namespaces: map<NamespacedName, set<string>>, clusters: seq<NamespacedName>, i: nat,
                    before: map<NamespacedName, Store>, now: map<NamespacedName, Store>, after: map<NamespacedName, Store>,
                    results: seq<ClusterResult>, result: ClusterResult)
    requires w.Valid() && i < |clusters| && forall j, k | 0 <= j < k < |clusters| :: clusters[j] != clusters[k]
    requires Passed(w, namespaces, clusters[..i], before, now, results)
    requires after == now || Moved(now, after, clusters[i])
    requires ResultHolds(w, namespaces, clusters[i], now, after, result)
    ensures Passed(w, namespaces, clusters[..i + 1], before, after, results + [result])
  {
    assert clusters[..i + 1] == clusters[..i] + [clusters[i]] && clusters[i] !in clusters[..i];
    forall j | 0 <= j < i + 1
      ensures ResultHolds(w, namespaces, clusters[..i + 1][j], before, after, (results + [result])[j])
    {
      if j < i {
        assert clusters[..i][j] == clusters[j] != clusters[i];
      }
    }
  }

  ghost predicate AllWellKeyed(stores: map<NamespacedName, Store>) {
    forall c | c in stores :: WellKeyed(stores[c])
  }

  /** What a result says about its cluster. */
  ghost predicate ResultHolds(w: Wish, namespaces: map<NamespacedName, set<string>>, cluster: NamespacedName,
                              before: map<NamespacedName, Store>, after: map<NamespacedName, Store>, result: ClusterResult)
    requires w.Valid()
  {
    var hasNamespace := cluster in namespaces && w.namespace in namespaces[cluster];
    && (cluster in before <==> cluster in after)
    && match result
       case Converged => cluster in before && hasNamespace && after[cluster] == w.Converged(before[cluster])
       case NoNamespace => cluster in before && !hasNamespace && after[cluster] == before[cluster]
       case Failed => cluster in before ==> w.Between(before[cluster], after[cluster])
  }

  function Failures(results: seq<ClusterResult>): nat {
    if results == [] then 0
    else Failures(results[..|results| - 1]) + if results[|results| - 1].Failed? then 1 else 0
  }

  /** One error for each failed cluster. */
  lemma {:induction false} FailuresCounted(results: seq<ClusterResult>)
    ensures Failures(results) == multiset(results)[Failed]
  {
    if results != [] {
      FailuresCounted(results[..|results| - 1]);
      assert results == results[..|results| - 1] + [results[|results| - 1]];
    }
  }

  lemma StillWellKeyed(w: Wish, namespaces: map<NamespacedName, set<string>>, cluster: NamespacedName,
                       before: map<NamespacedName, Store>, after: map<NamespacedName, Store>, result: ClusterResult)
    requires w.Valid() && AllWellKeyed(before) && ResultHolds(w, namespaces, cluster, before, after, result)
    requires after == before || Moved(before, after, cluster)
    ensures AllWellKeyed(after)
  {
    if cluster in before {
      ResultIsBetween(w, namespaces, cluster, before, after, result);
      ConvergedWellKeyed(w, before[cluster], after[cluster]);
    }
  }

  lemma ResultIsBetween(w: Wish, namespaces: map<NamespacedName, set<string>>, cluster: NamespacedName,
                        before: map<NamespacedName, Store>, after: map<NamespacedName, Store>, result: ClusterResult)
    requires w.Valid() && cluster in before && ResultHolds(w, namespaces, cluster, before, after, result)
    ensures w.Between(before[cluster], after[cluster])
  {
    forall k ensures Get(after[cluster], k) == Get(before[cluster], k)
                     || Get(after[cluster], k) == w.Target(k, Get(before[cluster], k)) {
      if result.Converged? {
        assert Get(w.Converged(before[cluster]), k) == w.Target(k, Get(before[cluster], k));
      }
    }
  }

  /** Only the store of one cluster may differ. */
  ghost predicate Moved(before: map<NamespacedName, Store>, after: map<NamespacedName, Store>, cluster: NamespacedName) {
    && after.Keys == before.Keys
    && cluster in before
    && forall c | c in before && c != cluster :: after[c] == before[c]
  }

  lemma ProgressIsBetween(w: Wish, store: Store, now: Store, done: set<string>)
    requires w.Valid() && Progress(w, store, now, done)
    ensures w.Between(store, now)
  {
    forall k ensures Get(now, k) == Get(store, k) || Get(now, k) == w.Target(k, Get(store, k)) {}
  }

  /** Writing, or failing to write, the target of one more key. */
  lemma StepIsBetween(w: Wish, store: Store, now: Store, done: set<string>, k: string, next: Store)
    requires w.Valid() && Progress(w, store, now, done)
    requires next == now || (forall x :: Get(next, x) == if x == k then w.Target(k, Get(store, k)) else Get(now, x))
    ensures w.Between(store, next)
  {
    forall x ensures Get(next, x) == Get(store, x) || Get(next, x) == w.Target(x, Get(store, x)) {
      assert Get(now, x) == Get(store, x) || Get(now, x) == w.Target(x, Get(store, x));
    }
  }

  lemma DiffDisjoint(w: Wish, store: Store)
    requires w.Valid()
    ensures Missing(w, store).Keys !! Changed(w, store).Keys
    ensures (Missing(w, store).Keys + Changed(w, store).Keys) !! Undesired(w, store).Keys
  {}

  lemma DiffKeys(w: Wish, store: Store, d: ClusterDiff)
    requires w.Valid() && WellKeyed(store) && IsDiff(w, store, d)
    ensures KeysOf(d.missing) == Missing(w, store).Keys
    ensures KeysOf(d.changed) == Changed(w, store).Keys
    ensures KeysOf(d.undesired) == Undesired(w, store).Keys
  {
    KeysOfAll(d.missing, Missing(w, store), w.desired.Keys);
    KeysOfAll(d.changed, Changed(w, store), w.desired.Keys);
    KeysOfAll(d.undesired, Undesired(w, store), Existing(w, store).Keys);
  }

  lemma DiffDone(w: Wish, store: Store, now: Store)
    requires w.Valid() && w.OwnGateways()
    requires Progress(w, store, now, Missing(w, store).Keys + Changed(w, store).Keys + Undesired(w, store).Keys)
    ensures now == w.Converged(store)
  {
    forall k ensures Get(now, k) == Get(w.Converged(store), k) {
      DiffCovers(w, store, k);
    }
    StoresEqual(now, w.Converged(store));
  }
}
