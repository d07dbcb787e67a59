// What no run of reconciles touches, whatever GatewayDNS objects come and go and whatever fails.
module ReconcileRuns {
  import opened Text
  import opened Slices
  import opened Gateways
  import opened Convergence
  import opened Controller

  /** Reconciles in turn, as one workload cluster's store sees them. */
  ghost predicate IsReconcileRun(visits: seq<Visit>, domainSuffix: string, namespace: string, stores: seq<Store>) {
    && |stores| == |visits| + 1
    && forall i | 0 <= i < |visits| :: Visited(visits[i], domainSuffix, namespace, stores[i], stores[i + 1])
  }

  /** No wish this reconcile can have touches the slice at k. */
  ghost predicate VisitSpares(v: Visit, domainSuffix: string, namespace: string, k: string, s: EndpointSlice) {
    forall w, selected, readings | WishIsTrue(w, v, domainSuffix, namespace, selected, readings) :: Spares(w, k, s)
  }

  /** Across any run of reconciles, failed or not, a slice that every one spares stays as it is. */
  lemma {:induction false} SparedByReconciles(visits: seq<Visit>, domainSuffix: string, namespace: string,
                                              stores: seq<Store>, k: string)
    requires IsReconcileRun(visits, domainSuffix, namespace, stores) && k in stores[0]
    requires forall i | 0 <= i < |visits| :: VisitSpares(visits[i], domainSuffix, namespace, k, stores[0][k])
    ensures Get(stores[|visits|], k) == Get(stores[0], k)
  {
    if visits != [] {
      var last := |visits| - 1;
      forall i | 0 <= i < last
        ensures Visited(visits[..last][i], domainSuffix, namespace, stores[..last + 1][i], stores[..last + 1][i + 1])
      {
        assert Visited(visits[i], domainSuffix, namespace, stores[i], stores[i + 1]);
      }
      SparedByReconciles(visits[..last], domainSuffix, namespace, stores[..last + 1], k);
      assert Visited(visits[last], domainSuffix, namespace, stores[last], stores[last + 1]);
      if stores[last + 1] != stores[last] {
        var w, selected, readings :|
          WishIsTrue(w, visits[last], domainSuffix, namespace, selected, readings) && w.Between(stores[last], stores[last + 1]);
        assert VisitSpares(visits[last], domainSuffix, namespace, k, stores[0][k]);
        assert Spares(w, k, stores[0][k]);
      }
    }
  }

  /** The key belongs to a cluster that the GatewayDNS of this reconcile selects. */
  ghost predicate Selects(v: Visit, namespace: string, k: string) {
    && v.request in v.gatewayDNSes && v.gatewayDNSes[v.request].selector.Some?
    && exists i :: 0 <= i < |v.clusters| && k == GatewayKey(namespace, v.clusters[i].name)
         && v.clusters[i].name.namespace == v.request.namespace
         && v.gatewayDNSes[v.request].selector.value(v.clusters[i].labels)
  }

  /** A desired key is the key of a selected cluster, in the controller namespace. */
  lemma TrueWishKeys(w: Wish, v: Visit, domainSuffix: string, namespace: string, selected: seq<NamespacedName>,
                     readings: seq<Reading>, k: string)
    requires WishIsTrue(w, v, domainSuffix, namespace, selected, readings) && k in w.desired
    ensures v.request in v.gatewayDNSes && w.desired[k].controllerNamespace == namespace
    ensures Selects(v, namespace, k)
  {
    var gs := Collected(selected, readings, domainSuffix, namespace, v.request);
    DesiredMapSound(gs);
    CollectedMembers(selected, readings, domainSuffix, namespace, v.request, w.desired[k]);
    var i :| 0 <= i < |selected| && w.desired[k].cluster == selected[i] && w.desired[k].controllerNamespace == namespace;
    assert selected[i] in selected && k == GatewayKey(namespace, selected[i]);
    MatchingMembers(v.clusters, v.request.namespace, v.gatewayDNSes[v.request].selector.value);
  }

  /** Slices outside the controller namespace survive every run of reconciles. */
  lemma OtherNamespacesSurvive(visits: seq<Visit>, domainSuffix: string, namespace: string, stores: seq<Store>, k: string)
    requires IsReconcileRun(visits, domainSuffix, namespace, stores)
    requires WellKeyed(stores[0]) && k in stores[0] && stores[0][k].namespace != namespace
    ensures Get(stores[|visits|], k) == Get(stores[0], k)
  {
    forall i | 0 <= i < |visits| ensures VisitSpares(visits[i], domainSuffix, namespace, k, stores[0][k]) {
      forall w, selected, readings | WishIsTrue(w, visits[i], domainSuffix, namespace, selected, readings)
        ensures Spares(w, k, stores[0][k])
      {
        if k in w.desired {
          TrueWishKeys(w, visits[i], domainSuffix, namespace, selected, readings, k);
          SameNamespace(w, stores[0], k);
        }
      }
    }
    SparedByReconciles(visits, domainSuffix, namespace, stores, k);
  }

  /** The slice carries a hostname and the reference of this GatewayDNS. */
  predicate NamesGatewayDNS(s: EndpointSlice, request: NamespacedName) {
    DNS_HOSTNAME in s.annotations && GATEWAY_DNS_REF in s.annotations && s.annotations[GATEWAY_DNS_REF] == request.String()
  }

  /**
   * A slice under a key of no selected cluster survives every run of reconciles of GatewayDNS
   * objects, present or deleted, that it does not name, or if it lacks a hostname.
   */
  lemma ForeignSlicesSurvive(visits: seq<Visit>, domainSuffix: string, namespace: string, stores: seq<Store>, k: string)
    requires IsReconcileRun(visits, domainSuffix, namespace, stores) && k in stores[0]
    requires forall i | 0 <= i < |visits| ::
               !Selects(visits[i], namespace, k) && !NamesGatewayDNS(stores[0][k], visits[i].request)
    ensures Get(stores[|visits|], k) == Get(stores[0], k)
  {
    forall i | 0 <= i < |visits| ensures VisitSpares(visits[i], domainSuffix, namespace, k, stores[0][k]) {
      forall w, selected, readings | WishIsTrue(w, visits[i], domainSuffix, namespace, selected, readings)
        ensures Spares(w, k, stores[0][k])
      {
        if k in w.desired {
          TrueWishKeys(w, visits[i], domainSuffix, namespace, selected, readings, k);
        }
      }
    }
    SparedByReconciles(visits, domainSuffix, namespace, stores, k);
  }

  /** Reconciling a deleted GatewayDNS, failed or not, takes away nothing but slices that name it. */
  lemma DeletedTakesOnlyItsOwn(v: Visit, domainSuffix: string, namespace: string, before: Store, after: Store, k: string)
    requires Visited(v, domainSuffix, namespace, before, after) && v.request !in v.gatewayDNSes
    ensures Get(after, k) == Get(before, k)
            || (k in before && k !in after && before[k].namespace == namespace && NamesGatewayDNS(before[k], v.request))
  {
    if after != before {
      var w, selected, readings :| WishIsTrue(w, v, domainSuffix, namespace, selected, readings) && w.Between(before, after);
      assert Get(after, k) == Get(before, k) || Get(after, k) == w.Target(k, Get(before, k));
    }
  }
}
