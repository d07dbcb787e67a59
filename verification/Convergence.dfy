// What a converge pass is meant to do to one cluster: a function of each key by itself.
module Convergence {
  import opened Text
  import opened Slices
  import opened Gateways

  /** The slices one GatewayDNS wants on a cluster: its reference, the controller namespace, a gateway per key. */
  datatype Wish = Wish(ref: string, namespace: string, desired: map<string, ClusterGateway>) {

    ghost predicate Valid() {
      forall k | k in desired ::
        && EndpointSliceKey(desired[k]) == k
        && Free('/', desired[k].controllerNamespace)
        && (desired[k].unreachable || desired[k].gateway.Some?)
    }

    predicate Reachable(k: string) {
      k in desired && !desired[k].unreachable
    }

    /** Every gateway was collected for this GatewayDNS. */
    ghost predicate OwnGateways() {
      forall k | Reachable(k) :: desired[k].gatewayDNS.String() == ref
    }

    /** ... and for the namespace the reconciler lists. */
    ghost predicate SharedNamespace() {
      forall k | Reachable(k) :: desired[k].controllerNamespace == namespace
    }

    predicate Owns(s: EndpointSlice) {
      && s.namespace == namespace
      && DNS_HOSTNAME in s.annotations
      && GATEWAY_DNS_REF in s.annotations
      && s.annotations[GATEWAY_DNS_REF] == ref
    }

    /** What becomes of one key. */
    function Target(k: string, current: Option<EndpointSlice>): Option<EndpointSlice>
      requires Reachable(k) ==> desired[k].gateway.Some?
    {
      if k in desired then
        if desired[k].unreachable then current
        else if current.None? then Some(Desired(desired[k]))
        else Some(Merge(Desired(desired[k]), current.value))
      else if current.Some? && Owns(current.value) then None
      else current
    }

    /** The cluster after a converge pass without error. */
    ghost function Converged(store: Store): (after: Store)
      requires Valid()
      ensures forall k :: Get(after, k) == Target(k, Get(store, k))
    {
      map k | k in store.Keys + desired.Keys && Target(k, Get(store, k)).Some? :: Target(k, Get(store, k)).value
    }

    /** Each key is as it was, or as it should become: all that is known after a failed pass. */
    ghost predicate Between(store: Store, after: Store)
      requires Valid()
    {
      forall k :: Get(after, k) == Get(store, k) || Get(after, k) == Target(k, Get(store, k))
    }

    /** A pass would find nothing missing, changed or undesired. */
    ghost predicate Settled(store: Store)
      requires Valid()
    {
      && (forall k | Reachable(k) :: k in store && Owns(store[k]) && Same(Desired(desired[k]), store[k]))
      && (forall k | k in store :: Owns(store[k]) ==> k in desired)
    }
  }

  /** The gateway list by key; a later gateway replaces an earlier one with the same key. */
  function DesiredMap(gs: seq<ClusterGateway>): map<string, ClusterGateway> {
    if gs == [] then map[]
    else DesiredMap(gs[..|gs| - 1])[EndpointSliceKey(gs[|gs| - 1]) := gs[|gs| - 1]]
  }

  /** Overwrites the managed part of `dest` and keeps the rest. */
  function Merge(source: EndpointSlice, dest: EndpointSlice): EndpointSlice {
    dest.(annotations := dest.annotations[DNS_HOSTNAME := Annotation(source, DNS_HOSTNAME)]
                                         [GATEWAY_DNS_REF := Annotation(source, GATEWAY_DNS_REF)],
          addressType := source.addressType,
          endpoints := source.endpoints,
          ports := source.ports)
  }

  /** compareEndpointSlices: the reference annotation is not looked at. */
  predicate Same(a: EndpointSlice, b: EndpointSlice) {
    && Annotation(a, DNS_HOSTNAME) == Annotation(b, DNS_HOSTNAME)
    && a.addressType == b.addressType
    && a.endpoints == b.endpoints
    && a.ports == b.ports
  }

  lemma StoresEqual(a: Store, b: Store)
    requires forall k :: Get(a, k) == Get(b, k)
    ensures a == b
  {
    forall k ensures k in a <==> k in b {
      assert Get(a, k) == Get(b, k);
    }
    forall k | k in a ensures a[k] == b[k] {
      assert Get(a, k) == Get(b, k);
    }
  }

  /** A merge makes the slices compare equal and leaves everything the controller does not manage. */
  lemma MergeManages(source: EndpointSlice, dest: EndpointSlice)
    ensures Same(source, Merge(source, dest))
    ensures Annotation(Merge(source, dest), GATEWAY_DNS_REF) == Annotation(source, GATEWAY_DNS_REF)
    ensures SliceKey(Merge(source, dest)) == SliceKey(dest) && Merge(source, dest).labels == dest.labels
    ensures forall a | a != DNS_HOSTNAME && a != GATEWAY_DNS_REF ::
              (a in Merge(source, dest).annotations <==> a in dest.annotations)
              && Annotation(Merge(source, dest), a) == Annotation(dest, a)
  {
    AnnotationKeysDiffer();
  }

  lemma MergeAgain(source: EndpointSlice, dest: EndpointSlice)
    ensures Merge(source, Merge(source, dest)) == Merge(source, dest)
  {
    AnnotationKeysDiffer();
    assert Merge(source, Merge(source, dest)).annotations == Merge(source, dest).annotations;
  }

  /** Merging a gateway's slice into itself changes nothing. */
  lemma MergeSelf(cg: ClusterGateway)
    requires cg.gateway.Some?
    ensures Merge(Desired(cg), Desired(cg)) == Desired(cg)
  {
    AnnotationKeysDiffer();
    assert Merge(Desired(cg), Desired(cg)).annotations == Desired(cg).annotations;
  }

  /** Leaving an equal owned slice alone is merging into it exactly when the gateway carries the same reference. */
  lemma SkipIsMerge(w: Wish, cg: ClusterGateway, s: EndpointSlice)
    requires cg.gateway.Some? && w.Owns(s) && Same(Desired(cg), s)
    ensures Merge(Desired(cg), s) == s <==> cg.gatewayDNS.String() == w.ref
  {
    AnnotationKeysDiffer();
    if cg.gatewayDNS.String() == w.ref {
      assert Merge(Desired(cg), s).annotations == s.annotations;
    } else {
      assert Merge(Desired(cg), s).annotations[GATEWAY_DNS_REF] != s.annotations[GATEWAY_DNS_REF];
    }
  }

  /** A slice at the key of a gateway lies in the gateway's namespace. */
  lemma SameNamespace(w: Wish, store: Store, k: string)
    requires w.Valid() && WellKeyed(store) && k in w.desired && k in store
    ensures store[k].namespace == w.desired[k].controllerNamespace
    ensures store[k].name == EndpointSliceName(w.desired[k].cluster)
  {
    KeyTextInjective(NamespacedName(store[k].namespace, store[k].name),
                     NamespacedName(w.desired[k].controllerNamespace, EndpointSliceName(w.desired[k].cluster)));
  }

  lemma ConvergedWellKeyed(w: Wish, store: Store, after: Store)
    requires w.Valid() && WellKeyed(store) && w.Between(store, after)
    ensures WellKeyed(after)
  {
    forall k | k in after ensures SliceKey(after[k]) == k && Free('/', after[k].namespace) {
      assert Get(after, k) == Get(store, k) || Get(after, k) == w.Target(k, Get(store, k));
    }
  }

  /** The map of a gateway list holds nothing but its gateways, each under its key. */
  lemma {:induction false} DesiredMapSound(gs: seq<ClusterGateway>)
    ensures forall k | k in DesiredMap(gs) :: DesiredMap(gs)[k] in gs && EndpointSliceKey(DesiredMap(gs)[k]) == k
  {
    if gs != [] {
      DesiredMapSound(gs[..|gs| - 1]);
      assert gs == gs[..|gs| - 1] + [gs[|gs| - 1]];
    }
  }

  /** Of gateways with one key the last one counts. */
  lemma {:induction false} LastGatewayCounts(gs: seq<ClusterGateway>, i: nat)
    requires i < |gs| && forall j | i < j < |gs| :: EndpointSliceKey(gs[j]) != EndpointSliceKey(gs[i])
    ensures EndpointSliceKey(gs[i]) in DesiredMap(gs) && DesiredMap(gs)[EndpointSliceKey(gs[i])] == gs[i]
  {
    if i < |gs| - 1 {
      LastGatewayCounts(gs[..|gs| - 1], i);
    }
  }

  /** No gateway is lost: clusters of one namespace never share a key. */
  lemma {:induction false} NoGatewayLost(gs: seq<ClusterGateway>, controllerNamespace: string, namespace: string)
    requires DistinctClusters(gs)
    requires forall i | 0 <= i < |gs| :: gs[i].controllerNamespace == controllerNamespace && gs[i].cluster.namespace == namespace
    ensures |DesiredMap(gs)| == |gs|
    ensures forall i | 0 <= i < |gs| ::
              EndpointSliceKey(gs[i]) in DesiredMap(gs) && DesiredMap(gs)[EndpointSliceKey(gs[i])] == gs[i]
  {
    if gs != [] {
      var before, last := gs[..|gs| - 1], gs[|gs| - 1];
      NoGatewayLost(before, controllerNamespace, namespace);
      NewKey(before, last);
      forall i | 0 <= i < |before|
        ensures EndpointSliceKey(gs[i]) in DesiredMap(gs) && DesiredMap(gs)[EndpointSliceKey(gs[i])] == gs[i]
      {
        assert before[i] == gs[i] && EndpointSliceKey(gs[i]) in DesiredMap(before);
      }
    }
  }

  lemma NewKey(before: seq<ClusterGateway>, last: ClusterGateway)
    requires forall i | 0 <= i < |before| :: before[i].controllerNamespace == last.controllerNamespace
    requires forall i | 0 <= i < |before| :: before[i].cluster.namespace == last.cluster.namespace
    requires forall i | 0 <= i < |before| :: before[i].cluster != last.cluster
    ensures EndpointSliceKey(last) !in DesiredMap(before)
  {
    DesiredMapSound(before);
    if EndpointSliceKey(last) in DesiredMap(before) {
      var g := DesiredMap(before)[EndpointSliceKey(last)];
      KeysInjective(last.controllerNamespace, g.cluster, last.cluster);
    }
  }

  lemma TargetTwice(w: Wish, k: string, current: Option<EndpointSlice>)
    requires w.Valid()
    ensures w.Target(k, w.Target(k, current)) == w.Target(k, current)
  {
    if w.Reachable(k) {
      if current.None? {
        MergeSelf(w.desired[k]);
      } else {
        MergeAgain(Desired(w.desired[k]), current.value);
      }
    }
  }

  /**
   * Recovery from partial failure: whatever part of its writes a failed pass got through, a later
   * pass without error ends where one from the original store would have.
   */
  lemma Recovery(w: Wish, store: Store, partial: Store)
    requires w.Valid() && w.Between(store, partial)
    ensures w.Converged(partial) == w.Converged(store)
  {
    forall k ensures Get(w.Converged(partial), k) == Get(w.Converged(store), k) {
      TargetTwice(w, k, Get(store, k));
      assert Get(partial, k) == Get(store, k) || Get(partial, k) == w.Target(k, Get(store, k));
    }
    StoresEqual(w.Converged(partial), w.Converged(store));
  }

  /** The same after any number of failed passes in a row. */
  lemma {:induction false} RecoveryAfterMany(w: Wish, stores: seq<Store>)
    requires w.Valid() && stores != []
    requires forall i | 0 <= i < |stores| - 1 :: w.Between(stores[i], stores[i + 1])
    ensures w.Converged(stores[|stores| - 1]) == w.Converged(stores[0])
  {
    if |stores| > 1 {
      var before := stores[..|stores| - 1];
      forall i | 0 <= i < |before| - 1 ensures w.Between(before[i], before[i + 1]) {
        assert w.Between(stores[i], stores[i + 1]);
      }
      RecoveryAfterMany(w, before);
      assert w.Between(stores[|stores| - 2], stores[|stores| - 2 + 1]);
      Recovery(w, stores[|stores| - 2], stores[|stores| - 1]);
    }
  }

  /** The wished-for store settles exactly when its gateways carry this reference and namespace. */
  lemma ConvergedIsSettled(w: Wish, store: Store)
    requires w.Valid() && WellKeyed(store)
    ensures w.Settled(w.Converged(store)) <==> w.OwnGateways() && w.SharedNamespace()
  {
    AnnotationKeysDiffer();
    var after := w.Converged(store);
    forall k | w.Reachable(k)
      ensures k in after && Same(Desired(w.desired[k]), after[k])
      ensures w.Owns(after[k]) <==>
              w.desired[k].gatewayDNS.String() == w.ref && w.desired[k].controllerNamespace == w.namespace
    {
      assert Get(after, k) == w.Target(k, Get(store, k));
      if k in store {
        SameNamespace(w, store, k);
      }
    }
    forall k | k in after && w.Owns(after[k]) ensures k in w.desired {
      assert Get(after, k) == w.Target(k, Get(store, k));
    }
  }

  /** A settled store is one a pass leaves alone. */
  lemma SettledIsFixed(w: Wish, store: Store)
    requires w.Valid() && w.OwnGateways() && w.Settled(store)
    ensures w.Converged(store) == store
  {
    forall k ensures Get(w.Converged(store), k) == Get(store, k) {
      if w.Reachable(k) {
        SkipIsMerge(w, w.desired[k], store[k]);
      }
    }
    StoresEqual(w.Converged(store), store);
  }

  /** A deleted GatewayDNS wants nothing: exactly the slices it owns go. */
  lemma Cleanup(w: Wish, store: Store)
    requires w.desired == map[]
    ensures w.Converged(store) == map k | k in store && !w.Owns(store[k]) :: store[k]
  {
    var kept := map k | k in store && !w.Owns(store[k]) :: store[k];
    forall k ensures Get(w.Converged(store), k) == Get(kept, k) {}
    StoresEqual(w.Converged(store), kept);
  }

  /**
   * At key k, p does not write what q writes too; and if q would remove the slice stored there,
   * merging into that slice gives no more than creating afresh.
   */
  predicate Clear(p: Wish, q: Wish, store: Store, k: string)
    requires p.Reachable(k) ==> p.desired[k].gateway.Some?
  {
    p.Reachable(k) ==>
      && !q.Reachable(k)
      && (k in store && q.Owns(store[k]) && k !in q.desired ==>
            Merge(Desired(p.desired[k]), store[k]) == Desired(p.desired[k]))
  }

  /**
   * Two GatewayDNS objects commute on a store exactly when at every key they want neither writes
   * what the other writes, or rescues something of a slice the other would remove.
   */
  lemma Commute(p: Wish, q: Wish, store: Store)
    requires p.Valid() && q.Valid() && p.OwnGateways() && q.OwnGateways() && p.ref != q.ref
    ensures p.Converged(q.Converged(store)) == q.Converged(p.Converged(store)) <==>
            forall k | k in p.desired.Keys + q.desired.Keys :: Clear(p, q, store, k) && Clear(q, p, store, k)
  {
    var pq, qp := p.Converged(q.Converged(store)), q.Converged(p.Converged(store));
    forall k ensures Get(pq, k) == Get(qp, k) <==> Clear(p, q, store, k) && Clear(q, p, store, k) {
      CommuteAt(p, q, store, k);
      assert Get(q.Converged(store), k) == q.Target(k, Get(store, k));
      assert Get(p.Converged(store), k) == p.Target(k, Get(store, k));
    }
    if forall k | k in p.desired.Keys + q.desired.Keys :: Clear(p, q, store, k) && Clear(q, p, store, k) {
      forall k ensures Get(pq, k) == Get(qp, k) {
        assert k in p.desired.Keys + q.desired.Keys || (Clear(p, q, store, k) && Clear(q, p, store, k));
      }
      StoresEqual(pq, qp);
    }
  }

  lemma CommuteAt(p: Wish, q: Wish, store: Store, k: string)
    requires p.Valid() && q.Valid() && p.OwnGateways() && q.OwnGateways() && p.ref != q.ref
    ensures var s := Get(store, k);
            p.Target(k, q.Target(k, s)) == q.Target(k, p.Target(k, s)) <==> Clear(p, q, store, k) && Clear(q, p, store, k)
  {
    var s := Get(store, k);
    if p.Reachable(k) {
      NotOwnedByOther(p, q, k, s);
      NotOwnedByOther(p, q, k, q.Target(k, s));
    }
    if q.Reachable(k) {
      NotOwnedByOther(q, p, k, s);
      NotOwnedByOther(q, p, k, p.Target(k, s));
    }
    if p.Reachable(k) && q.Reachable(k) {
      BothWrite(p, q, k, s);
    }
  }

  /** When both write, the reference of the later one stays. */
  lemma BothWrite(p: Wish, q: Wish, k: string, current: Option<EndpointSlice>)
    requires p.Valid() && q.Valid() && p.OwnGateways() && q.OwnGateways() && p.ref != q.ref
    requires p.Reachable(k) && q.Reachable(k)
    ensures p.Target(k, q.Target(k, current)) != q.Target(k, p.Target(k, current))
  {
    AnnotationKeysDiffer();
    var pq, qp := p.Target(k, q.Target(k, current)).value, q.Target(k, p.Target(k, current)).value;
    assert pq.annotations[GATEWAY_DNS_REF] == p.ref && qp.annotations[GATEWAY_DNS_REF] == q.ref;
  }

  lemma NotOwnedByOther(p: Wish, q: Wish, k: string, current: Option<EndpointSlice>)
    requires p.Valid() && p.OwnGateways() && p.ref != q.ref && p.Reachable(k)
    ensures p.Target(k, current).Some? && !q.Owns(p.Target(k, current).value)
  {
    AnnotationKeysDiffer();
  }

  /** When both want a reachable key, whichever ran last owns it, so the order always shows. */
  lemma LastWriterOwns(p: Wish, q: Wish, store: Store, k: string)
    requires p.Valid() && q.Valid() && p.OwnGateways() && q.OwnGateways() && p.ref != q.ref
    requires p.SharedNamespace() && q.SharedNamespace() && WellKeyed(store)
    requires p.Reachable(k) && q.Reachable(k)
    ensures var end := q.Converged(p.Converged(store));
            k in end && q.Owns(end[k]) && !p.Owns(end[k])
    ensures p.Converged(q.Converged(store)) != q.Converged(p.Converged(store))
  {
    AnnotationKeysDiffer();
    var end, other := q.Converged(p.Converged(store)), p.Converged(q.Converged(store));
    assert p.Between(store, p.Converged(store)) && q.Between(store, q.Converged(store));
    ConvergedWellKeyed(p, store, p.Converged(store));
    ConvergedWellKeyed(q, store, q.Converged(store));
    ConvergedIsSettled(q, p.Converged(store));
    ConvergedIsSettled(p, q.Converged(store));
    assert q.Owns(end[k]) && p.Owns(other[k]);
  }

  // ---------- Frames over whole runs ----------

  /** Nothing this wish does touches the slice at k. */
  predicate Spares(w: Wish, k: string, s: EndpointSlice) {
    if k in w.desired then w.desired[k].unreachable else !w.Owns(s)
  }

  /** One pass, failed or not, for each wish in turn. */
  ghost predicate IsRun(wishes: seq<Wish>, stores: seq<Store>) {
    && |stores| == |wishes| + 1
    && forall i | 0 <= i < |wishes| :: wishes[i].Valid() && wishes[i].Between(stores[i], stores[i + 1])
  }

  /** Across any run of passes, failed or not, a slice every wish spares is never changed or removed. */
  lemma {:induction false} SparedForever(wishes: seq<Wish>, stores: seq<Store>, k: string)
    requires IsRun(wishes, stores) && k in stores[0]
    requires forall i | 0 <= i < |wishes| :: Spares(wishes[i], k, stores[0][k])
    ensures Get(stores[|wishes|], k) == Get(stores[0], k)
  {
    if wishes != [] {
      var last := |wishes| - 1;
      forall i | 0 <= i < last
        ensures wishes[..last][i].Valid() && wishes[..last][i].Between(stores[..last + 1][i], stores[..last + 1][i + 1])
      {
        assert wishes[i].Between(stores[i], stores[i + 1]);
      }
      SparedForever(wishes[..last], stores[..last + 1], k);
      assert wishes[last].Between(stores[last], stores[last + 1]);
      assert Spares(wishes[last], k, stores[0][k]);
    }
  }

  predicate InNamespace(w: Wish, namespace: string) {
    w.namespace == namespace && forall k | k in w.desired :: w.desired[k].controllerNamespace == namespace
  }

  /** Slices outside the controller namespace are out of reach of every run. */
  lemma OtherNamespacesSpared(wishes: seq<Wish>, stores: seq<Store>, k: string, namespace: string)
    requires IsRun(wishes, stores) && WellKeyed(stores[0]) && k in stores[0] && stores[0][k].namespace != namespace
    requires forall i | 0 <= i < |wishes| :: InNamespace(wishes[i], namespace)
    ensures Get(stores[|wishes|], k) == Get(stores[0], k)
  {
    forall i | 0 <= i < |wishes| ensures Spares(wishes[i], k, stores[0][k]) {
      if k in wishes[i].desired {
        SameNamespace(wishes[i], stores[0], k);
      }
    }
    SparedForever(wishes, stores, k);
  }

  /** So are slices nobody wants that lack the hostname or name a GatewayDNS outside the run. */
  lemma ForeignSlicesSpared(wishes: seq<Wish>, stores: seq<Store>, k: string)
    requires IsRun(wishes, stores) && k in stores[0]
    requires forall i | 0 <= i < |wishes| :: k !in wishes[i].desired
    requires DNS_HOSTNAME !in stores[0][k].annotations || GATEWAY_DNS_REF !in stores[0][k].annotations
             || forall i | 0 <= i < |wishes| :: wishes[i].ref != stores[0][k].annotations[GATEWAY_DNS_REF]
    ensures Get(stores[|wishes|], k) == Get(stores[0], k)
  {
    SparedForever(wishes, stores, k);
  }
}
