// The three lists a converge pass works through, as maps from keys to the slices to write.
module Diff {
  import opened Text
  import opened Slices
  import opened Gateways
  import opened Convergence

  datatype ClusterDiff = ClusterDiff(undesired: seq<EndpointSlice>, missing: seq<EndpointSlice>, changed: seq<EndpointSlice>)

  /** The slices this GatewayDNS owns on the cluster. */
  ghost function Existing(w: Wish, store: Store): Store {
    map k | k in store && w.Owns(store[k]) :: store[k]
  }

  ghost function Missing(w: Wish, store: Store): Store
    requires w.Valid()
  {
    map k | k in w.desired && w.Reachable(k) && k !in Existing(w, store) :: Desired(w.desired[k])
  }

  ghost function Changed(w: Wish, store: Store): Store
    requires w.Valid()
  {
    map k | k in w.desired && w.Reachable(k) && k in Existing(w, store) && !Same(Desired(w.desired[k]), store[k]) ::
      Merge(Desired(w.desired[k]), store[k])
  }

  ghost function Undesired(w: Wish, store: Store): Store {
    map k | k in Existing(w, store) && k !in w.desired :: store[k]
  }

  /** The list holds each entry of m with a key in `seen`, once, in some order. */
  ghost predicate Enumerates(list: seq<EndpointSlice>, m: Store, seen: set<string>) {
    && (forall i | 0 <= i < |list| :: SliceKey(list[i]) in seen && Get(m, SliceKey(list[i])) == Some(list[i]))
    && (forall i, j | 0 <= i < j < |list| :: SliceKey(list[i]) != SliceKey(list[j]))
    && (forall k | k in m && k in seen :: m[k] in list)
  }

  lemma EnumerateSkip(list: seq<EndpointSlice>, m: Store, seen: set<string>, k: string)
    requires Enumerates(list, m, seen) && k !in m
    ensures Enumerates(list, m, seen + {k})
  {}

  lemma EnumerateAdd(list: seq<EndpointSlice>, m: Store, seen: set<string>, k: string)
    requires Enumerates(list, m, seen) && k in m && k !in seen && SliceKey(m[k]) == k
    ensures Enumerates(list + [m[k]], m, seen + {k})
  {
    forall x | x in m && x in seen + {k} ensures m[x] in list + [m[k]] {
      if x != k {
        assert m[x] in list;
      }
    }
  }

  ghost predicate IsDiff(w: Wish, store: Store, d: ClusterDiff)
    requires w.Valid()
  {
    && Enumerates(d.missing, Missing(w, store), w.desired.Keys)
    && Enumerates(d.changed, Changed(w, store), w.desired.Keys)
    && Enumerates(d.undesired, Undesired(w, store), Existing(w, store).Keys)
  }

  /** No key is in two of the lists, and every other key already is as it should be. */
  lemma DiffCovers(w: Wish, store: Store, k: string)
    requires w.Valid() && w.OwnGateways()
    ensures Missing(w, store).Keys !! Changed(w, store).Keys !! Undesired(w, store).Keys
    ensures k !in Missing(w, store) && k !in Changed(w, store) && k !in Undesired(w, store) ==>
              w.Target(k, Get(store, k)) == Get(store, k)
  {
    AnnotationKeysDiffer();
    if w.Reachable(k) && k in store && w.Owns(store[k]) && Same(Desired(w.desired[k]), store[k]) {
      SkipIsMerge(w, w.desired[k], store[k]);
    }
  }

  lemma EnumerateEmpty(list: seq<EndpointSlice>, m: Store, seen: set<string>)
    requires Enumerates(list, m, seen) && m.Keys <= seen
    ensures list == [] <==> m == map[]
  {
    if list != [] {
      assert Get(m, SliceKey(list[0])) == Some(list[0]);
    }
    if m != map[] {
      var k :| k in m;
      assert m[k] in list;
    }
  }

  lemma DiffEmpty(w: Wish, store: Store, d: ClusterDiff)
    requires w.Valid() && WellKeyed(store) && IsDiff(w, store, d)
    ensures d.missing == [] && d.changed == [] && d.undesired == [] <==> w.Settled(store)
  {
    EnumerateEmpty(d.missing, Missing(w, store), w.desired.Keys);
    EnumerateEmpty(d.changed, Changed(w, store), w.desired.Keys);
    EnumerateEmpty(d.undesired, Undesired(w, store), Existing(w, store).Keys);
    if d.missing == [] && d.changed == [] && d.undesired == [] {
      forall k | w.Reachable(k) ensures k in store && w.Owns(store[k]) && Same(Desired(w.desired[k]), store[k]) {
        assert k !in Missing(w, store) && k !in Changed(w, store);
      }
      forall k | k in store && w.Owns(store[k]) ensures k in w.desired {
        assert k !in Undesired(w, store);
      }
    }
  }

  /** The keys in `done` have been brought where they belong, the others are untouched. */
  ghost predicate Progress(w: Wish, store: Store, now: Store, done: set<string>)
    requires w.Valid()
  {
    forall k :: Get(now, k) == if k in done then w.Target(k, Get(store, k)) else Get(store, k)
  }

  function KeysOf(list: seq<EndpointSlice>): set<string> {
    set s | s in list :: SliceKey(s)
  }

  lemma KeysOfNext(list: seq<EndpointSlice>, i: nat)
    requires i < |list| && forall i, j | 0 <= i < j < |list| :: SliceKey(list[i]) != SliceKey(list[j])
    ensures SliceKey(list[i]) !in KeysOf(list[..i])
    ensures KeysOf(list[..i + 1]) == KeysOf(list[..i]) + {SliceKey(list[i])}
  {
    assert list[..i + 1] == list[..i] + [list[i]];
    forall k | k in KeysOf(list[..i]) + {SliceKey(list[i])} ensures k in KeysOf(list[..i + 1]) {
      if k != SliceKey(list[i]) {
        var s :| s in list[..i] && SliceKey(s) == k;
        assert s in list[..i + 1];
      } else {
        assert list[i] in list[..i + 1];
      }
    }
  }

  lemma KeysOfAll(list: seq<EndpointSlice>, m: Store, seen: set<string>)
    requires Enumerates(list, m, seen) && m.Keys <= seen
    requires forall k | k in m :: SliceKey(m[k]) == k
    ensures KeysOf(list) == m.Keys
  {
    forall k | k in m.Keys ensures k in KeysOf(list) {
      assert m[k] in list && SliceKey(m[k]) == k;
    }
  }

  /** The next key of a list is still to be done. */
  lemma NextKey(list: seq<EndpointSlice>, m: Store, seen: set<string>, before: set<string>, i: nat)
    requires Enumerates(list, m, seen) && before !! m.Keys && i < |list|
    ensures Get(m, SliceKey(list[i])) == Some(list[i])
    ensures SliceKey(list[i]) !in before + KeysOf(list[..i])
    ensures before + KeysOf(list[..i + 1]) == before + KeysOf(list[..i]) + {SliceKey(list[i])}
  {
    KeysOfNext(list, i);
    assert SliceKey(list[i]) in m.Keys;
  }
}
