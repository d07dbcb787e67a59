// The cache as a replica of a changing set of slices.
module Replica {
  import opened Text
  import opened Names
  import opened Slices
  import opened CacheView
  import opened Feeder
  import DnsCache
  import Wildcards

  /** A slice changes or disappears, or its key is reconciled; a read may fail. */
  datatype Event = Change(key: string, slice: Option<EndpointSlice>) | Reconcile(key: string, readable: bool)

  /** `settled` holds the keys reconciled since their slice last changed and the process last started. */
  datatype State = State(store: Store, view: View, settled: set<string>)

  function ReplyTo(store: Store, event: Event): Reply
    requires event.Reconcile?
  {
    if !event.readable then Unavailable
    else if event.key in store then Found(store[event.key])
    else NotFound
  }

  /** A crash loses the cache: the process starts again with an empty one. */
  predicate Crashes(s: State, event: Event) {
    event.Reconcile? && ReplyTo(s.store, event).NotFound? && ByKey(s.view.flat, event.key).None?
  }

  function Next(parse: ParseIP, s: State, event: Event): State {
    match event
    case Change(key, None) => State(s.store - {key}, s.view, s.settled - {key})
    case Change(key, Some(slice)) => State(s.store[key := slice], s.view, s.settled - {key})
    case Reconcile(key, readable) =>
      if Crashes(s, event) then State(s.store, EmptyView, {})
      else State(s.store, Fed(parse, s.view, key, ReplyTo(s.store, event)),
                 if readable then s.settled + {key} else s.settled)
  }

  function Run(parse: ParseIP, store: Store, events: seq<Event>): State {
    if events == [] then State(store, EmptyView, {})
    else Next(parse, Run(parse, store, events[..|events| - 1]), events[|events| - 1])
  }

  /** What the cache should hold for a key. */
  function Expected(parse: ParseIP, store: Store, key: string): Option<Entry> {
    if key in store && !Ignored(store[key]) then Some(Normalise(parse, Record(parse, key, store[key]))) else None
  }

  predicate Agrees(parse: ParseIP, s: State, key: string) {
    ByKey(s.view.flat, key) == Expected(parse, s.store, key)
  }

  predicate OnIgnored(s: State, key: string) {
    key in s.store && Ignored(s.store[key])
  }

  /** A reconcile of one key leaves what every other key reads alone. */
  lemma FedReads(parse: ParseIP, view: View, key: string, reply: Reply, other: string)
    requires view.Valid()
    ensures Fed(parse, view, key, reply).Valid()
    ensures other != key ==> ByKey(Fed(parse, view, key, reply).flat, other) == ByKey(view.flat, other)
    ensures reply.Found? && !Ignored(reply.slice) ==>
              ByKey(Fed(parse, view, key, reply).flat, key) == Some(Normalise(parse, Record(parse, key, reply.slice)))
    ensures reply.NotFound? ==> ByKey(Fed(parse, view, key, reply).flat, key) == None
  {
    match reply
    case Found(s) =>
      if !Ignored(s) {
        DnsCache.UpsertLaws(parse, view, Record(parse, key, s), "", key);
        DnsCache.UpsertLaws(parse, view, Record(parse, key, s), "", other);
      }
    case NotFound =>
      DnsCache.DeleteByKeyLaws(view, key, "", key);
      DnsCache.DeleteByKeyLaws(view, key, "", other);
    case Unavailable =>
  }

  ghost predicate Invariant(parse: ParseIP, s: State) {
    s.view.Valid() && forall key | key in s.settled :: Agrees(parse, s, key) || OnIgnored(s, key)
  }

  lemma NextKeepsInvariant(parse: ParseIP, s: State, event: Event)
    requires Invariant(parse, s)
    ensures Invariant(parse, Next(parse, s, event))
  {
    var next := Next(parse, s, event);
    if event.Reconcile? && !Crashes(s, event) {
      FedReads(parse, s.view, event.key, ReplyTo(s.store, event), event.key);
      forall key | key in next.settled ensures Agrees(parse, next, key) || OnIgnored(next, key) {
        FedReads(parse, s.view, event.key, ReplyTo(s.store, event), key);
      }
    }
  }

  // ---------- What the history says ----------

  /** The slices after the changes of a run. */
  function StoreAfter(store: Store, events: seq<Event>): Store {
    if events == [] then store
    else
      var before := StoreAfter(store, events[..|events| - 1]);
      match events[|events| - 1]
      case Change(key, None) => before - {key}
      case Change(key, Some(slice)) => before[key := slice]
      case Reconcile(_, _) => before
  }

  /**
   * What a key reads, told from the events: the slice of its last readable reconcile that was not
   * ignored, unless a later reconcile found the slice gone, or one of any key never cached crashed.
   */
  function Reading(parse: ParseIP, store: Store, events: seq<Event>, key: string): Option<Entry>
    decreases |events|
  {
    if events == [] then None
    else
      var earlier, event := events[..|events| - 1], events[|events| - 1];
      var before := Reading(parse, store, earlier, key);
      if event.Change? || !event.readable then before
      else
        var slices := StoreAfter(store, earlier);
        if event.key in slices then
          if event.key == key && !Ignored(slices[key]) then Some(Normalise(parse, Record(parse, key, slices[key])))
          else before
        else if event.key == key || Reading(parse, store, earlier, event.key).None? then None
        else before
  }

  /** A reconcile crashes the process: readable, of a slice that is gone, and never cached or no longer. */
  predicate CrashesAt(parse: ParseIP, store: Store, events: seq<Event>, event: Event) {
    && event.Reconcile? && event.readable
    && event.key !in StoreAfter(store, events) && Reading(parse, store, events, event.key).None?
  }

  /** The cache is a function of the history: what each key reads, and when the process crashes. */
  lemma {:induction false} HistoryReads(parse: ParseIP, store: Store, events: seq<Event>)
    ensures var s := Run(parse, store, events);
            && s.store == StoreAfter(store, events) && s.view.Valid()
            && (forall key :: ByKey(s.view.flat, key) == Reading(parse, store, events, key))
            && (forall event :: Crashes(s, event) <==> CrashesAt(parse, store, events, event))
    decreases |events|
  {
    if events != [] {
      var earlier, event := events[..|events| - 1], events[|events| - 1];
      HistoryReads(parse, store, earlier);
      var s, next := Run(parse, store, earlier), Run(parse, store, events);
      if event.Reconcile? {
        FedReads(parse, s.view, event.key, ReplyTo(s.store, event), event.key);
      }
      forall key ensures ByKey(next.view.flat, key) == Reading(parse, store, events, key) {
        assert ByKey(s.view.flat, key) == Reading(parse, store, earlier, key);
        if event.Reconcile? {
          FedReads(parse, s.view, event.key, ReplyTo(s.store, event), key);
        }
      }
    }
  }

  lemma {:induction false} RunKeepsInvariant(parse: ParseIP, store: Store, events: seq<Event>)
    ensures Invariant(parse, Run(parse, store, events))
    decreases |events|
  {
    if events != [] {
      RunKeepsInvariant(parse, store, events[..|events| - 1]);
      NextKeepsInvariant(parse, Run(parse, store, events[..|events| - 1]), events[|events| - 1]);
    }
  }

  /**
   * The replica invariant, over every interleaving of changes, reconciles, failed reads and
   * crashes: a key reconciled since its last change reads exactly what its slice says, except that
   * of an ignored slice, which is stale exactly when the history left an earlier slice cached.
   */
  lemma SettledKeysAgree(parse: ParseIP, store: Store, events: seq<Event>, key: string)
    requires key in Run(parse, store, events).settled
    ensures var s, slices := Run(parse, store, events), StoreAfter(store, events);
            Agrees(parse, s, key) <==>
            !(key in slices && Ignored(slices[key]) && Reading(parse, store, events, key).Some?)
  {
    HistoryReads(parse, store, events);
    RunKeepsInvariant(parse, store, events);
  }

  /** No change gives an ignored slice to a key that is cached at that moment. */
  ghost predicate NoneTurnsIgnored(parse: ParseIP, store: Store, events: seq<Event>) {
    forall i | 0 <= i < |events| && events[i].Change? && events[i].slice.Some? && Ignored(events[i].slice.value) ::
      Reading(parse, store, events[..i], events[i].key).None?
  }

  lemma {:induction false} IgnoredNeverCached(parse: ParseIP, store: Store, events: seq<Event>, key: string)
    requires NoneTurnsIgnored(parse, store, events)
    requires key in StoreAfter(store, events) && Ignored(StoreAfter(store, events)[key])
    ensures Reading(parse, store, events, key).None?
    decreases |events|
  {
    if events != [] {
      var earlier, event := events[..|events| - 1], events[|events| - 1];
      forall i | 0 <= i < |earlier| && earlier[i].Change? && earlier[i].slice.Some? && Ignored(earlier[i].slice.value)
        ensures Reading(parse, store, earlier[..i], earlier[i].key).None?
      {
        assert earlier[..i] == events[..i] && earlier[i] == events[i];
      }
      if event.Change? && event.key == key {
        assert events[..|events| - 1] == earlier;
      } else {
        IgnoredNeverCached(parse, store, earlier, key);
      }
    }
  }

  /** If no key turns ignored while it is cached, every settled key agrees, throughout. */
  lemma AllSettledAgree(parse: ParseIP, store: Store, events: seq<Event>, key: string)
    requires NoneTurnsIgnored(parse, store, events) && key in Run(parse, store, events).settled
    ensures Agrees(parse, Run(parse, store, events), key)
  {
    SettledKeysAgree(parse, store, events, key);
    var slices := StoreAfter(store, events);
    if key in slices && Ignored(slices[key]) {
      IgnoredNeverCached(parse, store, events, key);
    }
  }

  /**
   * Once everything has settled, an exact name answers with the entries of all slices that carry
   * it, and no others.
   */
  lemma SettledNameListsSlices(parse: ParseIP, store: Store, events: seq<Event>, fqdn: string)
    requires NoneTurnsIgnored(parse, store, events)
    requires var s := Run(parse, store, events);
             && (forall key | key in s.store || ByKey(s.view.flat, key).Some? :: key in s.settled)
             && s.view.Stored(Canonical(fqdn))
    ensures var s := Run(parse, store, events);
            forall e :: e in s.view.Lookup(fqdn) <==> Expected(parse, s.store, e.key) == Some(e) && NameOf(e) == Canonical(fqdn)
  {
    var s := Run(parse, store, events);
    HistoryReads(parse, store, events);
    Wildcards.ExactNameListsAll(s.view, fqdn);
    forall e ensures e in s.view.Lookup(fqdn) <==> Expected(parse, s.store, e.key) == Some(e) && NameOf(e) == Canonical(fqdn) {
      ByKeyMember(s.view.flat, e);
      if e.key in s.settled {
        AllSettledAgree(parse, store, events, e.key);
      }
    }
  }

  lemma RunMore(parse: ParseIP, store: Store, events: seq<Event>, event: Event)
    ensures Run(parse, store, events + [event]) == Next(parse, Run(parse, store, events), event)
  {
    assert (events + [event])[..|events|] == events;
  }

  /**
   * A run that reaches the crash from any state in which a key is not cached: a slice without a
   * hostname is created, reconciled, removed and reconciled, and every other settled key is lost.
   */
  lemma UnannotatedSliceCrashes(parse: ParseIP, store: Store, events: seq<Event>, key: string, bare: EndpointSlice)
    requires Ignored(bare) && Reading(parse, store, events, key).None?
    ensures var before := events + [Change(key, Some(bare))] + [Reconcile(key, true)] + [Change(key, None)];
            && CrashesAt(parse, store, before, Reconcile(key, true))
            && Run(parse, store, before).settled == Run(parse, store, events).settled - {key}
            && Run(parse, store, before + [Reconcile(key, true)]) == State(StoreAfter(store, before), EmptyView, {})
  {
    var one := events + [Change(key, Some(bare))];
    var two := one + [Reconcile(key, true)];
    var three := two + [Change(key, None)];
    RunMore(parse, store, events, Change(key, Some(bare)));
    RunMore(parse, store, one, Reconcile(key, true));
    RunMore(parse, store, two, Change(key, None));
    RunMore(parse, store, three, Reconcile(key, true));
    HistoryReads(parse, store, events);
    HistoryReads(parse, store, three);
    assert Run(parse, store, one).view == Run(parse, store, two).view == Run(parse, store, three).view;
    assert Crashes(Run(parse, store, three), Reconcile(key, true));
  }

  /** Reconciling an ignored slice never removes what was cached for it earlier. */
  lemma StaleAfterLosingHostname(parse: ParseIP, key: string, s: EndpointSlice, bare: EndpointSlice)
    requires !Ignored(s) && Ignored(bare)
    ensures var events := [Reconcile(key, true), Change(key, Some(bare)), Reconcile(key, true)];
            var end := Run(parse, map[key := s], events);
            key in end.settled && !Agrees(parse, end, key)
  {
    var events := [Reconcile(key, true), Change(key, Some(bare)), Reconcile(key, true)];
    var one, two := [Reconcile(key, true)], [Reconcile(key, true), Change(key, Some(bare))];
    assert events[..2] == two && two[..1] == one && one[..0] == [];
    var first := Run(parse, map[key := s], one);
    assert Run(parse, map[key := s], one[..0]) == State(map[key := s], EmptyView, {});
    assert first == Next(parse, State(map[key := s], EmptyView, {}), one[0]);
    FedReads(parse, EmptyView, key, Found(s), key);
    assert ByKey(first.view.flat, key).Some?;
  }

  /** One reconcile of every key that is stored or cached makes the whole cache exact. */
  lemma {:induction false} FullResync(parse: ParseIP, s: State, keys: seq<string>, key: string)
    requires s.view.Valid() && forall k | k in s.store :: !Ignored(s.store[k])
    requires forall i | 0 <= i < |keys| :: keys[i] in s.store || ByKey(s.view.flat, keys[i]).Some?
    requires forall i, j | 0 <= i < j < |keys| :: keys[i] != keys[j]
    ensures var end := Resync(parse, s, keys);
            && end.store == s.store && end.view.Valid()
            && (if key in keys then Agrees(parse, end, key) else ByKey(end.view.flat, key) == ByKey(s.view.flat, key))
    decreases |keys|
  {
    if keys != [] {
      var mid := Next(parse, s, Reconcile(keys[0], true));
      ResyncStep(parse, s, keys[0], keys[0]);
      ResyncStep(parse, s, keys[0], key);
      forall i | 0 <= i < |keys[1..]| ensures keys[1..][i] in mid.store || ByKey(mid.view.flat, keys[1..][i]).Some? {
        ResyncStep(parse, s, keys[0], keys[i + 1]);
      }
      FullResync(parse, mid, keys[1..], key);
      assert keys == [keys[0]] + keys[1..];
    }
  }

  /** One reconcile of a stored or cached key whose slice is not ignored. */
  lemma ResyncStep(parse: ParseIP, s: State, key: string, other: string)
    requires s.view.Valid() && (key in s.store ==> !Ignored(s.store[key]))
    requires key in s.store || ByKey(s.view.flat, key).Some?
    ensures var next := Next(parse, s, Reconcile(key, true));
            && next.store == s.store && next.view.Valid() && Agrees(parse, next, key)
            && (other != key ==> ByKey(next.view.flat, other) == ByKey(s.view.flat, other))
  {
    FedReads(parse, s.view, key, ReplyTo(s.store, Reconcile(key, true)), other);
  }

  function Resync(parse: ParseIP, s: State, keys: seq<string>): State
    decreases |keys|
  {
    if keys == [] then s else Resync(parse, Next(parse, s, Reconcile(keys[0], true)), keys[1..])
  }
}
