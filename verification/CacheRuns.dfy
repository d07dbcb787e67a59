// What holds of the cache after any sequence of writes.
module CacheRuns {
  import opened Text
  import opened Names
  import opened CacheView
  import DnsCache

  datatype Op = Upsert(entry: Entry) | Delete(fqdn: string) | DeleteByResourceKey(key: string)

  function Step(parse: ParseIP, view: View, op: Op): View {
    match op
    case Upsert(entry) => view.Upsert(parse, entry)
    case Delete(fqdn) => view.Delete(fqdn)
    case DeleteByResourceKey(key) => view.DeleteByKey(key)
  }

  function Run(parse: ParseIP, ops: seq<Op>): View {
    if ops == [] then EmptyView
    else Step(parse, Run(parse, ops[..|ops| - 1]), ops[|ops| - 1])
  }

  /** The stored form of an entry: aliases canonical, and the name too once there is an address. */
  ghost predicate StoredForm(parse: ParseIP, e: Entry) {
    && (forall a | a in e.addresses :: parse(a).Some? || IsCanonical(a))
    && (e.addresses != [] ==> IsCanonical(e.fqdn))
  }

  lemma NormaliseStoredForm(parse: ParseIP, e: Entry)
    ensures StoredForm(parse, Normalise(parse, e))
  {
    CanonicalIdempotent(e.fqdn);
    forall a | a in Normalise(parse, e).addresses ensures parse(a).Some? || IsCanonical(a) {
      var i :| 0 <= i < |e.addresses| && a == CanonicalAddress(parse, e.addresses[i]);
      CanonicalIdempotent(e.addresses[i]);
    }
  }

  lemma StepKeepsStoredForm(parse: ParseIP, view: View, op: Op)
    requires view.Valid() && forall e | e in view.flat :: StoredForm(parse, e)
    ensures Step(parse, view, op).Valid() && forall e | e in Step(parse, view, op).flat :: StoredForm(parse, e)
  {
    var next := Step(parse, view, op);
    match op
    case Upsert(entry) =>
      DnsCache.UpsertLaws(parse, view, entry, "", "");
      forall e | e in next.flat ensures StoredForm(parse, e) {
        ByKeyMember(next.flat, e);
        DnsCache.UpsertLaws(parse, view, entry, "", e.key);
        NormaliseStoredForm(parse, entry);
        ByKeyFound(view.flat, e.key);
      }
    case Delete(fqdn) =>
      DnsCache.DeleteLaws(view, fqdn);
      forall e | e in next.flat ensures StoredForm(parse, e) {
        ByKeyMember(next.flat, e);
        ByKeyFound(view.flat, e.key);
      }
    case DeleteByResourceKey(key) =>
      DnsCache.DeleteByKeyLaws(view, key, "", "");
      forall e | e in next.flat ensures StoredForm(parse, e) {
        ByKeyMember(next.flat, e);
        DnsCache.DeleteByKeyLaws(view, key, "", e.key);
        ByKeyFound(view.flat, e.key);
      }
  }

  /** Every reachable cache: one entry per key, emptied names without entries, stored form throughout. */
  lemma {:induction false} ReachableIsConsistent(parse: ParseIP, ops: seq<Op>)
    ensures Run(parse, ops).Valid()
    ensures forall e | e in Run(parse, ops).flat :: StoredForm(parse, e)
  {
    if ops != [] {
      ReachableIsConsistent(parse, ops[..|ops| - 1]);
      StepKeepsStoredForm(parse, Run(parse, ops[..|ops| - 1]), ops[|ops| - 1]);
    }
  }

  /** What a resource key reads, told from the write history alone. */
  function Reading(parse: ParseIP, ops: seq<Op>, key: string): Option<Entry> {
    if ops == [] then None
    else
      var before := Reading(parse, ops[..|ops| - 1], key);
      match ops[|ops| - 1]
      case Upsert(entry) => if entry.key == key then Some(Normalise(parse, entry)) else before
      case Delete(fqdn) => if before.Some? && NameOf(before.value) == Canonical(fqdn) then None else before
      case DeleteByResourceKey(k) => if k == key then None else before
  }

  /** The last write of a key is what it reads, and it is listed exactly under its own name. */
  lemma {:induction false} LastWriteWins(parse: ParseIP, ops: seq<Op>, key: string)
    ensures ByKey(Run(parse, ops).flat, key) == Reading(parse, ops, key)
    ensures forall name :: ByKey(Under(Run(parse, ops).flat, name), key).Some? <==>
              Reading(parse, ops, key).Some? && NameOf(Reading(parse, ops, key).value) == name
  {
    ReachableIsConsistent(parse, ops);
    if ops != [] {
      var before := ops[..|ops| - 1];
      ReachableIsConsistent(parse, before);
      LastWriteWins(parse, before, key);
      var view := Run(parse, before);
      match ops[|ops| - 1]
      case Upsert(entry) => DnsCache.UpsertLaws(parse, view, entry, "", key);
      case Delete(fqdn) => ByKeyNotUnder(view.flat, Canonical(fqdn), key);
      case DeleteByResourceKey(k) => DnsCache.DeleteByKeyLaws(view, k, "", key);
    }
    forall name ensures ByKey(Under(Run(parse, ops).flat, name), key).Some? <==>
        Reading(parse, ops, key).Some? && NameOf(Reading(parse, ops, key).value) == name
    {
      ByKeyUnder(Run(parse, ops).flat, name, key);
    }
  }

  /** Only deletion by key leaves a name behind, and only when its last entry goes. */
  lemma EmptiedOnlyByKey(parse: ParseIP, view: View, op: Op, name: string)
    requires view.Valid()
    ensures name in Step(parse, view, op).emptied && name !in view.emptied <==>
            op.DeleteByResourceKey? && |Under(view.flat, name)| == 1 && Under(view.flat, name)[0].key == op.key
  {
    match op
    case Upsert(entry) =>
    case Delete(fqdn) =>
    case DeleteByResourceKey(key) =>
      UnderWithout(view.flat, key, name);
      ByKeyUnder(view.flat, name, key);
      var list := Under(view.flat, name);
      if ByKey(list, key).Some? {
        assert Without(list, key) == [] <==> |list| == 1;
      }
      if |list| == 1 && list[0].key == key {
        assert ByKey(list, key) == Some(list[0]);
      }
  }

  /** Upsert and Delete take a name out of the emptied set; nothing else does. */
  lemma EmptiedUntilWritten(parse: ParseIP, view: View, op: Op, name: string)
    requires view.Valid() && name in view.emptied
    ensures name !in Step(parse, view, op).emptied <==>
            (op.Upsert? && NameOf(op.entry) == name) || (op.Delete? && Canonical(op.fqdn) == name)
  {}
}
