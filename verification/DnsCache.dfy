// The two-map cache of the DNS server, proved to be the flat list of CacheView.
module DnsCache {
  import opened Text
  import opened Names
  import opened CacheView

  class DNSCache {
    const parseIP: ParseIP
    var entries: map<string, seq<Entry>>
    var keyToName: map<string, string>
    ghost var view: View

    /** `entries` groups the flat list by name, and `keyToName` indexes it by resource key. */
    ghost predicate Valid()
      reads this
    {
      view.Valid() && Groups(entries, view) && Indexes(keyToName, view.flat)
    }

    constructor (parseIP: ParseIP)
      ensures Valid()
      ensures view == EmptyView && this.parseIP == parseIP
    {
      this.parseIP := parseIP;
      entries, keyToName := map[], map[];
      view := EmptyView;
    }

    /** Removes the entry of `key` from the list of `name`, which keeps its place in the map. */
    method RemoveFromList(name: string, key: string)
      requires Valid() && name in entries
      modifies this`entries
      ensures entries == old(entries)[name := Without(old(entries)[name], key)]
    {
      var list := entries[name];
      for i := 0 to |list|
        invariant forall j | 0 <= j < i :: list[j].key != key
        invariant entries == old(entries)
      {
        if list[i].key == key {
          WithoutAt(list, key, i);
          entries := entries[name := list[..i] + list[i + 1..]];
          return;
        }
        // DeleteByResourceKey tests for an emptied list here, before anything is removed.
        assert |entries[name]| != 0;
      }
      ByKeyFound(list, key);
      WithoutAbsent(list, key);
    }

    method Upsert(entry: Entry)
      requires Valid()
      modifies this
      ensures Valid()
      ensures view == old(view).Upsert(parseIP, entry)
    {
      var name := Canonical(entry.fqdn);
      if entry.key in keyToName {
        var oldName := keyToName[entry.key];
        if oldName != name {
          MovedIsListed(view, entry.key);
          RemoveFromList(oldName, entry.key);
          if |entries[oldName]| == 0 {
            entries := entries - {oldName};
          }
        }
      }
      assert entries == Vacated(old(entries), keyToName, entry.key, name);
      var stored := CanonicaliseEntry(entry);
      NormaliseKeepsName(parseIP, entry);
      VacatedList(old(entries), keyToName, view, entry.key, name, name);
      UnderMembers(view.flat, name);
      PutIntoList(name, stored);
      keyToName := keyToName[entry.key := name];
      UpsertGroups(parseIP, old(entries), old(keyToName), view, entry);
      view := view.Upsert(parseIP, entry);
    }

    /** Canonicalises every address that is not an IP, and the name once per address. */
    method CanonicaliseEntry(entry: Entry) returns (stored: Entry)
      ensures stored == Normalise(parseIP, entry)
    {
      stored := entry;
      CanonicalIdempotent(entry.fqdn);
      for i := 0 to |entry.addresses|
        invariant stored.key == entry.key
        invariant stored.fqdn == if i == 0 then entry.fqdn else Canonical(entry.fqdn)
        invariant |stored.addresses| == |entry.addresses|
        invariant forall j | 0 <= j < i :: stored.addresses[j] == CanonicalAddress(parseIP, entry.addresses[j])
        invariant forall j | i <= j < |entry.addresses| :: stored.addresses[j] == entry.addresses[j]
      {
        if parseIP(entry.addresses[i]).None? {
          stored := stored.(addresses := stored.addresses[i := Canonical(entry.addresses[i])]);
        }
        stored := stored.(fqdn := Canonical(stored.fqdn));
      }
    }

    /** Overwrites the first entry with the same key and name, or appends. */
    method PutIntoList(name: string, e: Entry)
      requires name == NameOf(e)
      requires forall i | 0 <= i < |List(entries, name)| :: NameOf(List(entries, name)[i]) == name
      modifies this`entries
      ensures entries == old(entries)[name := Put(List(old(entries), name), e)]
    {
      var list := List(entries, name);
      var updated := Overwrite(list, e);
      entries := entries[name := if updated.Some? then updated.value else list + [e]];
      if updated.None? {
        PutPastEnd(list, e);
      }
    }

    /** The list with the entry of the same key replaced, if there is one. */
    static method Overwrite(list: seq<Entry>, e: Entry) returns (updated: Option<seq<Entry>>)
      requires forall i | 0 <= i < |list| :: NameOf(list[i]) == NameOf(e)
      ensures updated.Some? ==> updated.value == Put(list, e)
      ensures updated.None? ==> forall i | 0 <= i < |list| :: list[i].key != e.key
    {
      for i := 0 to |list|
        invariant forall j | 0 <= j < i :: list[j].key != e.key
      {
        if list[i].key == e.key {
          PutAt(list, e, i);
          return Some(list[i := e]);
        }
      }
      return None;
    }

    method Delete(fqdn: string)
      requires Valid()
      modifies this
      ensures Valid()
      ensures view == old(view).Delete(fqdn)
    {
      var name := Canonical(fqdn);
      ForgetKeys(List(entries, name));
      entries := entries - {name};
      DeleteGroups(old(entries), old(keyToName), view, fqdn);
      view := view.Delete(fqdn);
    }

    /** Drops the keys of a list from the index. */
    method ForgetKeys(list: seq<Entry>)
      modifies this`keyToName
      ensures keyToName == old(keyToName) - KeysOf(list)
    {
      for i := 0 to |list|
        invariant keyToName == old(keyToName) - KeysOf(list[..i])
      {
        keyToName := keyToName - {list[i].key};
        KeysOfAppend(list[..i], list[i]);
        assert list[..i + 1] == list[..i] + [list[i]];
      }
      assert list[..|list|] == list;
    }

    method DeleteByResourceKey(resourceKey: string)
      requires Valid()
      modifies this
      ensures Valid()
      ensures view == old(view).DeleteByKey(resourceKey)
    {
      if resourceKey in keyToName {
        MovedIsListed(view, resourceKey);
        RemoveFromList(keyToName[resourceKey], resourceKey);
        keyToName := keyToName - {resourceKey};
        DeleteByKeyGroups(old(entries), old(keyToName), view, resourceKey);
        view := view.DeleteByKey(resourceKey);
      }
    }

    method Lookup(fqdn: string) returns (found: seq<Entry>)
      requires Valid()
      ensures found == view.Lookup(fqdn)
    {
      var name := Canonical(fqdn);
      if name in entries {
        return entries[name];
      }
      var labels := Labels(name);
      while |labels| > 0
        invariant view.FirstWildcard(labels) == view.FirstWildcard(Labels(name))
      {
        var next := "*." + Join(labels[1..], '.') + ".";
        if next in entries {
          return entries[next];
        }
        labels := labels[1..];
      }
      return [];
    }

    method LookupByResourceKey(resourceKey: string) returns (found: Option<Entry>)
      requires Valid()
      ensures found == ByKey(view.flat, resourceKey)
    {
      if resourceKey in keyToName {
        var name := keyToName[resourceKey];
        var list := List(entries, name);
        ByKeyUnder(view.flat, name, resourceKey);
        MovedIsListed(view, resourceKey);
        for i := 0 to |list|
          invariant ByKey(list, resourceKey) == ByKey(list[i..], resourceKey)
        {
          if list[i].key == resourceKey {
            return Some(list[i]);
          }
          assert list[i..][1..] == list[i + 1..];
        }
      }
      return None;
    }

    /** Counts addresses entry by entry, leaving as soon as the list cannot be valid. */
    method IsValid(fqdn: string) returns (valid: bool)
      requires Valid()
      ensures valid <==> ValidAnswer(parseIP, view.Lookup(fqdn))
    {
      var list := Lookup(Canonical(fqdn));
      CanonicalIdempotent(fqdn);
      if |list| == 0 {
        return false;
      }
      var addressCount := 0;
      var hasCNAMEEntry := false;
      for i := 0 to |list|
        invariant Scanned(parseIP, Seen(list, i, 0), addressCount, hasCNAMEEntry)
      {
        for j := 0 to |list[i].addresses|
          invariant Scanned(parseIP, Seen(list, i, j), addressCount, hasCNAMEEntry)
        {
          var address := list[i].addresses[j];
          SeenNext(list, i, j);
          if hasCNAMEEntry {
            MixedIsInvalid(parseIP, list, i, j);
            return false;
          }
          if parseIP(address).Some? {
            addressCount := addressCount + 1;
          } else {
            if addressCount > 0 {
              MixedIsInvalid(parseIP, list, i, j);
              return false;
            }
            hasCNAMEEntry := true;
          }
        }
        SeenEntry(list, i);
      }
      assert list[..|list|] == list;
      return true;
    }
  }

  /** The list of a name, nil when the name is absent. */
  function List(entries: map<string, seq<Entry>>, name: string): seq<Entry> {
    if name in entries then entries[name] else []
  }

  ghost predicate Groups(entries: map<string, seq<Entry>>, view: View) {
    && (forall name :: name in entries <==> view.Stored(name))
    && (forall name | name in entries :: entries[name] == Under(view.flat, name))
  }

  ghost predicate Indexes(keyToName: map<string, string>, flat: seq<Entry>) {
    && (forall key :: key in keyToName <==> ByKey(flat, key).Some?)
    && (forall key | key in keyToName :: keyToName[key] == NameOf(ByKey(flat, key).value))
  }

  /** The lists once a key that moves to `name` has left its old list, dropped if now empty. */
  ghost function Vacated(entries: map<string, seq<Entry>>, keyToName: map<string, string>, key: string, name: string):
      map<string, seq<Entry>>
  {
    if key !in keyToName || keyToName[key] == name then entries
    else
      var oldName := keyToName[key];
      var rest := Without(List(entries, oldName), key);
      if rest == [] then entries - {oldName} else entries[oldName := rest]
  }

  /** What the scan of IsValid knows: all addresses so far are IPs, or there is just one alias. */
  ghost predicate Scanned(parse: ParseIP, seen: seq<string>, addressCount: nat, hasCNAMEEntry: bool) {
    if hasCNAMEEntry then |seen| == 1 && addressCount == 0 && parse(seen[0]).None?
    else addressCount == |seen| && forall a | a in seen :: parse(a).Some?
  }

  /** All addresses of a list, entry after entry. */
  function Addresses(list: seq<Entry>): seq<string> {
    if list == [] then [] else list[0].addresses + Addresses(list[1..])
  }

  /** Section 3.6.2 of RFC 1034: IP addresses only, or a single alias. */
  ghost predicate ValidAnswer(parse: ParseIP, list: seq<Entry>) {
    var all := Addresses(list);
    list != [] && ((forall a | a in all :: parse(a).Some?) || |all| == 1)
  }

  /** Validity does not depend on the order of entries or addresses. */
  lemma ValidIgnoresOrder(parse: ParseIP, a: seq<Entry>, b: seq<Entry>)
    requires multiset(Addresses(a)) == multiset(Addresses(b)) && (a == [] <==> b == [])
    ensures ValidAnswer(parse, a) <==> ValidAnswer(parse, b)
  {
    var x, y := Addresses(a), Addresses(b);
    assert |x| == |multiset(x)| == |multiset(y)| == |y|;
    assert forall s :: s in x <==> s in multiset(x);
    assert forall s :: s in y <==> s in multiset(y);
  }

  lemma {:induction false} AddressesAppend(list: seq<Entry>, e: Entry)
    ensures Addresses(list + [e]) == Addresses(list) + e.addresses
  {
    if list != [] {
      assert (list + [e])[1..] == list[1..] + [e];
      AddressesAppend(list[1..], e);
    }
  }

  lemma {:induction false} AddressesConcat(a: seq<Entry>, b: seq<Entry>)
    ensures Addresses(a + b) == Addresses(a) + Addresses(b)
  {
    if a == [] {
      assert a + b == b;
    } else {
      assert (a + b)[1..] == a[1..] + b;
      AddressesConcat(a[1..], b);
    }
  }

  /** The addresses scanned before address j of entry i. */
  ghost function Seen(list: seq<Entry>, i: nat, j: nat): seq<string>
    requires i <= |list| && (i < |list| ==> j <= |list[i].addresses|) && (i == |list| ==> j == 0)
  {
    Addresses(list[..i]) + if i < |list| then list[i].addresses[..j] else []
  }

  lemma SeenNext(list: seq<Entry>, i: nat, j: nat)
    requires i < |list| && j < |list[i].addresses|
    ensures Seen(list, i, j + 1) == Seen(list, i, j) + [list[i].addresses[j]]
  {
    assert list[i].addresses[..j + 1] == list[i].addresses[..j] + [list[i].addresses[j]];
  }

  lemma SeenEntry(list: seq<Entry>, i: nat)
    requires i < |list|
    ensures Seen(list, i, |list[i].addresses|) == Seen(list, i + 1, 0)
  {
    AddressesAppend(list[..i], list[i]);
    assert list[..i + 1] == list[..i] + [list[i]];
    assert list[i].addresses[..|list[i].addresses|] == list[i].addresses;
  }

  /** A second address beside an alias already rules the list out. */
  lemma MixedIsInvalid(parse: ParseIP, list: seq<Entry>, i: nat, j: nat)
    requires i < |list| && j < |list[i].addresses|
    requires var seen := Seen(list, i, j); seen != [] && (parse(seen[0]).None? || parse(list[i].addresses[j]).None?)
    ensures !ValidAnswer(parse, list)
  {
    var seen, all := Seen(list, i, j), Addresses(list);
    assert list == list[..i] + list[i..];
    AddressesConcat(list[..i], list[i..]);
    assert all == Addresses(list[..i]) + (list[i].addresses + Addresses(list[i..][1..]));
    assert all[0] == seen[0] && all[|seen|] == list[i].addresses[j];
  }

  function KeysOf(list: seq<Entry>): set<string> {
    set e | e in list :: e.key
  }

  lemma KeysOfAppend(list: seq<Entry>, e: Entry)
    ensures KeysOf(list + [e]) == KeysOf(list) + {e.key}
  {
    forall k | k in KeysOf(list) + {e.key} ensures k in KeysOf(list + [e]) {
      if k in KeysOf(list) {
        var x :| x in list && x.key == k;
        assert x in list + [e];
      } else {
        assert e in list + [e];
      }
    }
  }

  lemma {:induction false} PutAt(list: seq<Entry>, e: Entry, i: nat)
    requires i < |list| && list[i].key == e.key && NameOf(list[i]) == NameOf(e)
    requires forall j | 0 <= j < i :: list[j].key != e.key
    ensures Put(list, e) == list[i := e]
  {
    if i > 0 {
      PutAt(list[1..], e, i - 1);
    }
  }

  lemma {:induction false} PutPastEnd(list: seq<Entry>, e: Entry)
    requires forall j | 0 <= j < |list| :: list[j].key != e.key
    ensures Put(list, e) == list + [e]
  {
    if list != [] {
      PutPastEnd(list[1..], e);
    }
  }

  lemma {:induction false} WithoutAt(list: seq<Entry>, key: string, i: nat)
    requires i < |list| && list[i].key == key
    requires forall j | 0 <= j < i :: list[j].key != key
    ensures Without(list, key) == list[..i] + list[i + 1..]
  {
    if i > 0 {
      WithoutAt(list[1..], key, i - 1);
    }
  }

  lemma MovedIsListed(view: View, key: string)
    requires view.Valid() && ByKey(view.flat, key).Some?
    ensures var name := NameOf(ByKey(view.flat, key).value);
            Under(view.flat, name) != [] && ByKey(Under(view.flat, name), key).Some?
  {
    ByKeyUnder(view.flat, NameOf(ByKey(view.flat, key).value), key);
  }

  /** Upsert on the two maps is Upsert on the flat list. */
  lemma UpsertGroups(parse: ParseIP, entries: map<string, seq<Entry>>, keyToName: map<string, string>, view: View, entry: Entry)
    requires view.Valid() && Groups(entries, view) && Indexes(keyToName, view.flat)
    ensures view.Upsert(parse, entry).Valid()
    ensures
      var name := NameOf(entry);
      var vacated := Vacated(entries, keyToName, entry.key, name);
      Groups(vacated[name := Put(List(vacated, name), Normalise(parse, entry))], view.Upsert(parse, entry))
    ensures Indexes(keyToName[entry.key := NameOf(entry)], view.Upsert(parse, entry).flat)
  {
    UpsertLaws(parse, view, entry, "", "");
    UpsertIndexes(parse, keyToName, view, entry);
    var vacated := Vacated(entries, keyToName, entry.key, NameOf(entry));
    var after := vacated[NameOf(entry) := Put(List(vacated, NameOf(entry)), Normalise(parse, entry))];
    var next := view.Upsert(parse, entry);
    forall m
      ensures m in after <==> next.Stored(m)
      ensures m in after ==> after[m] == Under(next.flat, m)
    {
      UpsertList(parse, entries, keyToName, view, entry, m);
    }
  }

  lemma UpsertList(parse: ParseIP, entries: map<string, seq<Entry>>, keyToName: map<string, string>, view: View,
                   entry: Entry, m: string)
    requires view.Valid() && Groups(entries, view) && Indexes(keyToName, view.flat)
    ensures
      var name := NameOf(entry);
      var vacated := Vacated(entries, keyToName, entry.key, name);
      var after := vacated[name := Put(List(vacated, name), Normalise(parse, entry))];
      && (m in after <==> view.Upsert(parse, entry).Stored(m))
      && (m in after ==> after[m] == Under(view.Upsert(parse, entry).flat, m))
  {
    UpsertLaws(parse, view, entry, m, entry.key);
    VacatedList(entries, keyToName, view, entry.key, NameOf(entry), m);
    PutNonempty(Under(view.flat, m), Normalise(parse, entry));
  }

  lemma PutNonempty(list: seq<Entry>, e: Entry)
    ensures Put(list, e) != []
  {}

  lemma UpsertIndexes(parse: ParseIP, keyToName: map<string, string>, view: View, entry: Entry)
    requires view.Valid() && Indexes(keyToName, view.flat)
    ensures Indexes(keyToName[entry.key := NameOf(entry)], view.Upsert(parse, entry).flat)
  {
    NormaliseKeepsName(parse, entry);
    forall key
      ensures ByKey(view.Upsert(parse, entry).flat, key) ==
              if key == entry.key then Some(Normalise(parse, entry)) else ByKey(view.flat, key)
    {
      UpsertLaws(parse, view, entry, "", key);
    }
  }

  lemma UpsertLaws(parse: ParseIP, view: View, entry: Entry, name: string, key: string)
    requires view.Valid()
    ensures view.Upsert(parse, entry).Valid()
    ensures Under(view.Upsert(parse, entry).flat, name) ==
            (if name == NameOf(entry) then Put(Under(view.flat, name), Normalise(parse, entry))
             else Without(Under(view.flat, name), entry.key))
    ensures ByKey(view.Upsert(parse, entry).flat, key) ==
            if key == entry.key then Some(Normalise(parse, entry)) else ByKey(view.flat, key)
  {
    var e, next := Normalise(parse, entry), view.Upsert(parse, entry);
    NormaliseKeepsName(parse, entry);
    UnderPut(view.flat, e, name);
    ByKeyPut(view.flat, e, key);
    forall m | m in next.emptied ensures Under(next.flat, m) == [] {
      UnderPut(view.flat, e, m);
    }
  }

  lemma VacatedList(entries: map<string, seq<Entry>>, keyToName: map<string, string>, view: View, key: string, name: string, m: string)
    requires view.Valid() && Groups(entries, view) && Indexes(keyToName, view.flat)
    ensures
      var vacated := Vacated(entries, keyToName, key, name);
      && List(vacated, m) == (if m == name then Under(view.flat, m) else Without(Under(view.flat, m), key))
      && (m != name ==> (m in vacated <==> Without(Under(view.flat, m), key) != [] || m in view.emptied))
  {
    assert m in entries <==> view.Stored(m);
    ByKeyUnder(view.flat, m, key);
    if ByKey(Under(view.flat, m), key).None? {
      WithoutAbsent(Under(view.flat, m), key);
    }
  }

  lemma DeleteLaws(view: View, name: string)
    requires view.Valid()
    ensures view.Delete(name).Valid()
    ensures forall other :: Under(view.Delete(name).flat, other) == if other == Canonical(name) then [] else Under(view.flat, other)
    ensures forall key :: ByKey(view.Delete(name).flat, key) ==
              if key in KeysOf(Under(view.flat, Canonical(name))) then None else ByKey(view.flat, key)
  {
    var n := Canonical(name);
    ByKeyNotUnder(view.flat, n, "");
    forall other ensures Under(NotUnder(view.flat, n), other) == if other == n then [] else Under(view.flat, other)
    {
      UnderNotUnder(view.flat, n, other);
    }
    forall key ensures ByKey(NotUnder(view.flat, n), key) ==
        if key in KeysOf(Under(view.flat, n)) then None else ByKey(view.flat, key)
    {
      ByKeyNotUnder(view.flat, n, key);
      ByKeyUnder(view.flat, n, key);
      ByKeyFound(Under(view.flat, n), key);
    }
  }

  /** Deleting a name on the two maps is deleting it on the flat list. */
  lemma DeleteGroups(entries: map<string, seq<Entry>>, keyToName: map<string, string>, view: View, fqdn: string)
    requires view.Valid() && Groups(entries, view) && Indexes(keyToName, view.flat)
    ensures view.Delete(fqdn).Valid()
    ensures Groups(entries - {Canonical(fqdn)}, view.Delete(fqdn))
    ensures Indexes(keyToName - KeysOf(List(entries, Canonical(fqdn))), view.Delete(fqdn).flat)
  {
    DeleteLaws(view, fqdn);
    assert List(entries, Canonical(fqdn)) == Under(view.flat, Canonical(fqdn));
  }

  lemma DeleteByKeyLaws(view: View, key: string, name: string, other: string)
    requires view.Valid()
    ensures view.DeleteByKey(key).Valid()
    ensures Under(view.DeleteByKey(key).flat, name) == Without(Under(view.flat, name), key)
    ensures ByKey(view.DeleteByKey(key).flat, other) == if other == key then None else ByKey(view.flat, other)
    ensures view.DeleteByKey(key).Stored(name) <==> view.Stored(name)
  {
    var next := view.DeleteByKey(key);
    UnderWithout(view.flat, key, name);
    ByKeyWithout(view.flat, key, other);
    ByKeyUnder(view.flat, name, key);
    if ByKey(Under(view.flat, name), key).None? {
      WithoutAbsent(Under(view.flat, name), key);
    }
    forall m | m in next.emptied ensures Under(next.flat, m) == [] {
      UnderWithout(view.flat, key, m);
    }
  }

  /** Deleting by key on the two maps is deleting by key on the flat list. */
  lemma DeleteByKeyGroups(entries: map<string, seq<Entry>>, keyToName: map<string, string>, view: View, key: string)
    requires view.Valid() && Groups(entries, view) && Indexes(keyToName, view.flat)
    requires key in keyToName && keyToName[key] in entries
    ensures view.DeleteByKey(key).Valid()
    ensures Groups(entries[keyToName[key] := Without(entries[keyToName[key]], key)], view.DeleteByKey(key))
    ensures Indexes(keyToName - {key}, view.DeleteByKey(key).flat)
  {
    var next := view.DeleteByKey(key);
    forall name
      ensures next.Stored(name) <==> view.Stored(name)
      ensures Under(next.flat, name) == if name == keyToName[key] then Without(Under(view.flat, name), key) else Under(view.flat, name)
    {
      DeletedList(keyToName, view, key, name);
    }
    DeletedIndexes(keyToName, view, key);
    DeleteByKeyLaws(view, key, "", key);
  }

  lemma DeletedList(keyToName: map<string, string>, view: View, key: string, name: string)
    requires view.Valid() && Indexes(keyToName, view.flat) && key in keyToName
    ensures view.DeleteByKey(key).Stored(name) <==> view.Stored(name)
    ensures Under(view.DeleteByKey(key).flat, name) ==
            if name == keyToName[key] then Without(Under(view.flat, name), key) else Under(view.flat, name)
  {
    DeleteByKeyLaws(view, key, name, key);
    ByKeyUnder(view.flat, name, key);
    if name != keyToName[key] {
      WithoutAbsent(Under(view.flat, name), key);
    }
  }

  lemma DeletedIndexes(keyToName: map<string, string>, view: View, key: string)
    requires view.Valid() && Indexes(keyToName, view.flat)
    ensures Indexes(keyToName - {key}, view.DeleteByKey(key).flat)
  {
    forall other
      ensures ByKey(view.DeleteByKey(key).flat, other) == if other == key then None else ByKey(view.flat, other)
    {
      DeleteByKeyLaws(view, key, "", other);
    }
  }
}
