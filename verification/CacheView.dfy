// What a DNS cache means: one flat list of entries, at most one per resource key,
// and the set of names whose list was emptied but never dropped.
module CacheView {
  import opened Text
  import opened Names

  datatype Entry = Entry(key: string, fqdn: string, addresses: seq<string>)

  /** net.ParseIP followed by String: the normal form of an address, if it is one. */
  type ParseIP = string -> Option<string>

  function NameOf(e: Entry): string {
    Canonical(e.fqdn)
  }

  function CanonicalAddress(parse: ParseIP, address: string): string {
    if parse(address).None? then Canonical(address) else address
  }

  /** An entry as Upsert stores it. The FQDN is left alone when there is no address. */
  function Normalise(parse: ParseIP, e: Entry): Entry {
    if e.addresses == [] then e
    else Entry(e.key, Canonical(e.fqdn),
               seq(|e.addresses|, i requires 0 <= i < |e.addresses| => CanonicalAddress(parse, e.addresses[i])))
  }

  lemma NormaliseKeepsName(parse: ParseIP, e: Entry)
    ensures NameOf(Normalise(parse, e)) == NameOf(e)
  {
    CanonicalIdempotent(e.fqdn);
  }

  /** The entry with a resource key. */
  function ByKey(flat: seq<Entry>, key: string): Option<Entry> {
    if flat == [] then None
    else if flat[0].key == key then Some(flat[0])
    else ByKey(flat[1..], key)
  }

  /** The entries of one name, in list order. */
  function Under(flat: seq<Entry>, name: string): seq<Entry> {
    if flat == [] then []
    else if NameOf(flat[0]) == name then [flat[0]] + Under(flat[1..], name)
    else Under(flat[1..], name)
  }

  function NotUnder(flat: seq<Entry>, name: string): seq<Entry> {
    if flat == [] then []
    else if NameOf(flat[0]) == name then NotUnder(flat[1..], name)
    else [flat[0]] + NotUnder(flat[1..], name)
  }

  function Without(flat: seq<Entry>, key: string): seq<Entry> {
    if flat == [] then []
    else if flat[0].key == key then flat[1..]
    else [flat[0]] + Without(flat[1..], key)
  }

  /** In place when the key keeps its name, otherwise removed and appended. */
  function Put(flat: seq<Entry>, e: Entry): seq<Entry> {
    if flat == [] then [e]
    else if flat[0].key == e.key then
      if NameOf(flat[0]) == NameOf(e) then [e] + flat[1..] else flat[1..] + [e]
    else [flat[0]] + Put(flat[1..], e)
  }

  /** No resource key occurs twice. */
  predicate DistinctKeys(flat: seq<Entry>) {
    flat == [] || (ByKey(flat[1..], flat[0].key).None? && DistinctKeys(flat[1..]))
  }

  datatype View = View(flat: seq<Entry>, emptied: set<string>) {

    /** The name has a list, possibly an empty one. */
    predicate Stored(name: string) {
      Under(flat, name) != [] || name in emptied
    }

    predicate Valid() {
      && DistinctKeys(flat)
      && forall name | name in emptied :: Under(flat, name) == []
    }

    function Upsert(parse: ParseIP, e: Entry): View {
      View(Put(flat, Normalise(parse, e)), emptied - {NameOf(e)})
    }

    function Delete(fqdn: string): View {
      View(NotUnder(flat, Canonical(fqdn)), emptied - {Canonical(fqdn)})
    }

    function DeleteByKey(key: string): View {
      match ByKey(flat, key)
      case None => this
      case Some(e) =>
        var rest := Without(flat, key);
        View(rest, if Under(rest, NameOf(e)) == [] then emptied + {NameOf(e)} else emptied)
    }

    /** The stored name that answers a query: the name itself, then each wildcard in turn. */
    function Answering(fqdn: string): Option<string> {
      var name := Canonical(fqdn);
      if Stored(name) then Some(name) else FirstWildcard(Labels(name))
    }

    function FirstWildcard(labels: seq<string>): Option<string> {
      if labels == [] then None
      else if Stored(WildcardOver(labels[1..])) then Some(WildcardOver(labels[1..]))
      else FirstWildcard(labels[1..])
    }

    function Lookup(fqdn: string): seq<Entry> {
      match Answering(fqdn)
      case None => []
      case Some(name) => Under(flat, name)
    }
  }

  const EmptyView := View([], {})

  /** The text "*.<labels>." that the lookup loop tries. */
  function WildcardOver(labels: seq<string>): string {
    "*." + Join(labels, '.') + "."
  }

  // ---------- Laws of the list operations ----------

  lemma {:induction false} ByKeyFound(flat: seq<Entry>, key: string)
    ensures ByKey(flat, key).None? ==> forall e | e in flat :: e.key != key
    ensures ByKey(flat, key).Some? ==> ByKey(flat, key).value in flat && ByKey(flat, key).value.key == key
  {
    if flat != [] {
      ByKeyFound(flat[1..], key);
      assert flat == [flat[0]] + flat[1..];
    }
  }

  /** In a list of distinct keys, membership decides what a key reads. */
  lemma {:induction false} ByKeyMember(flat: seq<Entry>, e: Entry)
    requires DistinctKeys(flat)
    ensures e in flat <==> ByKey(flat, e.key) == Some(e)
  {
    if flat != [] {
      ByKeyMember(flat[1..], e);
      ByKeyFound(flat[1..], flat[0].key);
      assert flat == [flat[0]] + flat[1..];
    }
  }

  lemma {:induction false} ByKeyConcat(a: seq<Entry>, b: seq<Entry>, key: string)
    ensures ByKey(a + b, key) == if ByKey(a, key).Some? then ByKey(a, key) else ByKey(b, key)
  {
    if a == [] {
      assert a + b == b;
    } else {
      assert (a + b)[1..] == a[1..] + b;
      ByKeyConcat(a[1..], b, key);
    }
  }

  lemma {:induction false} UnderMembers(flat: seq<Entry>, name: string)
    ensures forall e :: e in Under(flat, name) <==> e in flat && NameOf(e) == name
  {
    if flat != [] {
      UnderMembers(flat[1..], name);
      assert flat == [flat[0]] + flat[1..];
    }
  }

  lemma {:induction false} UnderConcat(a: seq<Entry>, b: seq<Entry>, name: string)
    ensures Under(a + b, name) == Under(a, name) + Under(b, name)
  {
    if a == [] {
      assert a + b == b;
    } else {
      assert (a + b)[1..] == a[1..] + b;
      UnderConcat(a[1..], b, name);
    }
  }

  lemma {:induction false} ByKeyUnder(flat: seq<Entry>, name: string, key: string)
    requires DistinctKeys(flat)
    ensures DistinctKeys(Under(flat, name))
    ensures ByKey(Under(flat, name), key) ==
            match ByKey(flat, key)
            case None => None
            case Some(e) => if NameOf(e) == name then Some(e) else None
  {
    if flat != [] {
      ByKeyUnder(flat[1..], name, key);
      ByKeyUnder(flat[1..], name, flat[0].key);
    }
  }

  lemma {:induction false} WithoutAbsent(flat: seq<Entry>, key: string)
    requires ByKey(flat, key).None?
    ensures Without(flat, key) == flat
  {
    if flat != [] {
      WithoutAbsent(flat[1..], key);
    }
  }

  lemma {:induction false} ByKeyWithout(flat: seq<Entry>, key: string, other: string)
    requires DistinctKeys(flat)
    ensures DistinctKeys(Without(flat, key))
    ensures ByKey(Without(flat, key), other) == if other == key then None else ByKey(flat, other)
  {
    if flat != [] {
      ByKeyWithout(flat[1..], key, other);
      ByKeyWithout(flat[1..], key, flat[0].key);
    }
  }

  lemma {:induction false} UnderWithout(flat: seq<Entry>, key: string, name: string)
    requires DistinctKeys(flat)
    ensures Under(Without(flat, key), name) == Without(Under(flat, name), key)
  {
    if flat != [] {
      UnderWithout(flat[1..], key, name);
      if flat[0].key == key {
        ByKeyUnder(flat[1..], name, key);
        WithoutAbsent(Under(flat[1..], name), key);
      }
    }
  }

  lemma {:induction false} PutAbsent(flat: seq<Entry>, e: Entry)
    requires ByKey(flat, e.key).None?
    ensures Put(flat, e) == flat + [e]
  {
    if flat != [] {
      PutAbsent(flat[1..], e);
    }
  }

  lemma {:induction false} ByKeyPut(flat: seq<Entry>, e: Entry, other: string)
    requires DistinctKeys(flat)
    ensures DistinctKeys(Put(flat, e))
    ensures ByKey(Put(flat, e), other) == if other == e.key then Some(e) else ByKey(flat, other)
  {
    if flat != [] {
      var rest := flat[1..];
      if flat[0].key == e.key {
        PutAbsent(rest, e);
        ByKeyConcat(rest, [e], other);
        DistinctAppend(rest, e);
      } else {
        ByKeyPut(rest, e, other);
        ByKeyPut(rest, e, flat[0].key);
      }
    }
  }

  lemma {:induction false} DistinctAppend(flat: seq<Entry>, e: Entry)
    requires DistinctKeys(flat) && ByKey(flat, e.key).None?
    ensures DistinctKeys(flat + [e])
  {
    if flat != [] {
      DistinctAppend(flat[1..], e);
      ByKeyConcat(flat[1..], [e], flat[0].key);
      assert (flat + [e])[1..] == flat[1..] + [e];
    }
  }

  lemma Cons(x: Entry, rest: seq<Entry>, e: Entry, name: string)
    ensures Under([x] + rest, name) == if NameOf(x) == name then [x] + Under(rest, name) else Under(rest, name)
    ensures x.key != e.key ==> Put([x] + rest, e) == [x] + Put(rest, e)
    ensures x.key != e.key ==> Without([x] + rest, e.key) == [x] + Without(rest, e.key)
    ensures x.key == e.key && NameOf(x) == NameOf(e) ==> Put([x] + rest, e) == [e] + rest
    ensures x.key == e.key && NameOf(x) != NameOf(e) ==> Put([x] + rest, e) == rest + [e]
    ensures x.key == e.key ==> Without([x] + rest, e.key) == rest
  {
    assert ([x] + rest)[1..] == rest;
  }

  /** The list of the written name is written in place; every other list only loses the key. */
  lemma {:induction false} UnderPut(flat: seq<Entry>, e: Entry, name: string)
    requires DistinctKeys(flat)
    ensures Under(Put(flat, e), name) ==
            if name == NameOf(e) then Put(Under(flat, name), e) else Without(Under(flat, name), e.key)
  {
    if flat != [] {
      var x, rest := flat[0], flat[1..];
      assert flat == [x] + rest;
      Cons(x, rest, e, name);
      if x.key == e.key {
        UnderPutHead(x, rest, e, name);
      } else {
        UnderPut(rest, e, name);
        Cons(x, Put(rest, e), e, name);
        Cons(x, Under(rest, name), e, name);
      }
    }
  }

  lemma UnderPutHead(x: Entry, rest: seq<Entry>, e: Entry, name: string)
    requires x.key == e.key && ByKey(rest, e.key).None? && DistinctKeys(rest)
    ensures Under(Put([x] + rest, e), name) ==
            if name == NameOf(e) then Put(Under([x] + rest, name), e) else Without(Under([x] + rest, name), e.key)
  {
    Cons(x, rest, e, name);
    Cons(e, rest, e, name);
    Cons(e, [], e, name);
    Cons(x, Under(rest, name), e, name);
    ByKeyUnder(rest, name, e.key);
    WithoutAbsent(Under(rest, name), e.key);
    PutAbsent(Under(rest, name), e);
    UnderConcat(rest, [e], name);
    assert [e] + [] == [e] && Under([], name) == [];
  }

  lemma {:induction false} ByKeyNotUnder(flat: seq<Entry>, name: string, key: string)
    requires DistinctKeys(flat)
    ensures DistinctKeys(NotUnder(flat, name))
    ensures ByKey(NotUnder(flat, name), key) ==
            match ByKey(flat, key)
            case None => None
            case Some(e) => if NameOf(e) == name then None else Some(e)
  {
    if flat != [] {
      ByKeyNotUnder(flat[1..], name, key);
      ByKeyNotUnder(flat[1..], name, flat[0].key);
    }
  }

  lemma {:induction false} UnderNotUnder(flat: seq<Entry>, name: string, other: string)
    ensures Under(NotUnder(flat, name), other) == if other == name then [] else Under(flat, other)
  {
    if flat != [] {
      UnderNotUnder(flat[1..], name, other);
    }
  }
}
