// Wildcard lookup, stated on the text of names instead of on the search loop.
module Wildcards {
  import opened Text
  import opened Names
  import opened CacheView

  /** The wildcard over a proper suffix t of the name n, cut at a dot. */
  ghost predicate Covers(t: string, n: string) {
    t != "" && exists h: string :: n == h + "." + t
  }

  /** The suffix of n that starts at label i. */
  function Suffix(n: string, i: nat): string
    requires i <= |Labels(n)|
  {
    Join(Labels(n)[i..], '.') + "."
  }

  lemma SuffixCovers(n: string, i: nat)
    requires IsFqdn(n) && 1 <= i < |Labels(n)|
    ensures Covers(Suffix(n, i), n)
  {
    var labels := Labels(n);
    LabelsDetermine(n);
    assert labels == labels[..i] + labels[i..];
    JoinConcat(labels[..i], labels[i..], '.');
    assert n == Join(labels[..i], '.') + "." + Suffix(n, i);
  }

  /** A covering suffix of a name is one of its label suffixes. */
  lemma CoverIsSuffix(n: string, t: string) returns (i: nat)
    requires IsFqdn(n) && Covers(t, n) && t != "."
    ensures 1 <= i < |Labels(n)| && Suffix(n, i) == t
  {
    var h: string :| n == h + "." + t;
    assert t[|t| - 1] == n[|n| - 1];
    LabelsConcat(h, t);
    i := |Split(h, '.')|;
    LabelsDetermine(t);
    assert Labels(n)[i..] == Labels(t);
  }

  lemma {:induction false} SuffixShrinks(n: string, i: nat, j: nat)
    requires i < j < |Labels(n)|
    ensures |Suffix(n, i)| > |Suffix(n, j)|
    decreases j
  {
    var labels := Labels(n);
    assert labels[j - 1..][1..] == labels[j..];
    if i < j - 1 {
      SuffixShrinks(n, i, j - 1);
    }
  }

  /** The search skips the unstored wildcards in front of the first stored one. */
  lemma {:induction false} FirstWildcardAt(view: View, n: string, from: nat, i: nat)
    requires from < i <= |Labels(n)|
    requires forall j | from < j < i :: !view.Stored("*." + Suffix(n, j))
    requires view.Stored("*." + Suffix(n, i))
    ensures view.FirstWildcard(Labels(n)[from..]) == Some("*." + Suffix(n, i))
    decreases i - from
  {
    var labels := Labels(n);
    assert labels[from..][1..] == labels[from + 1..];
    assert WildcardOver(labels[from + 1..]) == "*." + Suffix(n, from + 1);
    if from + 1 < i {
      FirstWildcardAt(view, n, from + 1, i);
    }
  }

  lemma {:induction false} NoWildcard(view: View, n: string, from: nat)
    requires from <= |Labels(n)|
    requires forall j | from < j <= |Labels(n)| :: !view.Stored("*." + Suffix(n, j))
    ensures view.FirstWildcard(Labels(n)[from..]) == None
    decreases |Labels(n)| - from
  {
    var labels := Labels(n);
    if from < |labels| {
      assert labels[from..][1..] == labels[from + 1..];
      assert WildcardOver(labels[from + 1..]) == "*." + Suffix(n, from + 1);
      NoWildcard(view, n, from + 1);
    }
  }

  /** No empty label, so the text ".." cannot end the name. */
  predicate WellFormed(n: string) {
    IsFqdn(n) && n != "." && forall i | 0 <= i < |Labels(n)| :: Labels(n)[i] != ""
  }

  lemma TrailingDots(h: string)
    ensures var labels := Labels(h + "." + "."); labels != [] && labels[|labels| - 1] == ""
  {
    var n := h + "." + ".";
    assert n[..|n| - 1] == h + "." + "";
    SplitConcat(h, "", '.');
  }

  lemma CoverIsNotRoot(n: string, t: string)
    requires WellFormed(n) && Covers(t, n)
    ensures t != "."
  {
    if t == "." {
      var h: string :| n == h + "." + t;
      TrailingDots(h);
    }
  }

  /** Among the stored wildcards covering n, the one over t is the longest. */
  ghost predicate LongestStored(view: View, t: string, n: string) {
    Covers(t, n) && view.Stored("*." + t) && forall u :: Covers(u, n) && view.Stored("*." + u) ==> |u| <= |t|
  }

  /**
   * The wildcard rule. An exact name answers itself. Otherwise the wildcard over the longest
   * stored covering suffix answers, and if there is none then the text "*..", or nothing.
   */
  lemma LongestSuffixAnswers(view: View, fqdn: string)
    requires WellFormed(Canonical(fqdn))
    ensures var n := Canonical(fqdn);
            && (view.Stored(n) ==> view.Answering(fqdn) == Some(n))
            && (!view.Stored(n) ==>
                  forall t | LongestStored(view, t, n) :: view.Answering(fqdn) == Some("*." + t))
            && (!view.Stored(n) && (forall t :: Covers(t, n) ==> !view.Stored("*." + t))
                ==> view.Answering(fqdn) == if view.Stored("*..") then Some("*..") else None)
  {
    var n := Canonical(fqdn);
    LabelsDetermine(n);
    var count := |Labels(n)|;
    assert Labels(n)[0..] == Labels(n);
    if !view.Stored(n) {
      forall t | LongestStored(view, t, n)
        ensures view.Answering(fqdn) == Some("*." + t)
      {
        CoverIsNotRoot(n, t);
        var i := CoverIsSuffix(n, t);
        forall j | 0 < j < i ensures !view.Stored("*." + Suffix(n, j)) {
          SuffixCovers(n, j);
          SuffixShrinks(n, j, i);
        }
        FirstWildcardAt(view, n, 0, i);
      }
      if forall t :: Covers(t, n) ==> !view.Stored("*." + t) {
        forall j | 0 < j < count ensures !view.Stored("*." + Suffix(n, j)) {
          SuffixCovers(n, j);
        }
        assert "*." + Suffix(n, count) == "*..";
        if view.Stored("*..") {
          FirstWildcardAt(view, n, 0, count);
        } else {
          NoWildcard(view, n, 0);
        }
      }
    }
  }

  /** Whatever wildcard answers lies over a proper suffix: never over the name itself, never "*.". */
  lemma {:induction false} WildcardTooShort(view: View, labels: seq<string>)
    ensures var w := view.FirstWildcard(labels);
            w.Some? ==> 3 <= |w.value| <= |Join(labels, '.')| + 3
  {
    if labels != [] {
      WildcardTooShort(view, labels[1..]);
    }
  }

  /** A wildcard never answers for its own base name, and the root wildcard never by fallback. */
  lemma WildcardNeverAnswersItsBase(view: View, fqdn: string)
    ensures view.Answering(fqdn) != Some("*." + Canonical(fqdn))
    ensures view.Answering(fqdn) == Some("*.") ==> Canonical(fqdn) == "*."
  {
    var n := Canonical(fqdn);
    if !view.Stored(n) && n != "." {
      LabelsDetermine(n);
      var labels := Labels(n);
      WildcardTooShort(view, labels);
      WildcardTooShort(view, labels[1..]);
      assert labels[0..] == labels;
    }
  }

  /** A query under exactly one stored wildcard, with no exact name stored, gets that one. */
  lemma OnlyWildcardAnswers(view: View, fqdn: string, t: string)
    requires WellFormed(Canonical(fqdn)) && !view.Stored(Canonical(fqdn))
    requires Covers(t, Canonical(fqdn)) && view.Stored("*." + t)
    requires forall u :: Covers(u, Canonical(fqdn)) && view.Stored("*." + u) ==> u == t
    ensures view.Lookup(fqdn) == Under(view.flat, "*." + t)
  {
    LongestSuffixAnswers(view, fqdn);
    assert LongestStored(view, t, Canonical(fqdn));
  }

  /** An exact name answers with all its entries. */
  lemma ExactNameListsAll(view: View, fqdn: string)
    requires view.Stored(Canonical(fqdn))
    ensures view.Lookup(fqdn) == Under(view.flat, Canonical(fqdn))
    ensures forall e :: e in view.Lookup(fqdn) <==> e in view.flat && NameOf(e) == Canonical(fqdn)
  {
    UnderMembers(view.flat, Canonical(fqdn));
  }

  /** Otherwise the wildcard over the longest stored suffix does. */
  lemma LongestSuffixListsAll(view: View, fqdn: string, t: string)
    requires WellFormed(Canonical(fqdn)) && !view.Stored(Canonical(fqdn)) && LongestStored(view, t, Canonical(fqdn))
    ensures view.Lookup(fqdn) == Under(view.flat, "*." + t)
    ensures forall e :: e in view.Lookup(fqdn) <==> e in view.flat && NameOf(e) == "*." + t
  {
    LongestSuffixAnswers(view, fqdn);
    UnderMembers(view.flat, "*." + t);
  }

  /** A name without entries of its own, under no stored wildcard, has no answer. */
  lemma NothingStoredNothingFound(view: View, fqdn: string)
    requires WellFormed(Canonical(fqdn)) && !view.Stored(Canonical(fqdn)) && !view.Stored("*..")
    requires forall t :: Covers(t, Canonical(fqdn)) ==> !view.Stored("*." + t)
    ensures view.Lookup(fqdn) == []
  {
    LongestSuffixAnswers(view, fqdn);
  }

  /** Queries that differ in case or in the trailing dot get one answer. */
  lemma LookupIsCaseBlind(view: View, a: string, b: string)
    requires Lower(a) == Lower(b) || (!IsFqdn(a) && Lower(a + ".") == Lower(b))
    ensures view.Lookup(a) == view.Lookup(b)
  {
    CanonicalIsCaseBlind(a, b);
  }

  // ---------- Emptied names ----------

  /** The lookup of a cache that drops a name with its last entry. */
  function Ideal(view: View): View {
    View(view.flat, {})
  }

  /** The names a lookup tries, in order. */
  function Tried(fqdn: string): seq<string> {
    [Canonical(fqdn)] + TriedWildcards(Labels(Canonical(fqdn)))
  }

  function TriedWildcards(labels: seq<string>): seq<string> {
    if labels == [] then [] else [WildcardOver(labels[1..])] + TriedWildcards(labels[1..])
  }

  /** The first name with a list is an emptied one, and a name behind it still has entries. */
  predicate Hides(view: View, names: seq<string>) {
    names != [] &&
    if Under(view.flat, names[0]) != [] then false
    else if names[0] in view.emptied then exists j | 1 <= j < |names| :: Under(view.flat, names[j]) != []
    else Hides(view, names[1..])
  }

  /** The list of the first name that has one. */
  function FirstList(view: View, names: seq<string>): seq<Entry> {
    if names == [] then []
    else if view.Stored(names[0]) then Under(view.flat, names[0])
    else FirstList(view, names[1..])
  }

  lemma {:induction false} LookupIsFirstList(view: View, labels: seq<string>)
    ensures FirstList(view, TriedWildcards(labels)) ==
            match view.FirstWildcard(labels) case None => [] case Some(name) => Under(view.flat, name)
  {
    if labels != [] {
      LookupIsFirstList(view, labels[1..]);
      assert TriedWildcards(labels)[1..] == TriedWildcards(labels[1..]);
    }
  }

  lemma {:induction false} IdealFirstList(view: View, names: seq<string>)
    ensures FirstList(Ideal(view), names) != [] <==> exists j | 0 <= j < |names| :: Under(view.flat, names[j]) != []
  {
    if names != [] {
      IdealFirstList(view, names[1..]);
      if j :| 0 <= j < |names| && Under(view.flat, names[j]) != [] {
        assert j == 0 || names[1..][j - 1] == names[j];
      }
    }
  }

  lemma {:induction false} HidingFirstList(view: View, names: seq<string>)
    requires view.Valid()
    ensures FirstList(view, names) == FirstList(Ideal(view), names) <==> !Hides(view, names)
  {
    if names != [] {
      HidingFirstList(view, names[1..]);
      IdealFirstList(view, names[1..]);
      assert forall j | 1 <= j < |names| :: names[1..][j - 1] == names[j];
    }
  }

  /** Emptied names change an answer exactly when one of the names tried hides one with entries. */
  lemma EmptiedNamesHide(view: View, fqdn: string)
    requires view.Valid()
    ensures view.Lookup(fqdn) == Ideal(view).Lookup(fqdn) <==> !Hides(view, Tried(fqdn))
  {
    var labels := Labels(Canonical(fqdn));
    LookupIsFirstList(view, labels);
    LookupIsFirstList(Ideal(view), labels);
    assert Tried(fqdn)[1..] == TriedWildcards(labels);
    HidingFirstList(view, Tried(fqdn));
  }

  /** Deleting the last entry of a name by its key hides the wildcard that covers the name. */
  lemma DeletedNameHidesWildcard(parse: ParseIP)
    ensures
      var exact, wild := Entry("k1", "a.b.", []), Entry("k2", "*.b.", []);
      var view := EmptyView.Upsert(parse, exact).Upsert(parse, wild);
      && view.DeleteByKey("k1").Lookup("a.b.") == []
      && view.Delete("a.b.").Lookup("a.b.") == [wild]
  {
    var exact, wild := Entry("k1", "a.b.", []), Entry("k2", "*.b.", []);
    assert NameOf(exact) == "a.b." && NameOf(wild) == "*.b.";
    assert "a.b."[0] != "*.b."[0] && "k1"[1] != "k2"[1];
    var view := EmptyView.Upsert(parse, exact).Upsert(parse, wild);
    assert [exact][1..] == [] && [wild][1..] == [] && [exact, wild][1..] == [wild];
    assert Put([exact], wild) == [exact] + Put([], wild) == [exact, wild];
    assert view.flat == [exact, wild] && view.emptied == {};
    assert Without(view.flat, "k1") == [wild] && NotUnder([wild], "a.b.") == [wild];
    assert NotUnder(view.flat, "a.b.") == [wild] && Under([wild], "a.b.") == [];
    assert "a.b."[..3] == "a" + "." + "b";
    SplitConcat("a", "b", '.');
    SplitOfFree("a", '.');
    SplitOfFree("b", '.');
    assert Labels("a.b.") == ["a", "b"];
    assert WildcardOver(["b"]) == "*.b.";
    assert Canonical("a.b.") == "a.b.";
    assert view.Delete("a.b.") == View([wild], {}) && Under([wild], "*.b.") == [wild];
    assert view.Delete("a.b.").FirstWildcard(["a", "b"]) == Some("*.b.");
    assert view.DeleteByKey("k1") == View([wild], {"a.b."});
  }
}
