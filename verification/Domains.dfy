// When one gateway domain lies under another.
module Domains {
  import opened Text
  import opened Names
  import opened Slices
  import opened Gateways
  import opened Wildcards

  /** The longer name is the shorter one with "gateway." in front, and perhaps more in front of that. */
  ghost predicate Nested(shorter: string, longer: string) {
    longer == "gateway." + shorter || exists p: string :: longer == p + ".gateway." + shorter
  }

  /** The gateway domain of a cluster in canonical form. */
  function Domain(c: NamespacedName, domainSuffix: string): string {
    Canonical(GatewayDomain(c, domainSuffix))
  }

  /**
   * With dot-free namespaces one gateway domain lies under another exactly when the namespaces
   * agree and the name of the one ends in "gateway." and the name of the other, case aside.
   */
  lemma DomainsOverlap(a: NamespacedName, b: NamespacedName, domainSuffix: string)
    requires Free('.', a.namespace) && Free('.', b.namespace)
    ensures Covers(Domain(a, domainSuffix), Domain(b, domainSuffix)) <==>
            Lower(a.namespace) == Lower(b.namespace) && Nested(Lower(a.name), Lower(b.name))
  {
    if Covers(Domain(a, domainSuffix), Domain(b, domainSuffix)) {
      OverlapIsNested(a, b, domainSuffix);
    }
    if Lower(a.namespace) == Lower(b.namespace) && Nested(Lower(a.name), Lower(b.name)) {
      NestedOverlap(a, b, domainSuffix);
    }
  }

  lemma NestedOverlap(a: NamespacedName, b: NamespacedName, domainSuffix: string)
    requires Lower(a.namespace) == Lower(b.namespace) && Nested(Lower(a.name), Lower(b.name))
    ensures Covers(Domain(a, domainSuffix), Domain(b, domainSuffix))
  {
    DomainText(a, domainSuffix);
    DomainText(b, domainSuffix);
    NestedText(Lower(a.name), Lower(b.name), Lower(a.namespace) + "." + Canonical("clusters." + domainSuffix));
  }

  lemma NestedText(shorter: string, longer: string, rest: string)
    requires Nested(shorter, longer)
    ensures Covers("gateway" + "." + (shorter + "." + rest), "gateway" + "." + (longer + "." + rest))
  {
    var head := "gateway";
    var inner := head + "." + (shorter + "." + rest);
    assert "gateway." == head + ".";
    if longer == "gateway." + shorter {
      assert longer + "." + rest == inner;
      assert head + "." + (longer + "." + rest) == head + "." + inner;
    } else {
      var p: string :| longer == p + ".gateway." + shorter;
      assert ".gateway." == "." + (head + ".");
      FrontText(head, p, shorter, rest);
      assert head + "." + (longer + "." + rest) == (head + "." + p) + "." + inner;
    }
    assert inner != "";
  }

  lemma FrontText(head: string, p: string, shorter: string, rest: string)
    ensures p + ("." + (head + ".")) + shorter + "." + rest == p + "." + (head + "." + (shorter + "." + rest))
  {}

  lemma OverlapIsNested(a: NamespacedName, b: NamespacedName, domainSuffix: string)
    requires Free('.', a.namespace) && Free('.', b.namespace)
    requires Covers(Domain(a, domainSuffix), Domain(b, domainSuffix))
    ensures Lower(a.namespace) == Lower(b.namespace) && Nested(Lower(a.name), Lower(b.name))
  {
    var h: string :| Domain(b, domainSuffix) == h + "." + Domain(a, domainSuffix);
    DomainLabels(a, domainSuffix);
    DomainLabels(b, domainSuffix);
    LabelsConcat(h, Domain(a, domainSuffix));
    var la, lb, front := Split(Lower(a.name), '.'), Split(Lower(b.name), '.'), Split(h, '.');
    PiecesNested("gateway", la, lb, front, Lower(a.namespace), Lower(b.namespace), Labels(Canonical("clusters." + domainSuffix)));
    JoinSplit(Lower(a.name), '.');
    JoinSplit(Lower(b.name), '.');
    NestedNames(Lower(a.name), Lower(b.name), la, lb, front[1..]);
  }

  /** Aligning the labels of the two domains at their ends. */
  lemma PiecesNested(head: string, la: seq<string>, lb: seq<string>, front: seq<string>, x: string, y: string, tail: seq<string>)
    requires front != []
    requires [head] + (lb + ([y] + tail)) == front + ([head] + (la + ([x] + tail)))
    ensures x == y && lb == front[1..] + [head] + la
  {
    var all := [head] + (lb + ([y] + tail));
    assert |lb| == |front| + |la|;
    assert all[1 + |lb|] == y && all[|front| + 1 + |la|] == x;
    assert lb == all[1..1 + |lb|] == front[1..] + [head] + la;
  }

  lemma NestedNames(a: string, b: string, la: seq<string>, lb: seq<string>, front: seq<string>)
    requires la != [] && a == Join(la, '.') && b == Join(lb, '.') && lb == front + ["gateway"] + la
    ensures Nested(a, b)
  {
    var head := "gateway";
    JoinConcat([head], la, '.');
    GatewayText(head, Join(front, '.'), a);
    if front == [] {
      assert lb == [head] + la;
    } else {
      JoinConcat(front, [head] + la, '.');
      assert lb == front + ([head] + la);
    }
  }

  lemma GatewayText(head: string, p: string, a: string)
    requires head == "gateway"
    ensures head + "." + a == "gateway." + a
    ensures p + "." + (head + "." + a) == p + ".gateway." + a
  {
    assert head + "." == "gateway." && "." + (head + ".") == ".gateway.";
    assert p + "." + (head + "." + a) == p + ("." + (head + ".")) + a;
  }

  /** Such a pair: one query under the domains of two clusters. */
  lemma DottedNamesOverlap(cluster: NamespacedName, domainSuffix: string)
    ensures var dotted := NamespacedName(cluster.namespace, "gateway." + cluster.name);
            "x." + GatewayDomain(dotted, domainSuffix) == "x.gateway." + GatewayDomain(cluster, domainSuffix)
  {
    var dotted := NamespacedName(cluster.namespace, "gateway." + cluster.name);
    assert GatewayDomain(dotted, domainSuffix) == "gateway." + GatewayDomain(cluster, domainSuffix);
    assert "x." + "gateway." == "x.gateway.";
  }

  /** A query lies under two gateway domains only if they are one, or one lies under the other. */
  lemma QueryUnderBoth(n: string, a: string, b: string)
    requires Covers(a, n) && Covers(b, n) && |a| <= |b|
    ensures a == b || Covers(a, b)
  {
    var h: string :| n == h + "." + a;
    var g: string :| n == g + "." + b;
    assert a == n[|n| - |a|..] && b == n[|n| - |b|..];
    if |a| < |b| {
      var x := b[..|b| - |a| - 1];
      assert b[|b| - |a| - 1] == n[|n| - |a| - 1] == '.';
      assert b[|b| - |a|..] == a;
      assert b == x + "." + a;
    }
  }
}
