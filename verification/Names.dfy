// Domain names as the DNS library sees them, for names without escapes.
module Names {
  import opened Text

  function LowerChar(c: char): char {
    if 'A' <= c <= 'Z' then ((c as int) + 32) as char else c
  }

  /** ASCII lower-casing. */
  function Lower(s: string): (r: string)
    ensures |r| == |s|
    ensures forall i | 0 <= i < |s| :: r[i] == LowerChar(s[i])
  {
    seq(|s|, i requires 0 <= i < |s| => LowerChar(s[i]))
  }

  predicate IsFqdn(s: string) {
    s != "" && s[|s| - 1] == '.'
  }

  /** dns.Fqdn */
  function Fqdn(s: string): string {
    if IsFqdn(s) then s else s + "."
  }

  /** dns.CanonicalName: lower case and fully qualified. */
  function Canonical(s: string): string {
    Lower(Fqdn(s))
  }

  predicate IsCanonical(s: string) {
    Canonical(s) == s
  }

  /** dns.SplitDomainName: the labels of a name, none for the root. */
  function Labels(s: string): seq<string> {
    if s == "" || s == "." then []
    else Split(if IsFqdn(s) then s[..|s| - 1] else s, '.')
  }

  lemma CanonicalIsFqdn(s: string)
    ensures IsFqdn(Canonical(s))
  {}

  lemma CanonicalIdempotent(s: string)
    ensures IsCanonical(Canonical(s))
  {
    var n := Canonical(s);
    assert Lower(n) == n;
  }

  lemma LowerConcat(a: string, b: string)
    ensures Lower(a + b) == Lower(a) + Lower(b)
  {
    assert Lower(a + b) == Lower(a) + Lower(b);
  }

  /** Canonicalising looks only at the end of a name. */
  const UPPER_LETTERS := "ABCDEFGHIJKLMNOPQRSTUVWXYZ"
  const LOWER_LETTERS := "abcdefghijklmnopqrstuvwxyz"

  /** Lower-casing sends each capital letter to its small one, and no other character anywhere. */
  lemma LowerLetters(c: char)
    ensures |UPPER_LETTERS| == |LOWER_LETTERS| == 26
    ensures forall i | 0 <= i < 26 :: LowerChar(UPPER_LETTERS[i]) == LOWER_LETTERS[i]
    ensures c !in UPPER_LETTERS ==> LowerChar(c) == c
  {
    if 'A' <= c <= 'Z' {
      assert UPPER_LETTERS[c as int - 'A' as int] == c;
    }
  }

  /** Names that differ in case or in the trailing dot have one canonical form. */
  lemma CanonicalIsCaseBlind(a: string, b: string)
    requires Lower(a) == Lower(b) || (!IsFqdn(a) && Lower(a + ".") == Lower(b))
    ensures Canonical(a) == Canonical(b)
  {
    CanonicalOfLower(a);
    CanonicalOfLower(b);
    if !IsFqdn(a) && Lower(a + ".") == Lower(b) {
      CanonicalOfLower(a + ".");
    }
  }

  lemma CanonicalConcat(a: string, b: string)
    requires b != ""
    ensures Canonical(a + b) == Lower(a) + Canonical(b)
  {
    if !IsFqdn(b) {
      assert a + b + "." == a + (b + ".");
    }
    LowerConcat(a, Fqdn(b));
  }

  lemma CanonicalWildcard(b: string)
    requires b != ""
    ensures Canonical("*." + b) == "*." + Canonical(b)
  {
    CanonicalConcat("*.", b);
    assert Lower("*.") == "*.";
  }

  lemma CanonicalOfLower(s: string)
    ensures Canonical(Lower(s)) == Canonical(s)
  {
    assert Canonical(Lower(s)) == Canonical(s);
  }

  lemma LowerFree(s: string)
    requires Free('.', s)
    ensures Free('.', Lower(s))
  {}

  /** A name with a non-root parent has its own labels followed by the parent's. */
  lemma LabelsConcat(a: string, b: string)
    requires IsFqdn(b) && b != "."
    ensures Labels(a + "." + b) == Split(a, '.') + Labels(b)
  {
    var s := a + "." + b;
    assert s[..|s| - 1] == a + "." + b[..|b| - 1];
    SplitConcat(a, b[..|b| - 1], '.');
  }

  /** The labels of a fully qualified name determine it. */
  lemma LabelsDetermine(s: string)
    requires IsFqdn(s)
    ensures s != "." ==> Labels(s) != [] && s == Join(Labels(s), '.') + "."
  {
    if s != "." {
      JoinSplit(s[..|s| - 1], '.');
    }
  }
}
