// The section the patcher keeps in a Corefile: finding it, cutting it out, writing it again.
module Corefile {
  import opened Text

  const SIGNS := "###"
  const BEGIN_WORDS := " BEGIN CROSS CLUSTER CONNECTIVITY"
  const END_WORDS := " END CROSS CLUSTER CONNECTIVITY"

  const BEGIN := SIGNS + BEGIN_WORDS
  const END := SIGNS + END_WORDS

  /** The regular-expression class \s. */
  predicate RegexpSpace(c: char) {
    c == '\t' || c == '\n' || c == '\U{0c}' || c == '\r' || c == ' '
  }

  /** What strings.TrimSpace trims: Unicode white space. */
  predicate UnicodeSpace(c: char) {
    || '\t' <= c <= '\r' || c == ' ' || c == '\U{85}' || c == '\U{a0}' || c == '\U{1680}'
    || '\U{2000}' <= c <= '\U{200a}' || c == '\U{2028}' || c == '\U{2029}' || c == '\U{202f}'
    || c == '\U{205f}' || c == '\U{3000}'
  }

  function TrimLeft(s: string): string {
    if s != "" && UnicodeSpace(s[0]) then TrimLeft(s[1..]) else s
  }

  function TrimRight(s: string): string {
    if s != "" && UnicodeSpace(s[|s| - 1]) then TrimRight(s[..|s| - 1]) else s
  }

  function TrimSpace(s: string): string {
    TrimRight(TrimLeft(s))
  }

  /** White space followed by the begin marker. */
  predicate OpensAt(s: string, i: int) {
    0 <= i < |s| && RegexpSpace(s[i]) && At(s, i + 1, BEGIN)
  }

  /** The expression \s BEGIN .* END, where the dot also takes newlines, matches s[i..j]. */
  predicate MatchesAt(s: string, i: int, j: int) {
    OpensAt(s, i) && i + 1 + |BEGIN| <= j - |END| && At(s, j - |END|, END)
  }

  ghost predicate HasMatch(s: string) {
    exists i, j :: MatchesAt(s, i, j)
  }

  /** The last position below n where t starts, or -1. */
  function LastIndexBelow(s: string, t: string, n: nat): (i: int)
    ensures -1 <= i < n
    ensures i >= 0 ==> At(s, i, t)
    ensures forall k | i < k < n :: !At(s, k, t)
  {
    if n == 0 then -1 else if At(s, n - 1, t) then n - 1 else LastIndexBelow(s, t, n - 1)
  }

  /** The greedy end of a match: the end of the last end marker. */
  function LastEnd(s: string): int {
    LastIndexBelow(s, END, |s| + 1) + |END|
  }

  /** The leftmost start of a match at or after i, or -1. */
  function FirstStart(s: string, i: nat): (start: int)
    ensures start == -1 || (i <= start && MatchesAt(s, start, LastEnd(s)))
    ensures forall k, j | i <= k && MatchesAt(s, k, j) :: start != -1 && start <= k
    decreases |s| - i
  {
    if i >= |s| then -1
    else if MatchesAt(s, i, LastEnd(s)) then i
    else
      assert forall j :: MatchesAt(s, i, j) ==> j - |END| <= LastEnd(s) - |END|;
      FirstStart(s, i + 1)
  }

  /** ReplaceAllString with the empty string: cut the leftmost greedy match, go on behind it. */
  function ReplaceAll(s: string): string
    decreases |s|
  {
    var i := FirstStart(s, 0);
    if i == -1 then s else s[..i] + ReplaceAll(s[LastEnd(s)..])
  }

  function StripXCCBlock(corefile: string): string {
    TrimSpace(ReplaceAll(corefile))
  }

  /** The first match runs from the leftmost opening to the last end marker. */
  lemma MatchIsLeftmostGreedy(s: string, i: int, j: int)
    requires MatchesAt(s, i, j)
    ensures var start := FirstStart(s, 0); 0 <= start <= i && MatchesAt(s, start, LastEnd(s)) && j <= LastEnd(s)
  {}

  // ---------- Where texts lie in texts ----------

  lemma AtChar(s: string, i: int, t: string, k: nat)
    requires At(s, i, t) && k < |t|
    ensures s[i + k] == t[k]
  {
    assert s[i + k] == s[i..i + |t|][k];
  }

  /** A character t does not have lies outside any place of t. */
  lemma CharOutside(s: string, i: int, t: string, p: nat)
    requires At(s, i, t) && p < |s| && s[p] !in t
    ensures p < i || i + |t| <= p
  {
    if i <= p < i + |t| {
      AtChar(s, i, t, p - i);
    }
  }

  lemma AtWithin(s: string, i: int, t: string, j: int, u: string)
    requires At(s, i, t) && At(t, j, u)
    ensures At(s, i + j, u)
  {
    var from, to := i + j, i + j + |u|;
    assert s[from..to] == u by {
      forall k | 0 <= k < |u| ensures s[from..to][k] == u[k] {
        AtChar(t, j, u, k);
        AtChar(s, i, t, j + k);
      }
    }
  }

  lemma AtInside(s: string, i: int, t: string, p: int, u: string)
    requires At(s, i, t) && At(s, p, u) && i <= p && p + |u| <= i + |t|
    ensures At(t, p - i, u)
  {
    var from, to := p - i, p - i + |u|;
    assert t[from..to] == u by {
      forall k | 0 <= k < |u| ensures t[from..to][k] == u[k] {
        AtChar(s, p, u, k);
        AtChar(s, i, t, p - i + k);
      }
    }
  }

  lemma AtOfConcat(a: string, t: string, b: string)
    ensures At(a + t + b, |a|, t)
  {
    assert (a + t + b)[|a|..|a| + |t|] == t;
  }

  /** A match in a piece of a text is one in the text. */
  lemma MatchInPiece(s: string, a: nat, b: nat, i: int, j: int)
    requires a <= b <= |s| && MatchesAt(s[a..b], i, j)
    ensures MatchesAt(s, a + i, a + j)
  {
    AtWithin(s, a, s[a..b], i + 1, BEGIN);
    AtWithin(s, a, s[a..b], j - |END|, END);
  }

  lemma NoEndBehindLast(s: string)
    requires FirstStart(s, 0) != -1
    ensures !HasMatch(s[LastEnd(s)..])
  {
    var e := LastEnd(s);
    assert s[e..] == s[e..|s|];
    forall i, k ensures !MatchesAt(s[e..], i, k) {
      if MatchesAt(s[e..], i, k) {
        MatchInPiece(s, e, |s|, i, k);
      }
    }
  }

  /** There is never a second match to cut. */
  lemma OneCut(s: string)
    ensures ReplaceAll(s) == if FirstStart(s, 0) == -1 then s else s[..FirstStart(s, 0)] + s[LastEnd(s)..]
  {
    if FirstStart(s, 0) != -1 {
      NoEndBehindLast(s);
    }
  }

  /** Joining what is left of and behind the cut makes no new match. */
  lemma SeamHasNoMatch(s: string, a: nat, b: nat)
    requires a <= b <= |s|
    requires forall i | 0 <= i < a :: !OpensAt(s, i)
    requires forall k | b <= k :: !At(s, k, END)
    ensures !HasMatch(s[..a] + s[b..])
  {
    var t := s[..a] + s[b..];
    forall i, j ensures !MatchesAt(t, i, j) {
      if MatchesAt(t, i, j) {
        if i + 1 + |BEGIN| <= a {
          assert s[i + 1..i + 1 + |BEGIN|] == t[i + 1..i + 1 + |BEGIN|];
          assert OpensAt(s, i);
        } else {
          EndBehindSeam(s, t, a, b, j);
        }
      }
    }
  }

  lemma EndBehindSeam(s: string, t: string, a: nat, b: nat, j: int)
    requires a <= b <= |s| && t == s[..a] + s[b..]
    requires a <= j - |END| && At(t, j - |END|, END)
    ensures At(s, j - |END| - a + b, END)
  {
    var k := j - |END|;
    assert s[k - a + b..k - a + b + |END|] == t[k..k + |END|];
  }

  lemma ReplaceAllLeavesNoMatch(s: string)
    ensures !HasMatch(ReplaceAll(s))
  {
    OneCut(s);
    var i := FirstStart(s, 0);
    if i == -1 {
      forall k, j ensures !MatchesAt(s, k, j) {}
    } else {
      forall k | 0 <= k < i ensures !OpensAt(s, k) {
        assert !MatchesAt(s, k, LastEnd(s));
      }
      SeamHasNoMatch(s, i, LastEnd(s));
    }
  }

  lemma {:induction false} TrimLeftIsSuffix(s: string)
    ensures |TrimLeft(s)| <= |s| && TrimLeft(s) == s[|s| - |TrimLeft(s)|..]
    ensures TrimLeft(s) == "" || !UnicodeSpace(TrimLeft(s)[0])
  {
    if s != "" && UnicodeSpace(s[0]) {
      TrimLeftIsSuffix(s[1..]);
    }
  }

  lemma {:induction false} TrimRightIsPrefix(s: string)
    ensures |TrimRight(s)| <= |s| && TrimRight(s) == s[..|TrimRight(s)|]
    ensures TrimRight(s) == "" || !UnicodeSpace(TrimRight(s)[|TrimRight(s)| - 1])
  {
    if s != "" && UnicodeSpace(s[|s| - 1]) {
      TrimRightIsPrefix(s[..|s| - 1]);
    }
  }

  /** No white space at either end. */
  predicate Trimmed(s: string) {
    s == "" || (!UnicodeSpace(s[0]) && !UnicodeSpace(s[|s| - 1]))
  }

  /** Trimming yields a trimmed piece of the text. */
  lemma TrimIsPiece(s: string) returns (a: nat, b: nat)
    ensures a <= b <= |s| && TrimSpace(s) == s[a..b]
    ensures Trimmed(TrimSpace(s))
  {
    var t := TrimLeft(s);
    TrimLeftIsSuffix(s);
    TrimRightIsPrefix(t);
    a := |s| - |t|;
    b := a + |TrimRight(t)|;
  }

  /** Trimming drops nothing but white space. */
  lemma TrimDropsSpace(s: string, i: nat)
    requires i < |s| && !UnicodeSpace(s[i])
    ensures var front := |s| - |TrimLeft(s)|;
            front <= i < front + |TrimSpace(s)| && TrimSpace(s)[i - front] == s[i]
  {
    TrimLeftKeeps(s, i);
    TrimLeftIsSuffix(s);
    TrimRightKeeps(TrimLeft(s), i - (|s| - |TrimLeft(s)|));
    TrimRightIsPrefix(TrimLeft(s));
  }

  lemma {:induction false} TrimLeftKeeps(s: string, i: nat)
    requires i < |s| && !UnicodeSpace(s[i])
    ensures |s| - |TrimLeft(s)| <= i
  {
    if UnicodeSpace(s[0]) {
      TrimLeftKeeps(s[1..], i - 1);
    }
  }

  lemma {:induction false} TrimRightKeeps(s: string, i: nat)
    requires i < |s| && !UnicodeSpace(s[i])
    ensures i < |TrimRight(s)|
  {
    if UnicodeSpace(s[|s| - 1]) {
      TrimRightKeeps(s[..|s| - 1], i);
    }
  }

  /** In ASCII the two notions of white space differ in the vertical tab alone. */
  lemma SpacesCompared(c: char)
    ensures RegexpSpace(c) ==> UnicodeSpace(c)
    ensures c as int < 128 && UnicodeSpace(c) && !RegexpSpace(c) <==> c == '\U{0b}'
  {}

  lemma TrimTrimmed(s: string)
    requires Trimmed(s)
    ensures TrimSpace(s) == s
  {}

  lemma PieceHasNoMatch(s: string, a: nat, b: nat)
    requires a <= b <= |s| && !HasMatch(s)
    ensures !HasMatch(s[a..b])
  {
    forall i, j ensures !MatchesAt(s[a..b], i, j) {
      if MatchesAt(s[a..b], i, j) {
        MatchInPiece(s, a, b, i, j);
      }
    }
  }

  /** Stripping leaves no section behind, whatever the file, and so changes nothing the second time. */
  lemma StripIsFinal(s: string)
    ensures !HasMatch(StripXCCBlock(s))
    ensures StripXCCBlock(StripXCCBlock(s)) == StripXCCBlock(s)
  {
    var t := ReplaceAll(s);
    ReplaceAllLeavesNoMatch(s);
    var a, b := TrimIsPiece(t);
    PieceHasNoMatch(t, a, b);
    var y := StripXCCBlock(s);
    OneCut(y);
    TrimTrimmed(y);
  }

  // ---------- Writing the section ----------

  function Zone(domainSuffix: string): string {
    "\n" + domainSuffix + " {\n    forward . "
  }

  const RELOAD := "\n    reload\n}\n"

  /** What stands between the two markers. */
  function Body(domainSuffix: string, ip: string): string {
    Zone(domainSuffix) + ip + RELOAD
  }

  function XccBlock(domainSuffix: string, ip: string): string {
    BEGIN + Body(domainSuffix, ip) + END
  }

  /** A stripped file with the block written behind it. */
  function Write(kept: string, block: string): string {
    kept + "\n" + block + "\n"
  }

  /** The Corefile after a patch. */
  function Patched(domainSuffix: string, ip: string, corefile: string): string {
    var block := XccBlock(domainSuffix, ip);
    if Contains(corefile, block) then corefile else Write(StripXCCBlock(corefile), block)
  }

  /** An opening with no end behind it: left by strip, and completed by the next block written. */
  ghost predicate OpenSection(kept: string) {
    exists i :: OpensAt(kept, i)
  }

  /** Text with neither a newline nor a number sign. */
  predicate OneLine(s: string) {
    Free('\n', s) && Free('#', s)
  }

  lemma WrittenHolds(kept: string, block: string)
    ensures At(Write(kept, block), |kept| + 1, block)
    ensures Contains(Write(kept, block), block)
    ensures At(Write(kept, block), 0, kept)
    ensures Write(kept, block)[|kept|] == '\n'
    ensures Write(kept, block)[|kept| + 1 + |block|] == '\n' && |Write(kept, block)| == |kept| + |block| + 2
  {
    AtOfConcat(kept + "\n", block, "\n");
    AtOfConcat("", kept, "\n" + block + "\n");
    assert "" + kept + ("\n" + block + "\n") == Write(kept, block);
  }

  lemma BlockParts(domainSuffix: string, ip: string)
    ensures var block, body := XccBlock(domainSuffix, ip), Body(domainSuffix, ip);
            At(block, 0, BEGIN) && At(block, |BEGIN|, body) && At(block, |BEGIN| + |body|, END)
  {
    var body := Body(domainSuffix, ip);
    AtOfConcat("", BEGIN, body + END);
    AtOfConcat(BEGIN, body, END);
    AtOfConcat(BEGIN + body, END, "");
    assert "" + BEGIN + (body + END) == XccBlock(domainSuffix, ip) == BEGIN + body + END + "";
  }

  /** The section, line by line: a server block for the domain that forwards to the address. */
  lemma SectionLines(domainSuffix: string, ip: string)
    requires Free('\n', domainSuffix) && Free('\n', ip)
    ensures Split(XccBlock(domainSuffix, ip), '\n') ==
            ["###" + " BEGIN CROSS CLUSTER CONNECTIVITY", domainSuffix + " {", "    forward . " + ip, "    reload", "}",
             "###" + " END CROSS CLUSTER CONNECTIVITY"]
  {
    MarkersAreLines();
    ReloadText();
    var open, forward := domainSuffix + " {", "    forward . " + ip;
    SectionText(domainSuffix, ip, open, forward);
    LineFree(domainSuffix, ip);
    SixLines(BEGIN, open, forward, "    reload", "}", END);
  }

  lemma ReloadText()
    ensures RELOAD == "\n" + "    reload" + "\n" + "}" + "\n"
  {}

  lemma LineFree(domainSuffix: string, ip: string)
    requires Free('\n', domainSuffix) && Free('\n', ip)
    ensures Free('\n', domainSuffix + " {") && Free('\n', "    forward . " + ip)
    ensures Free('\n', "    reload") && Free('\n', "}")
  {}

  lemma SectionText(domainSuffix: string, ip: string, open: string, forward: string)
    requires open == domainSuffix + " {" && forward == "    forward . " + ip
    ensures Zone(domainSuffix) + ip == "\n" + open + "\n" + forward
  {
    assert " {\n    forward . " == " {" + "\n" + "    forward . ";
    assert Zone(domainSuffix) == "\n" + open + "\n" + "    forward . ";
  }

  lemma SixLines(a: string, b: string, c: string, d: string, e: string, f: string)
    requires Free('\n', a) && Free('\n', b) && Free('\n', c) && Free('\n', d) && Free('\n', e) && Free('\n', f)
    ensures Split(a + (("\n" + b + "\n" + c) + ("\n" + d + "\n" + e + "\n")) + f, '\n') == [a, b, c, d, e, f]
  {
    var lines := [a, b, c, d, e, f];
    SplitJoin(lines, '\n');
    JoinSix(a, b, c, d, e, f);
  }

  lemma JoinSix(a: string, b: string, c: string, d: string, e: string, f: string)
    ensures Join([a, b, c, d, e, f], '\n') == a + (("\n" + b + "\n" + c) + ("\n" + d + "\n" + e + "\n")) + f
  {
    assert [a, b, c, d, e, f][1..] == [b, c, d, e, f] && [b, c, d, e, f][1..] == [c, d, e, f];
    assert [c, d, e, f][1..] == [d, e, f] && [d, e, f][1..] == [e, f] && [e, f][1..] == [f];
    assert Join([e, f], '\n') == e + "\n" + f;
    assert Join([d, e, f], '\n') == d + "\n" + (e + "\n" + f);
    assert Join([c, d, e, f], '\n') == c + "\n" + (d + "\n" + (e + "\n" + f));
  }

  /** A written file is the lines kept, the lines of the section, and a final newline. */
  lemma WrittenLines(kept: string, block: string)
    ensures Split(Write(kept, block), '\n') == Split(kept, '\n') + Split(block, '\n') + [""]
  {
    SplitConcat(kept, block + "\n", '\n');
    SplitConcat(block, "", '\n');
    assert block + "\n" + "" == block + "\n";
    assert kept + "\n" + (block + "\n") == Write(kept, block);
  }

  /** After a patch the block is there, and the same patch again changes nothing. */
  lemma PatchIsIdempotent(domainSuffix: string, ip: string, corefile: string)
    ensures Contains(Patched(domainSuffix, ip, corefile), XccBlock(domainSuffix, ip))
    ensures Patched(domainSuffix, ip, Patched(domainSuffix, ip, corefile)) == Patched(domainSuffix, ip, corefile)
  {
    WrittenHolds(StripXCCBlock(corefile), XccBlock(domainSuffix, ip));
  }

  /** The markers are single lines. */
  lemma MarkersAreLines()
    ensures Free('\n', BEGIN) && Free('\n', END)
  {}

  lemma MarkerChars()
    ensures At(BEGIN, 0, SIGNS) && BEGIN[3] == ' ' && BEGIN[4] == 'B' && |BEGIN| == 36
    ensures At(BEGIN, 3, BEGIN_WORDS) && Free('#', BEGIN_WORDS)
    ensures END[4] == 'E' && |END| == 34
  {
    AtOfConcat("", SIGNS, BEGIN_WORDS);
    AtOfConcat(SIGNS, BEGIN_WORDS, "");
    assert "" + SIGNS + BEGIN_WORDS == BEGIN == SIGNS + BEGIN_WORDS + "";
  }

  lemma MarkersClash(s: string, i: int)
    ensures !(At(s, i, BEGIN) && At(s, i, END))
  {
    MarkerChars();
    if At(s, i, BEGIN) && At(s, i, END) {
      AtChar(s, i, BEGIN, 4);
      AtChar(s, i, END, 4);
    }
  }

  /** In a written file the last end marker is the one of the block. */
  lemma WrittenLastEnd(kept: string, domainSuffix: string, ip: string)
    ensures var block := XccBlock(domainSuffix, ip); LastEnd(Write(kept, block)) == |kept| + 1 + |block|
  {
    MarkersAreLines();
    var block := XccBlock(domainSuffix, ip);
    var f := Write(kept, block);
    WrittenHolds(kept, block);
    BlockParts(domainSuffix, ip);
    AtWithin(f, |kept| + 1, block, |block| - |END|, END);
    var last := LastIndexBelow(f, END, |f| + 1);
    CharOutside(f, last, END, |f| - 1);
  }

  /** The block opens a match right behind the kept text. */
  lemma WrittenOpens(kept: string, domainSuffix: string, ip: string)
    ensures var f := Write(kept, XccBlock(domainSuffix, ip)); MatchesAt(f, |kept|, LastEnd(f))
  {
    WrittenLastEnd(kept, domainSuffix, ip);
    WrittenHolds(kept, XccBlock(domainSuffix, ip));
    BlockParts(domainSuffix, ip);
    AtWithin(Write(kept, XccBlock(domainSuffix, ip)), |kept| + 1, XccBlock(domainSuffix, ip), 0, BEGIN);
  }

  /** No opening reaches from the kept text into the block. */
  lemma OpeningInWritten(kept: string, domainSuffix: string, ip: string, i: nat)
    requires i < |kept|
    ensures OpensAt(Write(kept, XccBlock(domainSuffix, ip)), i) <==> OpensAt(kept, i)
  {
    MarkersAreLines();
    var f := Write(kept, XccBlock(domainSuffix, ip));
    WrittenHolds(kept, XccBlock(domainSuffix, ip));
    AtChar(f, 0, kept, i);
    if OpensAt(f, i) {
      CharOutside(f, i + 1, BEGIN, |kept|);
      AtInside(f, 0, kept, i + 1, BEGIN);
    }
    if OpensAt(kept, i) {
      AtWithin(f, 0, kept, i + 1, BEGIN);
    }
  }

  lemma TrimNewline(s: string)
    requires Trimmed(s)
    ensures TrimSpace(s + "\n") == s
  {
    assert (s + "\n")[..|s|] == s;
    if s == "" {
      assert s + "\n" == "\n" && "\n"[1..] == "";
      assert TrimLeft("\n") == TrimLeft("") == "";
    } else {
      assert TrimLeft(s + "\n") == s + "\n" && TrimRight(s + "\n") == TrimRight(s);
    }
  }

  /** The first match of a written file starts at the block unless the kept text is open. */
  lemma WrittenFirstStart(kept: string, domainSuffix: string, ip: string)
    ensures var i := FirstStart(Write(kept, XccBlock(domainSuffix, ip)), 0);
            0 <= i <= |kept| && (i == |kept| <==> !OpenSection(kept))
  {
    var f := Write(kept, XccBlock(domainSuffix, ip));
    WrittenOpens(kept, domainSuffix, ip);
    var i := FirstStart(f, 0);
    if i < |kept| {
      OpeningInWritten(kept, domainSuffix, ip, i);
    } else {
      forall k ensures !OpensAt(kept, k) {
        if 0 <= k < |kept| {
          OpeningInWritten(kept, domainSuffix, ip, k);
          assert !MatchesAt(f, k, LastEnd(f));
        }
      }
    }
  }

  /** Cutting a written file leaves the kept text up to its first opening, and the last newline. */
  lemma WrittenCut(kept: string, domainSuffix: string, ip: string)
    ensures var f := Write(kept, XccBlock(domainSuffix, ip));
            0 <= FirstStart(f, 0) <= |kept| && ReplaceAll(f) == kept[..FirstStart(f, 0)] + "\n"
  {
    var block := XccBlock(domainSuffix, ip);
    var f := Write(kept, block);
    WrittenFirstStart(kept, domainSuffix, ip);
    WrittenLastEnd(kept, domainSuffix, ip);
    OneCut(f);
    assert f[..FirstStart(f, 0)] == kept[..FirstStart(f, 0)];
    assert f[|kept| + 1 + |block|..] == "\n";
  }

  /**
   * Stripping a freshly written file gives back what was kept exactly when the kept text holds no
   * open section.
   */
  lemma StripUndoesWrite(kept: string, domainSuffix: string, ip: string)
    requires Trimmed(kept)
    ensures StripXCCBlock(Write(kept, XccBlock(domainSuffix, ip))) == kept <==> !OpenSection(kept)
  {
    var f := Write(kept, XccBlock(domainSuffix, ip));
    WrittenFirstStart(kept, domainSuffix, ip);
    WrittenCut(kept, domainSuffix, ip);
    var i := FirstStart(f, 0);
    if i == |kept| {
      assert kept[..i] == kept;
      TrimNewline(kept);
    } else {
      var a, b := TrimIsPiece(ReplaceAll(f));
      OpeningHasRoom(kept, domainSuffix, ip);
    }
  }

  /** The first opening leaves more than its own white space behind it. */
  lemma OpeningHasRoom(kept: string, domainSuffix: string, ip: string)
    requires OpenSection(kept)
    ensures FirstStart(Write(kept, XccBlock(domainSuffix, ip)), 0) + 1 < |kept|
  {
    var f := Write(kept, XccBlock(domainSuffix, ip));
    WrittenFirstStart(kept, domainSuffix, ip);
    OpeningInWritten(kept, domainSuffix, ip, FirstStart(f, 0));
    MarkerChars();
  }

  /** The round trip for a patch that writes. */
  lemma StripUndoesPatch(domainSuffix: string, ip: string, corefile: string)
    requires !Contains(corefile, XccBlock(domainSuffix, ip))
    ensures StripXCCBlock(Patched(domainSuffix, ip, corefile)) == StripXCCBlock(corefile) <==>
            !OpenSection(StripXCCBlock(corefile))
  {
    var a, b := TrimIsPiece(ReplaceAll(corefile));
    StripUndoesWrite(StripXCCBlock(corefile), domainSuffix, ip);
  }

  /** A file whose only opening has no end is kept as it is, so its tail is lost in the round trip. */
  lemma OpenSectionSwallows(domainSuffix: string, ip: string)
    ensures var corefile := "a {}\n" + BEGIN + "\nb {}";
            StripXCCBlock(corefile) == corefile
            && StripXCCBlock(Patched(domainSuffix, ip, corefile)) != corefile
  {
    MarkerChars();
    var corefile := "a {}\n" + BEGIN + "\nb {}";
    AtOfConcat("a {}\n", BEGIN, "\nb {}");
    assert OpensAt(corefile, 4);
    assert |corefile| == 46;
    forall i, j ensures !MatchesAt(corefile, i, j) {}
    OneCut(corefile);
    TrimTrimmed(corefile);
    BlockHead(domainSuffix, ip);
    StripUndoesPatch(domainSuffix, ip, corefile);
  }

  // ---------- Two patches in a row ----------

  lemma BodyIsPlain(domainSuffix: string, ip: string)
    requires OneLine(domainSuffix) && OneLine(ip)
    ensures Free('#', Body(domainSuffix, ip)) && Body(domainSuffix, ip) != ""
  {
    assert Free('#', Zone(domainSuffix)) && Free('#', RELOAD);
  }

  /** In a block, a newline before a number sign is the one before the end marker. */
  lemma NewlineBeforeSign(domainSuffix: string, ip: string, i: nat)
    requires OneLine(domainSuffix) && OneLine(ip)
    requires var b := XccBlock(domainSuffix, ip); i + 1 < |b| && b[i] == '\n' && b[i + 1] == '#'
    ensures i + 1 == |XccBlock(domainSuffix, ip)| - |END|
  {
    MarkersAreLines();
    BodyIsPlain(domainSuffix, ip);
    BlockParts(domainSuffix, ip);
    var b, body := XccBlock(domainSuffix, ip), Body(domainSuffix, ip);
    CharOutside(b, 0, BEGIN, i);
    CharOutside(b, |BEGIN| + |body|, END, i);
    CharOutside(b, |BEGIN|, body, i + 1);
  }

  lemma BlockHead(domainSuffix: string, ip: string)
    ensures var block := XccBlock(domainSuffix, ip);
            At(block, 0, SIGNS) && At(block, 3, BEGIN_WORDS) && |block| > |BEGIN| + |END|
  {
    BlockParts(domainSuffix, ip);
    MarkerChars();
    AtWithin(XccBlock(domainSuffix, ip), 0, BEGIN, 0, SIGNS);
    AtWithin(XccBlock(domainSuffix, ip), 0, BEGIN, 3, BEGIN_WORDS);
  }

  /** Behind its first three characters a block has number signs only in its end marker. */
  lemma SignPlaces(domainSuffix: string, ip: string, p: nat)
    requires OneLine(domainSuffix) && OneLine(ip)
    requires var f := XccBlock(domainSuffix, ip) + "\n"; 3 <= p < |f| && f[p] == '#'
    ensures p >= |XccBlock(domainSuffix, ip)| - |END|
  {
    MarkerChars();
    BodyIsPlain(domainSuffix, ip);
    BlockParts(domainSuffix, ip);
    BlockHead(domainSuffix, ip);
    var block, body := XccBlock(domainSuffix, ip), Body(domainSuffix, ip);
    if p < |block| {
      CharOutside(block, 3, BEGIN_WORDS, p);
      CharOutside(block, |BEGIN|, body, p);
    }
  }

  /** A block cannot start inside another one. */
  lemma NoBlockInside(domainSuffix: string, a: string, b: string, q: nat)
    requires OneLine(domainSuffix) && OneLine(a)
    requires At(XccBlock(domainSuffix, a) + "\n", q, XccBlock(domainSuffix, b))
    ensures q == 0
  {
    var blockA, blockB := XccBlock(domainSuffix, a), XccBlock(domainSuffix, b);
    var f := blockA + "\n";
    BlockHead(domainSuffix, a);
    BlockHead(domainSuffix, b);
    AtWithin(f, q, blockB, 0, SIGNS);
    AtChar(f, q, SIGNS, 0);
    if q >= 3 {
      SignPlaces(domainSuffix, a, q);
    } else {
      AtChar(blockA, 3, BEGIN_WORDS, 0);
      CharOutside(f, q, SIGNS, 3);
    }
  }

  function AddressHead(domainSuffix: string): string {
    BEGIN + Zone(domainSuffix)
  }

  lemma Regroup(a: string, b: string, c: string, d: string, e: string)
    ensures a + (b + c + d) + e == (a + b) + c + (d + e)
  {}

  lemma AddressPlace(domainSuffix: string, ip: string)
    ensures var head, f := AddressHead(domainSuffix), XccBlock(domainSuffix, ip);
            At(f, |head|, ip) && |head| + |ip| < |f| && f[|head| + |ip|] == '\n' && |f| == |head| + |ip| + |RELOAD| + |END|
  {
    var head := AddressHead(domainSuffix);
    AtOfConcat(head, ip, RELOAD + END);
    Regroup(BEGIN, Zone(domainSuffix), ip, RELOAD, END);
    assert RELOAD[0] == '\n';
  }

  /** A block at the start of another has the same address. */
  lemma SameAddress(domainSuffix: string, a: string, b: string)
    requires OneLine(a) && OneLine(b)
    requires At(XccBlock(domainSuffix, a) + "\n", 0, XccBlock(domainSuffix, b))
    ensures a == b
  {
    var head, blockA, blockB := AddressHead(domainSuffix), XccBlock(domainSuffix, a), XccBlock(domainSuffix, b);
    var f := blockA + "\n";
    AddressPlace(domainSuffix, a);
    AddressPlace(domainSuffix, b);
    AtWithin(f, 0, blockB, |head|, b);
    AtChar(f, 0, blockB, |head| + |b|);
    assert At(f, 0, blockA) && f[|head| + |a|] == '\n';
    AtWithin(f, 0, blockA, |head|, a);
    CharOutside(f, |head|, b, |head| + |a|);
    CharOutside(f, |head|, a, |head| + |b|);
  }

  /** A block that starts in the kept text of a written file ends there too. */
  lemma BlockAcrossSeam(kept: string, domainSuffix: string, a: string, b: string, p: nat)
    requires OneLine(domainSuffix) && OneLine(b) && p <= |kept|
    requires At(Write(kept, XccBlock(domainSuffix, a)), p, XccBlock(domainSuffix, b))
    ensures p + |XccBlock(domainSuffix, b)| <= |kept|
  {
    if p + |XccBlock(domainSuffix, b)| > |kept| {
      SeamBeforeEnd(kept, domainSuffix, a, b, p);
      var f, blockB := Write(kept, XccBlock(domainSuffix, a)), XccBlock(domainSuffix, b);
      BlockParts(domainSuffix, b);
      AtWithin(f, p, blockB, |blockB| - |END|, END);
      assert At(f, |kept| + 1, END);
      BeginBehindSeam(kept, domainSuffix, a);
      MarkersClash(f, |kept| + 1);
    }
  }

  lemma BeginBehindSeam(kept: string, domainSuffix: string, ip: string)
    ensures At(Write(kept, XccBlock(domainSuffix, ip)), |kept| + 1, BEGIN)
    ensures Write(kept, XccBlock(domainSuffix, ip))[|kept| + 1] == '#'
  {
    var block := XccBlock(domainSuffix, ip);
    WrittenHolds(kept, block);
    BlockParts(domainSuffix, ip);
    AtWithin(Write(kept, block), |kept| + 1, block, 0, BEGIN);
    AtChar(Write(kept, block), |kept| + 1, BEGIN, 0);
  }

  /** A block across the seam would have its end marker right behind the newline there. */
  lemma SeamBeforeEnd(kept: string, domainSuffix: string, a: string, b: string, p: nat)
    requires OneLine(domainSuffix) && OneLine(b) && p <= |kept| < p + |XccBlock(domainSuffix, b)|
    requires At(Write(kept, XccBlock(domainSuffix, a)), p, XccBlock(domainSuffix, b))
    ensures |kept| + 1 == p + |XccBlock(domainSuffix, b)| - |END|
  {
    var f, blockB, i := Write(kept, XccBlock(domainSuffix, a)), XccBlock(domainSuffix, b), |kept| - p;
    MarkersAreLines();
    WrittenHolds(kept, XccBlock(domainSuffix, a));
    BeginBehindSeam(kept, domainSuffix, a);
    BlockParts(domainSuffix, b);
    AtChar(f, p, blockB, i);
    CharOutside(blockB, |blockB| - |END|, END, i);
    AtChar(f, p, blockB, i + 1);
    NewlineBeforeSign(domainSuffix, b, i);
  }

  /** A freshly written file holds the other block only if the kept text does. */
  lemma OtherBlockOnlyKept(kept: string, domainSuffix: string, a: string, b: string)
    requires OneLine(domainSuffix) && OneLine(a) && OneLine(b) && a != b
    ensures Contains(Write(kept, XccBlock(domainSuffix, a)), XccBlock(domainSuffix, b)) <==>
            Contains(kept, XccBlock(domainSuffix, b))
  {
    var blockA, blockB := XccBlock(domainSuffix, a), XccBlock(domainSuffix, b);
    var f := Write(kept, blockA);
    WrittenHolds(kept, blockA);
    if Contains(kept, blockB) {
      var p :| 0 <= p <= |kept| && At(kept, p, blockB);
      AtWithin(f, 0, kept, p, blockB);
      assert At(f, p, blockB);
    }
    if Contains(f, blockB) {
      var p :| 0 <= p <= |f| && At(f, p, blockB);
      OtherBlockPlace(kept, domainSuffix, a, b, p);
    }
  }

  lemma OtherBlockPlace(kept: string, domainSuffix: string, a: string, b: string, p: nat)
    requires OneLine(domainSuffix) && OneLine(a) && OneLine(b) && a != b
    requires At(Write(kept, XccBlock(domainSuffix, a)), p, XccBlock(domainSuffix, b))
    ensures Contains(kept, XccBlock(domainSuffix, b))
  {
    var blockA, blockB := XccBlock(domainSuffix, a), XccBlock(domainSuffix, b);
    var f := Write(kept, blockA);
    WrittenHolds(kept, blockA);
    if p <= |kept| {
      BlockAcrossSeam(kept, domainSuffix, a, b, p);
      AtInside(f, 0, kept, p, blockB);
      assert At(kept, p, blockB);
    } else {
      AtOfConcat(kept + "\n", blockA + "\n", "");
      assert kept + "\n" + (blockA + "\n") + "" == f;
      AtInside(f, |kept| + 1, blockA + "\n", p, blockB);
      NoBlockInside(domainSuffix, a, b, p - |kept| - 1);
      SameAddress(domainSuffix, a, b);
    }
  }

  lemma DifferentBlocks(domainSuffix: string, a: string, b: string)
    requires XccBlock(domainSuffix, a) == XccBlock(domainSuffix, b)
    ensures a == b
  {
    AddressPlace(domainSuffix, a);
    AddressPlace(domainSuffix, b);
  }

  lemma OpeningInPiece(s: string, a: nat, b: nat, k: nat)
    requires a <= b <= |s| && OpensAt(s[a..b], k)
    ensures OpensAt(s, a + k)
  {
    AtWithin(s, a, s[a..b], k + 1, BEGIN);
  }

  lemma PieceStaysClosed(s: string, a: nat, b: nat)
    requires a <= b <= |s| && !OpenSection(s)
    ensures !OpenSection(s[a..b])
  {
    forall k ensures !OpensAt(s[a..b], k) {
      if OpensAt(s[a..b], k) {
        OpeningInPiece(s, a, b, k);
      }
    }
  }

  /** A prefix without an opening stays closed with a newline behind it. */
  lemma PrefixStaysClosed(kept: string, i: nat)
    requires i <= |kept| && forall k | 0 <= k < i :: !OpensAt(kept, k)
    ensures !OpenSection(kept[..i] + "\n")
  {
    var cut := kept[..i] + "\n";
    forall k ensures !OpensAt(cut, k) {
      if OpensAt(cut, k) {
        NoOpeningInPrefix(kept, i, cut, k);
      }
    }
  }

  /** A line in a prefix with a newline behind it lies in the prefix. */
  lemma LineInPrefix(kept: string, i: nat, k: nat, t: string)
    requires i <= |kept| && k <= i && t != "" && Free('\n', t) && At(kept[..i] + "\n", k, t)
    ensures At(kept, k, t) && k + |t| <= i
  {
    var cut := kept[..i] + "\n";
    assert cut[i] == '\n';
    CharOutside(cut, k, t, i);
    assert kept[k..k + |t|] == cut[k..k + |t|];
  }

  lemma NoOpeningInPrefix(kept: string, i: nat, cut: string, k: nat)
    requires i <= |kept| && cut == kept[..i] + "\n" && OpensAt(cut, k)
    ensures k < i && OpensAt(kept, k)
  {
    MarkersAreLines();
    MarkerChars();
    LineInPrefix(kept, i, k + 1, BEGIN);
    assert cut[k] == kept[k];
  }

  /** What is stripped from a written file is never left open. */
  lemma StrippedWriteIsClosed(kept: string, domainSuffix: string, ip: string)
    ensures !OpenSection(StripXCCBlock(Write(kept, XccBlock(domainSuffix, ip))))
  {
    var f := Write(kept, XccBlock(domainSuffix, ip));
    WrittenOpens(kept, domainSuffix, ip);
    WrittenCut(kept, domainSuffix, ip);
    var i := FirstStart(f, 0);
    forall k | 0 <= k < i ensures !OpensAt(kept, k) {
      OpeningInWritten(kept, domainSuffix, ip, k);
      assert !MatchesAt(f, k, LastEnd(f));
    }
    PrefixStaysClosed(kept, i);
    var a, b := TrimIsPiece(ReplaceAll(f));
    PieceStaysClosed(ReplaceAll(f), a, b);
  }

  /**
   * Last writer wins. Patching with address a and then b is patching with b alone: always when a's
   * block was there already; for a file with neither block exactly when the kept text holds neither
   * an open section nor b's block by accident of the cut; and for a file with b's block only,
   * exactly when it is what a patch with b writes behind the kept text.
   */
  lemma LastWriterWins(domainSuffix: string, a: string, b: string, corefile: string)
    requires OneLine(domainSuffix) && OneLine(a) && OneLine(b) && a != b
    ensures var kept, blockA, blockB := StripXCCBlock(corefile), XccBlock(domainSuffix, a), XccBlock(domainSuffix, b);
            Patched(domainSuffix, b, Patched(domainSuffix, a, corefile)) == Patched(domainSuffix, b, corefile) <==>
            if Contains(corefile, blockA) then true
            else if Contains(corefile, blockB) then corefile == Write(kept, blockB) && !Contains(kept, blockB)
            else !OpenSection(kept) && !Contains(kept, blockB)
  {
    var blockA, blockB := XccBlock(domainSuffix, a), XccBlock(domainSuffix, b);
    if !Contains(corefile, blockA) {
      if Contains(corefile, blockB) {
        LastWriterHeld(domainSuffix, a, b, corefile);
      } else {
        LastWriterFresh(domainSuffix, a, b, corefile);
      }
    }
  }

  lemma LastWriterFresh(domainSuffix: string, a: string, b: string, corefile: string)
    requires OneLine(domainSuffix) && OneLine(a) && OneLine(b) && a != b
    requires !Contains(corefile, XccBlock(domainSuffix, a)) && !Contains(corefile, XccBlock(domainSuffix, b))
    ensures Patched(domainSuffix, b, Patched(domainSuffix, a, corefile)) == Patched(domainSuffix, b, corefile) <==>
            !OpenSection(StripXCCBlock(corefile)) && !Contains(StripXCCBlock(corefile), XccBlock(domainSuffix, b))
  {
    var blockA, blockB, kept := XccBlock(domainSuffix, a), XccBlock(domainSuffix, b), StripXCCBlock(corefile);
    OtherBlockOnlyKept(kept, domainSuffix, a, b);
    var i, j := TrimIsPiece(ReplaceAll(corefile));
    StripUndoesWrite(kept, domainSuffix, a);
    if Contains(kept, blockB) {
      WrittenDiffer(kept, kept, blockA, blockB);
      if blockA == blockB {
        DifferentBlocks(domainSuffix, a, b);
      }
    } else {
      WrittenDiffer(StripXCCBlock(Write(kept, blockA)), kept, blockB, blockB);
    }
  }

  lemma LastWriterHeld(domainSuffix: string, a: string, b: string, corefile: string)
    requires OneLine(domainSuffix) && OneLine(a) && OneLine(b) && a != b
    requires !Contains(corefile, XccBlock(domainSuffix, a)) && Contains(corefile, XccBlock(domainSuffix, b))
    ensures Patched(domainSuffix, b, Patched(domainSuffix, a, corefile)) == corefile <==>
            corefile == Write(StripXCCBlock(corefile), XccBlock(domainSuffix, b))
            && !Contains(StripXCCBlock(corefile), XccBlock(domainSuffix, b))
  {
    var blockA, blockB, kept := XccBlock(domainSuffix, a), XccBlock(domainSuffix, b), StripXCCBlock(corefile);
    var between := Write(kept, blockA);
    WrittenHolds(kept, blockA);
    OtherBlockOnlyKept(kept, domainSuffix, a, b);
    if !Contains(kept, blockB) {
      var again := StripXCCBlock(between);
      if corefile == Write(kept, blockB) {
        StrippedWriteIsClosed(kept, domainSuffix, b);
        var i, j := TrimIsPiece(ReplaceAll(corefile));
        StripUndoesWrite(kept, domainSuffix, a);
      }
      if corefile == Write(again, blockB) {
        StrippedWriteIsClosed(kept, domainSuffix, a);
        var i, j := TrimIsPiece(ReplaceAll(between));
        StripUndoesWrite(again, domainSuffix, b);
      }
    }
  }

  lemma WrittenDiffer(x: string, y: string, blockX: string, blockY: string)
    requires x == y || blockX == blockY
    ensures Write(x, blockX) == Write(y, blockY) <==> x == y && blockX == blockY
  {
    if Write(x, blockX) == Write(y, blockY) {
      assert |x| == |y| && |blockX| == |blockY|;
      assert x == Write(x, blockX)[..|x|] == y;
      assert blockX == Write(x, blockX)[|x| + 1..|x| + 1 + |blockX|] == blockY;
    }
  }

  /** Patching to another address and back restores a file this patcher wrote. */
  lemma ThereAndBack(kept: string, domainSuffix: string, a: string, b: string)
    requires OneLine(domainSuffix) && OneLine(a) && OneLine(b) && a != b
    requires Trimmed(kept) && !OpenSection(kept)
    requires !Contains(kept, XccBlock(domainSuffix, a)) && !Contains(kept, XccBlock(domainSuffix, b))
    ensures var file := Write(kept, XccBlock(domainSuffix, b));
            Patched(domainSuffix, b, Patched(domainSuffix, a, file)) == file
  {
    var file := Write(kept, XccBlock(domainSuffix, b));
    WrittenHolds(kept, XccBlock(domainSuffix, b));
    OtherBlockOnlyKept(kept, domainSuffix, b, a);
    StripUndoesWrite(kept, domainSuffix, b);
    LastWriterWins(domainSuffix, a, b, file);
  }
}
