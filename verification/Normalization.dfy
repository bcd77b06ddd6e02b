/** What normalizing a name comes to (backend/app/services/ingestion/domain_matcher.py): which
    spellings are one name, and where the order of its three steps shows. */
module Normalization {
  import opened Names

  /** The same letter, in either case. */
  predicate CaseTwins(a: char, b: char) {
    || a == b
    || ('A' <= a <= 'Z' && b as int == a as int + 32)
    || ('A' <= b <= 'Z' && a as int == b as int + 32)
  }

  predicate SameButCase(s: string, t: string) {
    |s| == |t| && forall i | 0 <= i < |s| :: CaseTwins(s[i], t[i])
  }

  predicate NoCapital(s: string) {
    forall i | 0 <= i < |s| :: !('A' <= s[i] <= 'Z')
  }

  predicate Blank(c: char) {
    c == ' ' || c == '\t' || c == '\n' || c == '\r'
  }

  predicate AllBlank(s: string) {
    forall i | 0 <= i < |s| :: Blank(s[i])
  }

  predicate AllDots(s: string) {
    forall i | 0 <= i < |s| :: s[i] == '.'
  }

  /** What is left of a name between the white space around it and its final dots. */
  predicate IsCore(core: string, dots: string) {
    core != "" && !Blank(core[0]) && core[|core| - 1] != '.' && (dots == "" ==> !Blank(core[|core| - 1]))
  }

  // ----- the steps

  lemma {:induction false} StripLeftBlank(before: string, s: string)
    requires AllBlank(before)
    ensures StripLeft(before + s) == StripLeft(s)
  {
    if before == "" {
      assert before + s == s;
    } else {
      assert (before + s)[1..] == before[1..] + s;
      StripLeftBlank(before[1..], s);
    }
  }

  lemma {:induction false} StripRightBlank(s: string, after: string)
    requires AllBlank(after)
    ensures StripRight(s + after) == StripRight(s)
  {
    if after == "" {
      assert s + after == s;
    } else {
      var n := |after| - 1;
      assert (s + after)[..|s| + n] == s + after[..n];
      StripRightBlank(s, after[..n]);
    }
  }

  lemma {:induction false} StripDotsAll(s: string, dots: string)
    requires AllDots(dots)
    ensures StripDots(s + dots) == StripDots(s)
  {
    if dots == "" {
      assert s + dots == s;
    } else {
      var n := |dots| - 1;
      assert (s + dots)[..|s| + n] == s + dots[..n];
      StripDotsAll(s, dots[..n]);
    }
  }

  lemma LowerKeepsCase(s: string)
    ensures SameButCase(LowerAll(s), s) && NoCapital(LowerAll(s))
  {
  }

  /** For any name with something in it: the normalized name is that core, in lower case. */
  lemma NormOf(before: string, core: string, dots: string, after: string)
    requires AllBlank(before) && IsCore(core, dots) && AllDots(dots) && AllBlank(after)
    ensures var n := Norm(before + core + dots + after);
            SameButCase(n, core) && NoCapital(n)
  {
    var inner := core + dots;
    assert before + core + dots + after == before + (inner + after);
    StripLeftBlank(before, inner + after);
    assert StripLeft(inner + after) == inner + after;
    StripRightBlank(inner, after);
    assert StripRight(inner) == inner;
    assert LowerAll(inner) == LowerAll(core) + dots;
    StripDotsAll(LowerAll(core), dots);
    LowerKeepsCase(core);
    assert StripDots(LowerAll(core)) == LowerAll(core);
  }

  /** And of a name with nothing in it nothing is left. */
  lemma NormOfNothing(before: string, dots: string, after: string)
    requires AllBlank(before) && AllDots(dots) && AllBlank(after)
    ensures Norm(before + dots + after) == ""
  {
    assert before + dots + after == before + (dots + after);
    StripLeftBlank(before, dots + after);
    if dots == "" {
      assert dots + after == after && after + "" == after;
      StripLeftBlank(after, "");
    } else {
      assert StripLeft(dots + after) == dots + after;
      StripRightBlank(dots, after);
      assert LowerAll(dots) == "" + dots;
      StripDotsAll("", dots);
    }
  }

  lemma {:induction false} TakeLeft(s: string) returns (before: string)
    ensures AllBlank(before) && s == before + StripLeft(s)
    ensures StripLeft(s) != "" ==> !Blank(StripLeft(s)[0])
  {
    before := "";
    if s != "" && IsSpace(s[0]) {
      var rest := TakeLeft(s[1..]);
      before := [s[0]] + rest;
      assert s == [s[0]] + s[1..];
    }
  }

  lemma {:induction false} TakeRight(s: string) returns (after: string)
    ensures AllBlank(after) && s == StripRight(s) + after
    ensures StripRight(s) != "" ==> !Blank(StripRight(s)[|StripRight(s)| - 1])
  {
    after := "";
    if s != "" && IsSpace(s[|s| - 1]) {
      var rest := TakeRight(s[..|s| - 1]);
      after := rest + [s[|s| - 1]];
      assert s == s[..|s| - 1] + [s[|s| - 1]];
    }
  }

  lemma {:induction false} TakeDots(s: string) returns (dots: string)
    ensures AllDots(dots) && s == StripDots(s) + dots
    ensures StripDots(s) != "" ==> StripDots(s)[|StripDots(s)| - 1] != '.'
  {
    dots := "";
    if s != "" && s[|s| - 1] == '.' {
      var rest := TakeDots(s[..|s| - 1]);
      dots := rest + ".";
      assert s == s[..|s| - 1] + ".";
    }
  }

  /** Every name is of one of the two kinds. */
  lemma EveryName(s: string) returns (before: string, core: string, dots: string, after: string)
    ensures s == before + core + dots + after
    ensures AllBlank(before) && AllDots(dots) && AllBlank(after) && (core == "" || IsCore(core, dots))
  {
    before := TakeLeft(s);
    var rest := StripLeft(s);
    after := TakeRight(rest);
    var inner := StripRight(rest);
    dots := TakeDots(inner);
    core := StripDots(inner);
  }

  // ----- which spellings are one name

  lemma {:induction false} CaseStripLeft(s: string, t: string)
    requires SameButCase(s, t)
    ensures SameButCase(StripLeft(s), StripLeft(t))
  {
    if s != "" && IsSpace(s[0]) {
      assert CaseTwins(s[0], t[0]);
      CaseStripLeft(s[1..], t[1..]);
    } else if s != "" {
      assert CaseTwins(s[0], t[0]);
    }
  }

  lemma {:induction false} CaseStripRight(s: string, t: string)
    requires SameButCase(s, t)
    ensures SameButCase(StripRight(s), StripRight(t))
  {
    if s != "" {
      assert CaseTwins(s[|s| - 1], t[|s| - 1]);
      if IsSpace(s[|s| - 1]) {
        CaseStripRight(s[..|s| - 1], t[..|s| - 1]);
      }
    }
  }

  lemma LowerTwins(s: string, t: string)
    ensures SameButCase(s, t) <==> LowerAll(s) == LowerAll(t)
  {
    if SameButCase(s, t) {
      forall i | 0 <= i < |s|
        ensures LowerAll(s)[i] == LowerAll(t)[i]
      {
        assert CaseTwins(s[i], t[i]);
      }
    }
    if LowerAll(s) == LowerAll(t) {
      forall i | 0 <= i < |s|
        ensures CaseTwins(s[i], t[i])
      {
        assert LowerAll(s)[i] == LowerAll(t)[i];
      }
    }
  }

  /** Names that differ in case alone have the same match, whatever is registered. */
  lemma CaseDoesNotMatter(registered: set<string>, s: string, t: string)
    requires SameButCase(s, t)
    ensures Match(registered, s) == Match(registered, t)
  {
    CaseStripLeft(s, t);
    CaseStripRight(StripLeft(s), StripLeft(t));
    LowerTwins(StripRight(StripLeft(s)), StripRight(StripLeft(t)));
  }

  /** So does a name with white space around it. */
  lemma SpaceAroundDoesNotMatter(registered: set<string>, before: string, s: string, after: string)
    requires AllBlank(before) && AllBlank(after)
    ensures Norm(before + s + after) == Norm(s) && Match(registered, before + s + after) == Match(registered, s)
  {
    assert before + s + after == before + (s + after);
    StripLeftBlank(before, s + after);
    StripLeftAppend(s, after);
    if StripLeft(s) == "" {
      StripLeftBlank(after, "");
      assert after + "" == after;
    } else {
      StripRightBlank(StripLeft(s), after);
    }
  }

  lemma {:induction false} StripLeftAppend(s: string, after: string)
    ensures StripLeft(s + after) == if StripLeft(s) == "" then StripLeft(after) else StripLeft(s) + after
  {
    if s == "" {
      assert s + after == after;
    } else {
      assert (s + after)[1..] == s[1..] + after;
      if IsSpace(s[0]) {
        StripLeftAppend(s[1..], after);
      }
    }
  }

  /** Final dots do not matter exactly when no white space stands before them: the dots are taken
      off last, and the white space is not looked at again. */
  lemma FinalDotsExactly(s: string, dots: string)
    requires AllDots(dots) && dots != ""
    ensures Norm(s + dots) == Norm(s) <==> AllBlank(s) || !Blank(s[|s| - 1])
  {
    StripLeftAppend(s, dots);
    var before := TakeLeft(s);
    var rest := StripLeft(s);
    assert rest == "" <==> AllBlank(s) by {
      assert rest != "" ==> s[|before|] == rest[0];
    }
    if rest == "" {
      assert StripLeft(dots) == dots == StripRight(dots) && LowerAll(dots) == "" + dots;
      StripDotsAll("", dots);
    } else {
      assert StripRight(rest + dots) == rest + dots && LowerAll(rest + dots) == LowerAll(rest) + dots;
      StripDotsAll(LowerAll(rest), dots);
      assert s[|s| - 1] == rest[|rest| - 1];
      if Blank(s[|s| - 1]) {
        assert StripDots(LowerAll(rest)) == LowerAll(rest);
        ShorterStrips(rest);
      }
    }
  }

  lemma ShorterStrips(rest: string)
    requires rest != "" && Blank(rest[|rest| - 1])
    ensures |StripDots(LowerAll(StripRight(rest)))| < |LowerAll(rest)|
  {
    StripsShorten(rest[..|rest| - 1]);
    StripsShorten(LowerAll(StripRight(rest)));
  }

  lemma {:induction false} StripsShorten(s: string)
    ensures |StripRight(s)| <= |s| && |StripDots(s)| <= |s|
  {
    if s != "" {
      StripsShorten(s[..|s| - 1]);
    }
  }

  // ----- what a normalized name looks like

  /** White space, with something before it, and then only dots and white space after the dots. */
  ghost predicate SpaceBeforeDots(s: string) {
    exists a, dots, after | dots != "" && AllDots(dots) && AllBlank(after) ::
      s == a + dots + after && a != "" && Blank(a[|a| - 1]) && !AllBlank(a)
  }

  lemma BlankCore(before: string, core: string, dots: string, after: string)
    requires AllBlank(before) && IsCore(core, dots) && AllDots(dots) && AllBlank(after)
    ensures Blank(core[|core| - 1]) ==> SpaceBeforeDots(before + core + dots + after)
  {
    if Blank(core[|core| - 1]) {
      var a := before + core;
      assert a[|before|] == core[0] && a[|a| - 1] == core[|core| - 1];
      assert before + core + dots + after == a + dots + after;
    }
  }

  lemma BlankEnd(s: string)
    requires SpaceBeforeDots(s)
    ensures Norm(s) != "" && Blank(Norm(s)[|Norm(s)| - 1])
  {
    var a, dots, after :| dots != "" && AllDots(dots) && AllBlank(after)
                          && s == a + dots + after && a != "" && Blank(a[|a| - 1]) && !AllBlank(a);
    var before := TakeLeft(a);
    var core := StripLeft(a);
    assert core != "" by {
      assert core == "" ==> a == before;
    }
    assert core[|core| - 1] == a[|a| - 1];
    assert before + core + dots + after == s;
    NormOf(before, core, dots, after);
    assert CaseTwins(Norm(s)[|core| - 1], core[|core| - 1]);
  }

  /** No capital, no white space in front and no final dot are left. White space at the end is left
      exactly behind such white space, and exactly then normalizing again changes the name. */
  lemma NormEdges(s: string)
    ensures var n := Norm(s);
            && NoCapital(n) && (n != "" ==> !Blank(n[0]) && n[|n| - 1] != '.')
            && (n != "" && Blank(n[|n| - 1]) <==> SpaceBeforeDots(s))
            && (Norm(n) == n <==> !SpaceBeforeDots(s))
  {
    var n := Norm(s);
    var before, core, dots, after := EveryName(s);
    if core == "" {
      assert before + core + dots + after == before + dots + after;
      NormOfNothing(before, dots, after);
      if SpaceBeforeDots(s) {
        BlankEnd(s);
      }
    } else {
      NormOf(before, core, dots, after);
      BlankCore(before, core, dots, after);
      assert CaseTwins(n[0], core[0]) && CaseTwins(n[|n| - 1], core[|core| - 1]);
      if SpaceBeforeDots(s) {
        BlankEnd(s);
        assert StripLeft(n) == n;
        StripsShorten(LowerAll(StripRight(n)));
        StripsShorten(n[..|n| - 1]);
      } else {
        assert "" + n + "" + "" == n && IsCore(n, "");
        NormOf("", n, "", "");
        LowerIsFixed(n, Norm(n));
      }
    }
  }

  lemma LowerIsFixed(n: string, m: string)
    requires SameButCase(m, n) && NoCapital(n) && NoCapital(m)
    ensures m == n
  {
    assert forall i | 0 <= i < |n| :: CaseTwins(m[i], n[i]);
  }

  // ----- the names a request registers

  const LETTERS := "abcdefghijklmnopqrstuvwxyz"
  const CAPITALS := "ABCDEFGHIJKLMNOPQRSTUVWXYZ"
  const DIGITS := "0123456789"

  /** A label of a host name: 1 to 63 letters, digits and hyphens, no hyphen at either end. */
  predicate HostLabel(l: string) {
    && 1 <= |l| <= 63
    && (forall i | 0 <= i < |l| :: l[i] in LETTERS || l[i] in CAPITALS || l[i] in DIGITS || l[i] == '-')
    && l[0] != '-' && l[|l| - 1] != '-'
  }

  lemma LettersExactly(c: char)
    ensures c in LETTERS <==> 'a' <= c <= 'z'
  {
    if 'a' <= c <= 'z' {
      assert LETTERS[c as int - 'a' as int] == c;
    }
  }

  lemma CapitalsExactly(c: char)
    ensures c in CAPITALS <==> 'A' <= c <= 'Z'
  {
    if 'A' <= c <= 'Z' {
      assert CAPITALS[c as int - 'A' as int] == c;
    }
  }

  lemma DigitsExactly(c: char)
    ensures c in DIGITS <==> '0' <= c <= '9'
  {
    if '0' <= c <= '9' {
      assert DIGITS[c as int - '0' as int] == c;
    }
  }

  lemma LabelExactly(l: string)
    ensures ValidLabel(l) <==> HostLabel(l)
  {
    forall i | 0 <= i < |l|
      ensures IsLabelChar(l[i]) <==> l[i] in LETTERS || l[i] in CAPITALS || l[i] in DIGITS || l[i] == '-'
    {
      LettersExactly(l[i]);
      CapitalsExactly(l[i]);
      DigitsExactly(l[i]);
    }
    assert forall i | 0 <= i < |l| :: l[i] in l;
  }

  lemma {:induction false} LabelOf(l: string, rest: string)
    requires '.' !in l
    ensures Label(l + "." + rest) == l && Parent(l + "." + rest) == rest
  {
    var s := l + "." + rest;
    if l == "" {
      assert s[0] == '.' && s[1..] == rest;
    } else {
      assert s[0] == l[0] && s[0] in l && s[1..] == l[1..] + "." + rest;
      LabelOf(l[1..], rest);
    }
  }

  lemma {:induction false} SplitJoin(labels: seq<string>)
    requires labels != [] && forall l | l in labels :: '.' !in l
    ensures Split(Join(labels)) == labels
  {
    assert labels[0] in labels;
    if |labels| > 1 {
      assert forall l | l in labels[1..] :: l in labels;
      SplitJoin(labels[1..]);
      LabelOf(labels[0], Join(labels[1..]));
      assert Join(labels)[|labels[0]|] == '.';
    }
  }

  /** The names that pass are those of two or more labels with dots between them, 253 characters at most. */
  lemma HostExactly(s: string)
    ensures ValidHost(s) <==>
              && |s| <= 253
              && exists labels :: |labels| >= 2 && (forall l | l in labels :: HostLabel(l)) && Join(labels) == s
  {
    if ValidHost(s) {
      JoinSplit(s);
      forall l | l in Split(s)
        ensures HostLabel(l)
      {
        LabelExactly(l);
      }
    }
    if labels :| |labels| >= 2 && (forall l | l in labels :: HostLabel(l)) && Join(labels) == s {
      forall l | l in labels
        ensures ValidLabel(l) && '.' !in l
      {
        LabelExactly(l);
      }
      SplitJoin(labels);
    }
  }

  lemma {:induction false} NoEmptyEdges(s: string)
    requires s != "" && forall l | l in Split(s) :: ValidLabel(l)
    ensures s[0] != '.' && s[|s| - 1] != '.'
    decreases |s|
  {
    assert Split(s)[0] in Split(s);
    if '.' in s {
      LabelThenParent(s);
      assert Split(s)[1..] == Split(Parent(s));
      assert Split(Parent(s))[0] in Split(s);
      assert forall l | l in Split(Parent(s)) :: l in Split(s);
      if Parent(s) != "" {
        NoEmptyEdges(Parent(s));
      }
    }
  }

  lemma HostIsNormal(s: string)
    requires ValidHost(s) && NoCapital(s)
    ensures s != "" && Norm(s) == s && !Blank(s[|s| - 1])
  {
    ValidChars(s);
    NoEmptyEdges(s);
    assert s[0] in s && s[|s| - 1] in s;
    assert "" + s + "" + "" == s;
    NormOf("", s, "", "");
    LowerIsFixed(s, Norm(s));
  }

  /** A name that passes the check is a normal host name, but for one newline at its end, which it
      has exactly when one stood before the final dots; normalizing again takes it off. */
  lemma AcceptedName(raw: string)
    requires ValidName(Norm(raw))
    ensures var n := Norm(raw);
            && ValidHost(Norm(n)) && NoCapital(Norm(n))
            && n == if SpaceBeforeDots(raw) then Norm(n) + "\n" else Norm(n)
  {
    var n := Norm(raw);
    NormEdges(raw);
    if ValidHost(n) {
      HostIsNormal(n);
    } else {
      var host := n[..|n| - 1];
      assert n == "" + host + "\n";
      assert NoCapital(host) by {
        assert forall i | 0 <= i < |host| :: host[i] == n[i];
      }
      HostIsNormal(host);
      SpaceAroundDoesNotMatter({}, "", host, "\n");
    }
  }

  lemma EndsAlike(s: string, d: string)
    requires Under(s, d) && d != ""
    ensures s != "" && s[|s| - 1] == d[|d| - 1]
  {
  }

  /** A domain registered with that newline matches no name that was written without one. */
  lemma NewlineMatchesNothing(registered: set<string>, host: string, name: string)
    requires !SpaceBeforeDots(name)
    ensures Match(registered + {host + "\n"}, name) == Match(registered, name)
  {
    var n, d := Norm(name), host + "\n";
    NormEdges(name);
    if Under(n, d) {
      EndsAlike(n, d);
    }
    MatchFrame(registered, d, n);
  }

  /** Such a name: the newline is taken for white space only at the very end. */
  lemma NewlineIsRegistered()
    ensures Norm("b.c\n.") == "b.c\n" && ValidName("b.c\n")
  {
    assert "" + "b.c\n" + "." + "" == "b.c\n.";
    NormOf("", "b.c\n", ".", "");
    LowerIsFixed("b.c\n", Norm("b.c\n."));
    var host := "b.c\n"[..3];
    assert host == "b" + "." + "c";
    LabelOf("b", "c");
    assert Split("c") == ["c"] && Split(host) == ["b"] + ["c"];
  }
}
