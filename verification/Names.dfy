/** Domain names as strings, and the walk from a name to its registered ancestors
    (backend/app/services/ingestion/domain_matcher.py). */
module Names {
  import opened Wrappers

  predicate IsSpace(c: char) {
    c == ' ' || c == '\t' || c == '\n' || c == '\r'
  }

  function Lower(c: char): char {
    if 'A' <= c <= 'Z' then c - 'A' + 'a' else c
  }

  function LowerAll(s: string): string {
    seq(|s|, i requires 0 <= i < |s| => Lower(s[i]))
  }

  function StripLeft(s: string): string {
    if s != [] && IsSpace(s[0]) then StripLeft(s[1..]) else s
  }

  function StripRight(s: string): string {
    if s != [] && IsSpace(s[|s| - 1]) then StripRight(s[..|s| - 1]) else s
  }

  function StripDots(s: string): string {
    if s != [] && s[|s| - 1] == '.' then StripDots(s[..|s| - 1]) else s
  }

  /** name.strip().lower().rstrip(".") */
  function Norm(s: string): string {
    StripDots(LowerAll(StripRight(StripLeft(s))))
  }

  predicate EndsWith(s: string, t: string) {
    |t| <= |s| && s[|s| - |t|..] == t
  }

  /** d is s itself or one of its ancestors: s ends with "." + d. */
  predicate Under(s: string, d: string) {
    s == d || EndsWith(s, "." + d)
  }

  /** What follows the first dot. */
  function Parent(s: string): (p: string)
    requires '.' in s
    ensures |p| < |s|
  {
    if s[0] == '.' then s[1..] else Parent(s[1..])
  }

  lemma TailEndsWith(s: string, t: string)
    requires |t| < |s|
    ensures EndsWith(s, t) <==> EndsWith(s[1..], t)
  {
    assert s[1..][|s| - 1 - |t|..] == s[|s| - |t|..];
  }

  /** The proper ancestors of a name are its parent and the ancestors of its parent. */
  lemma {:induction false} EndsWithParent(s: string, d: string)
    requires '.' in s
    ensures EndsWith(s, "." + d) <==> Under(Parent(s), d)
  {
    if s[0] == '.' {
      if |d| + 1 < |s| {
        TailEndsWith(s, "." + d);
        assert s[1..] != d;
      } else if |d| + 1 == |s| {
        assert s == "." + s[1..];
      }
    } else {
      EndsWithParent(s[1..], d);
      if |d| + 1 < |s| {
        TailEndsWith(s, "." + d);
      } else if |d| + 1 == |s| {
        assert ("." + d)[0] == '.' && s[0] != '.';
      }
    }
  }

  lemma SuffixHasDot(s: string, d: string)
    requires EndsWith(s, "." + d)
    ensures '.' in s
  {
    var k := |s| - |d| - 1;
    assert s[k] == s[k..][0] == '.';
  }

  lemma UnderParent(s: string, d: string)
    ensures Under(s, d) <==> s == d || ('.' in s && Under(Parent(s), d))
  {
    if EndsWith(s, "." + d) {
      SuffixHasDot(s, d);
    }
    if '.' in s {
      EndsWithParent(s, d);
    }
  }

  // ----- the walk

  /** The closest registered name at or above s; a name without a dot matches nothing. */
  function Closest(registered: set<string>, s: string): Option<string>
    decreases |s|
  {
    if '.' !in s then None
    else if s in registered then Some(s)
    else Closest(registered, Parent(s))
  }

  function Match(registered: set<string>, name: string): Option<string> {
    Closest(registered, Norm(name))
  }

  predicate Candidate(registered: set<string>, s: string, d: string) {
    d in registered && '.' in d && Under(s, d)
  }

  /** The walk finds the longest registered label suffix of at least two labels, if there is one. */
  lemma {:induction false} ClosestIsLongest(registered: set<string>, s: string)
    ensures var m := Closest(registered, s);
            && (m.None? <==> forall d | d in registered :: !Candidate(registered, s, d))
            && (m.Some? ==>
                  && Candidate(registered, s, m.value)
                  && forall d | d in registered :: Candidate(registered, s, d) ==> |d| <= |m.value|)
    decreases |s|
  {
    if '.' in s && s !in registered {
      ClosestIsLongest(registered, Parent(s));
    }
    forall d | d in registered
      ensures Candidate(registered, s, d) <==> (d == s && '.' in s) || ('.' in s && Candidate(registered, Parent(s), d))
    {
      UnderParent(s, d);
      if s == d && '.' in s {
        UnderParent(s, d);
      }
    }
  }

  /** Registering or removing d can only change the match of names under d. */
  lemma {:induction false} MatchFrame(registered: set<string>, d: string, s: string)
    requires !Under(s, d)
    ensures Closest(registered + {d}, s) == Closest(registered - {d}, s) == Closest(registered, s)
    decreases |s|
  {
    if '.' in s {
      UnderParent(s, d);
      MatchFrame(registered, d, Parent(s));
    }
  }

  lemma {:induction false} MatchGrows(registered: set<string>, d: string, s: string)
    ensures Closest(registered + {d}, s) in {Some(d), Closest(registered, s)}
    decreases |s|
  {
    if '.' in s && s !in registered + {d} {
      MatchGrows(registered, d, Parent(s));
    }
  }

  /** Registering names gives a name one of them for a match, or leaves its match as it was. */
  lemma {:induction false} MatchTakenOver(registered: set<string>, names: set<string>, s: string)
    requires names !! registered
    ensures var m := Closest(registered + names, s);
            if m.Some? && m.value in names then m != Closest(registered, s) else m == Closest(registered, s)
    decreases |s|
  {
    ClosestIsLongest(registered, s);
    if '.' in s && s !in registered + names {
      MatchTakenOver(registered, names, Parent(s));
    }
  }

  // ----- the same walk as the source writes it, over the labels

  function Split(s: string): (labels: seq<string>)
    ensures |labels| >= 1 && (|labels| > 1 <==> '.' in s)
    decreases |s|
  {
    if '.' in s then [Label(s)] + Split(Parent(s)) else [s]
  }

  function Label(s: string): string
    requires '.' in s
  {
    if s[0] == '.' then "" else [s[0]] + Label(s[1..])
  }

  function Join(labels: seq<string>): string
    requires labels != []
  {
    if |labels| == 1 then labels[0] else labels[0] + "." + Join(labels[1..])
  }

  lemma {:induction false} LabelThenParent(s: string)
    requires '.' in s
    ensures s == Label(s) + "." + Parent(s)
  {
    if s[0] != '.' {
      LabelThenParent(s[1..]);
      assert s == [s[0]] + s[1..];
    } else {
      assert s == "." + s[1..];
    }
  }

  lemma {:induction false} JoinSplit(s: string)
    ensures Join(Split(s)) == s
    decreases |s|
  {
    if '.' in s {
      LabelThenParent(s);
      JoinSplit(Parent(s));
      assert Split(s)[1..] == Split(Parent(s));
    }
  }

  method MatchDomain(registered: set<string>, name: string) returns (found: Option<string>)
    ensures found == Match(registered, name)
  {
    var published := Norm(name);
    var labels := Split(published);
    ghost var rest := published;
    for start := 0 to |labels| - 1
      invariant labels[start..] == Split(rest)
      invariant Closest(registered, rest) == Closest(registered, published)
    {
      JoinSplit(rest);
      var candidate := Join(labels[start..]);
      if candidate in registered {
        return Some(candidate);
      }
      assert labels[start + 1..] == labels[start..][1..];
      rest := Parent(rest);
    }
    return None;
  }

  // ----- the names a request may register (backend/app/schemas/domains.py)

  predicate IsLabelChar(c: char) {
    'a' <= c <= 'z' || 'A' <= c <= 'Z' || '0' <= c <= '9' || c == '-'
  }

  predicate ValidLabel(l: string) {
    1 <= |l| <= 63 && (forall c | c in l :: IsLabelChar(c)) && l[0] != '-' && l[|l| - 1] != '-'
  }

  predicate ValidHost(s: string) {
    |s| <= 253 && |Split(s)| >= 2 && forall l | l in Split(s) :: ValidLabel(l)
  }

  /** Python's `$` also matches before a newline that ends the string. */
  predicate ValidName(s: string) {
    ValidHost(s) || (s != "" && s[|s| - 1] == '\n' && ValidHost(s[..|s| - 1]))
  }

  lemma {:induction false} ValidChars(s: string)
    requires forall l | l in Split(s) :: ValidLabel(l)
    ensures forall c | c in s :: IsLabelChar(c) || c == '.'
    decreases |s|
  {
    assert Split(s)[0] in Split(s);
    if '.' in s {
      LabelThenParent(s);
      assert Split(s)[1..] == Split(Parent(s));
      assert forall l | l in Split(Parent(s)) :: l in Split(s);
      ValidChars(Parent(s));
    }
  }
}
