/** The order of releases in their own terms, and which strings are tags at all
    (backend/app/services/update_check.py, updater/server.py). */
module ReleaseOrder {
  import opened Wrappers
  import opened Versions

  // ----- which release comes after which

  /** Betas come first, then release candidates, each by number, and the stable release last. */
  predicate ChannelAfter(c: Channel, d: Channel) {
    match c
    case Stable => !d.Stable?
    case Rc(n) => d.Beta? || (d.Rc? && n > d.n)
    case Beta(n) => d.Beta? && n > d.n
  }

  predicate ComesAfter(r: Release, q: Release) {
    if r.major != q.major then r.major > q.major
    else if r.minor != q.minor then r.minor > q.minor
    else if r.patch != q.patch then r.patch > q.patch
    else ChannelAfter(r.channel, q.channel)
  }

  lemma LessExactly(r: Release, q: Release)
    ensures Less(VersionOf(q), VersionOf(r)) <==> ComesAfter(r, q)
  {
  }

  /** The api offers, and the updater accepts, exactly the releases that come after the running one. */
  lemma NewerExactly(r: Release, q: Release)
    ensures IsNewerVersion(Tag(r), Tag(q)) <==> ComesAfter(r, q)
    ensures CheckRequestedVersion(Tag(r), Some(Tag(q))) == if ComesAfter(r, q) then None else Some(NotNewer)
  {
    TagRoundTrip(r);
    TagRoundTrip(q);
    NewerMeans(Tag(r), Tag(q));
    LessExactly(r, q);
    ChecksAgree(Tag(r), Some(Tag(q)));
  }

  /** Of two different releases exactly one comes after the other. */
  lemma ReleasesAreOrdered(r: Release, q: Release)
    ensures ComesAfter(r, q) ==> !ComesAfter(q, r)
    ensures r != q ==> ComesAfter(r, q) || ComesAfter(q, r)
  {
  }

  /** The other refusals: what is no tag is no release, and against an unknown or untagged running
      version nothing is accepted. */
  lemma RefusedFor(requested: string, running: Option<string>)
    ensures var why := CheckRequestedVersion(requested, running);
            && (why == Some(NotARelease) <==> ParseVersion(requested).None?)
            && (why == Some(UnknownRunning) <==> ParseVersion(requested).Some? && running.None?)
            && (why == Some(DevelopmentBuild) <==>
                  ParseVersion(requested).Some? && running.Some? && ParseVersion(running.value).None?)
  {
  }

  /** Of published tags, drafts aside, the one picked is one nothing in the listing comes after. */
  lemma LatestComesLast(releases: seq<Listing>, k: nat, i: nat, r: Release, q: Release)
    requires IsLatest(releases, k) && releases[k].tag == Tag(r)
    requires i < |releases| && !releases[i].draft && releases[i].tag == Tag(q)
    ensures !releases[k].draft && !ComesAfter(q, r)
  {
    TagRoundTrip(r);
    TagRoundTrip(q);
    assert Outranks(releases[k], releases[i]);
    LessExactly(q, r);
  }

  /** Nothing is picked exactly when every entry is a draft or has no version. */
  lemma NothingToPick(releases: seq<Listing>)
    ensures (forall r | r in releases :: !IsCandidate(r)) <==>
            forall i | 0 <= i < |releases| :: releases[i].draft || ParseVersion(releases[i].tag).None?
  {
    assert forall i | 0 <= i < |releases| :: releases[i] in releases;
  }

  // ----- which strings are tags

  predicate Digits(s: string) {
    s != "" && forall i | 0 <= i < |s| :: '0' <= s[i] <= '9'
  }

  datatype Word = NoWord | BetaWord | RcWord

  /** A tag as it is written: three numbers, perhaps a word and its number, perhaps a final newline. */
  datatype Written = Written(major: string, minor: string, patch: string, word: Word, number: string, newline: bool)

  ghost predicate WellFormed(w: Written) {
    Digits(w.major) && Digits(w.minor) && Digits(w.patch) && (w.word != NoWord ==> Digits(w.number))
  }

  function End(w: Written): string {
    var newline := if w.newline then "\n" else "";
    match w.word
    case NoWord => newline
    case BetaWord => "-beta" + (w.number + newline)
    case RcWord => "-rc" + (w.number + newline)
  }

  function Text(w: Written): string {
    "v" + (w.major + ("." + (w.minor + ("." + (w.patch + End(w))))))
  }

  lemma TakesDigits(digits: string, rest: string)
    requires Digits(digits) && (rest == "" || !IsDigit(rest[0]))
    ensures TakeNumber(digits + rest) == Some(Taken(Value(digits), rest))
  {
    CountDigits(digits, rest);
    assert (digits + rest)[..|digits|] == digits && (digits + rest)[|digits|..] == rest;
  }

  lemma EndParses(w: Written, v: Version)
    requires WellFormed(w) && v.rank == STABLE && v.number == 0
    ensures End(w) == "" || !IsDigit(End(w)[0])
    ensures ParseEnd(End(w), v).Some?
  {
    var newline := if w.newline then "\n" else "";
    if w.word != NoWord {
      TakesDigits(w.number, newline);
      TakesText("-beta", w.number + newline);
      TakesText("-rc", w.number + newline);
      assert w.word == RcWord ==> End(w)[1] == 'r';
    }
  }

  lemma WrittenParses(w: Written)
    requires WellFormed(w)
    ensures ParseVersion(Text(w)).Some?
  {
    var third := w.patch + End(w);
    var second := w.minor + ("." + third);
    EndParses(w, Version(Value(w.major), Value(w.minor), Value(w.patch), STABLE, 0));
    TakesDigits(w.patch, End(w));
    TakesDigits(w.minor, "." + third);
    TakesDigits(w.major, "." + second);
    TakesText(".", third);
    TakesText(".", second);
    TakesText("v", w.major + ("." + second));
  }

  lemma TookNumber(s: string) returns (digits: string)
    requires TakeNumber(s).Some?
    ensures Digits(digits) && s == digits + TakeNumber(s).value.rest
  {
    DigitsAreDigits(s);
    digits := s[..DigitCount(s)];
    assert forall i | 0 <= i < |digits| :: digits[i] == s[i] && IsDigit(s[i]);
  }

  lemma TookText(s: string, text: string)
    requires TakeText(s, text).Some?
    ensures s == text + TakeText(s, text).value
  {
  }

  lemma EndWritten(s: string, v: Version, w: Written) returns (x: Written)
    requires ParseEnd(s, v).Some? && Digits(w.major) && Digits(w.minor) && Digits(w.patch)
    ensures WellFormed(x) && End(x) == s && x.major == w.major && x.minor == w.minor && x.patch == w.patch
  {
    if AtEnd(s) {
      x := w.(word := NoWord, newline := s == "\n");
    } else {
      var word := if TakeText(s, "-beta").Some? then BetaWord else RcWord;
      var text := if word == BetaWord then "-beta" else "-rc";
      TookText(s, text);
      var rest := TakeText(s, text).value;
      var number := TookNumber(rest);
      x := w.(word := word, number := number, newline := TakeNumber(rest).value.rest == "\n");
    }
  }

  lemma ParsedIsWritten(tag: string) returns (w: Written)
    requires ParseVersion(tag).Some?
    ensures WellFormed(w) && Text(w) == tag
  {
    TookText(tag, "v");
    var s := TakeText(tag, "v").value;
    var major := TookNumber(s);
    var afterMajor := TakeNumber(s).value.rest;
    TookText(afterMajor, ".");
    var t := TakeText(afterMajor, ".").value;
    var minor := TookNumber(t);
    var afterMinor := TakeNumber(t).value.rest;
    TookText(afterMinor, ".");
    var u := TakeText(afterMinor, ".").value;
    var patch := TookNumber(u);
    var rest := TakeNumber(u).value.rest;
    var v := Version(TakeNumber(s).value.value, TakeNumber(t).value.value, TakeNumber(u).value.value, STABLE, 0);
    w := EndWritten(rest, v, Written(major, minor, patch, NoWord, "", false));
  }

  /** A string has a version exactly when it is written as a tag. */
  lemma ParsesExactly(tag: string)
    ensures ParseVersion(tag).Some? <==> exists w :: WellFormed(w) && Text(w) == tag
  {
    if ParseVersion(tag).Some? {
      var w := ParsedIsWritten(tag);
    }
    if w :| WellFormed(w) && Text(w) == tag {
      WrittenParses(w);
    }
  }
}
