/** Release tags and their order, parsed twice: by the api (backend/app/services/update_check.py)
    and by the updater, which trusts nothing it is sent (updater/server.py). */
module Versions {
  import opened Wrappers

  // ----- the tag pattern: v X . Y . Z, then perhaps -beta N or -rc N

  predicate IsDigit(c: char) {
    '0' <= c <= '9'
  }

  function DigitCount(s: string): (n: nat)
    ensures n <= |s|
  {
    if s == "" || !IsDigit(s[0]) then 0 else 1 + DigitCount(s[1..])
  }

  /** int(digits) */
  function Value(digits: string): nat
    requires forall i | 0 <= i < |digits| :: IsDigit(digits[i])
  {
    if digits == "" then 0
    else
      assert IsDigit(digits[|digits| - 1]);
      10 * Value(digits[..|digits| - 1]) + (digits[|digits| - 1] as int - '0' as int)
  }

  lemma {:induction false} DigitsAreDigits(s: string)
    ensures forall i | 0 <= i < DigitCount(s) :: IsDigit(s[i])
  {
    if s != "" && IsDigit(s[0]) {
      DigitsAreDigits(s[1..]);
      assert forall i | 0 < i < DigitCount(s) :: s[i] == s[1..][i - 1];
    }
  }

  datatype Taken = Taken(value: nat, rest: string)

  /** (\d+) and what follows it. */
  function TakeNumber(s: string): Option<Taken> {
    DigitsAreDigits(s);
    var n := DigitCount(s);
    if n == 0 then None else Some(Taken(Value(s[..n]), s[n..]))
  }

  function TakeText(s: string, text: string): Option<string> {
    if text <= s then Some(s[|text|..]) else None
  }

  /** Python's `$` also matches before a newline that ends the string. */
  predicate AtEnd(s: string) {
    s == "" || s == "\n"
  }

  datatype Version = Version(major: nat, minor: nat, patch: nat, rank: nat, number: nat)

  const BETA := 0
  const RC := 1
  const STABLE := 2

  function TakePrerelease(s: string, text: string, rank: nat, v: Version): Option<Version> {
    var rest :- TakeText(s, text);
    var number :- TakeNumber(rest);
    if AtEnd(number.rest) then Some(v.(rank := rank, number := number.value)) else None
  }

  function ParseEnd(s: string, v: Version): Option<Version> {
    if AtEnd(s) then Some(v)
    else if TakeText(s, "-beta").Some? then TakePrerelease(s, "-beta", BETA, v)
    else TakePrerelease(s, "-rc", RC, v)
  }

  function ParsePatch(s: string, major: nat, minor: nat): Option<Version> {
    var patch :- TakeNumber(s);
    ParseEnd(patch.rest, Version(major, minor, patch.value, STABLE, 0))
  }

  function ParseMinor(s: string, major: nat): Option<Version> {
    var minor :- TakeNumber(s);
    var rest :- TakeText(minor.rest, ".");
    ParsePatch(rest, major, minor.value)
  }

  function ParseVersion(tag: string): Option<Version> {
    var s :- TakeText(tag, "v");
    var major :- TakeNumber(s);
    var rest :- TakeText(major.rest, ".");
    ParseMinor(rest, major.value)
  }

  // ----- the tags a release is published under

  datatype Channel = Beta(n: nat) | Rc(n: nat) | Stable

  datatype Release = Release(major: nat, minor: nat, patch: nat, channel: Channel)

  function Decimal(n: nat): (s: string)
    ensures s != "" && forall i | 0 <= i < |s| :: IsDigit(s[i])
  {
    var last := ('0' as int + n % 10) as char;
    if n < 10 then [last] else Decimal(n / 10) + [last]
  }

  function Suffix(c: Channel): string {
    match c
    case Beta(n) => "-beta" + Decimal(n)
    case Rc(n) => "-rc" + Decimal(n)
    case Stable => ""
  }

  function Tag(r: Release): string {
    "v" + Decimal(r.major) + "." + Decimal(r.minor) + "." + Decimal(r.patch) + Suffix(r.channel)
  }

  function VersionOf(r: Release): Version {
    match r.channel
    case Beta(n) => Version(r.major, r.minor, r.patch, BETA, n)
    case Rc(n) => Version(r.major, r.minor, r.patch, RC, n)
    case Stable => Version(r.major, r.minor, r.patch, STABLE, 0)
  }

  lemma {:induction false} DecimalValue(n: nat)
    ensures Value(Decimal(n)) == n
  {
    var s := Decimal(n);
    if n < 10 {
      assert s[..0] == "";
    } else {
      DecimalValue(n / 10);
      assert s[..|s| - 1] == Decimal(n / 10);
    }
  }

  lemma {:induction false} CountDigits(digits: string, rest: string)
    requires (forall i | 0 <= i < |digits| :: IsDigit(digits[i])) && (rest == "" || !IsDigit(rest[0]))
    ensures DigitCount(digits + rest) == |digits|
  {
    if digits == "" {
      assert digits + rest == rest;
    } else {
      CountDigits(digits[1..], rest);
      assert (digits + rest)[1..] == digits[1..] + rest;
    }
  }

  lemma TakesDecimal(n: nat, rest: string)
    requires rest == "" || !IsDigit(rest[0])
    ensures TakeNumber(Decimal(n) + rest) == Some(Taken(n, rest))
  {
    CountDigits(Decimal(n), rest);
    DecimalValue(n);
    assert (Decimal(n) + rest)[..|Decimal(n)|] == Decimal(n) && (Decimal(n) + rest)[|Decimal(n)|..] == rest;
  }

  lemma TakesText(text: string, rest: string)
    ensures TakeText(text + rest, text) == Some(rest)
  {
    assert (text + rest)[|text|..] == rest;
  }

  lemma ParsesEnd(c: Channel, end: string, v: Version)
    requires AtEnd(end) && v.rank == STABLE && v.number == 0
    ensures var s := Suffix(c) + end;
            && (s == "" || !IsDigit(s[0]))
            && ParseEnd(s, v) == Some(match c case Beta(n) => v.(rank := BETA, number := n)
                                              case Rc(n) => v.(rank := RC, number := n)
                                              case Stable => v)
  {
    match c
    case Beta(n) =>
      TakesDecimal(n, end);
      assert Suffix(c) + end == "-beta" + (Decimal(n) + end);
      TakesText("-beta", Decimal(n) + end);
    case Rc(n) =>
      TakesDecimal(n, end);
      assert Suffix(c) + end == "-rc" + (Decimal(n) + end);
      TakesText("-rc", Decimal(n) + end);
      assert (Suffix(c) + end)[1] == 'r';
    case Stable =>
      assert Suffix(c) + end == end;
  }

  lemma SpelledOut(v: string, a: string, b: string, c: string, suffix: string, end: string)
    ensures (v + a + "." + b + "." + c + suffix) + end == v + (a + ("." + (b + ("." + (c + (suffix + end))))))
  {
  }

  /** A published tag, and the same tag with a final newline, parse to its version. */
  lemma TagParses(r: Release, end: string)
    requires AtEnd(end)
    ensures ParseVersion(Tag(r) + end) == Some(VersionOf(r))
  {
    var tail := Suffix(r.channel) + end;
    var third := Decimal(r.patch) + tail;
    var second := Decimal(r.minor) + ("." + third);
    var first := Decimal(r.major) + ("." + second);
    SpelledOut("v", Decimal(r.major), Decimal(r.minor), Decimal(r.patch), Suffix(r.channel), end);
    assert ParsePatch(third, r.major, r.minor) == Some(VersionOf(r)) by {
      ParsesEnd(r.channel, end, Version(r.major, r.minor, r.patch, STABLE, 0));
      TakesDecimal(r.patch, tail);
    }
    assert ParseMinor(second, r.major) == Some(VersionOf(r)) by {
      TakesDecimal(r.minor, "." + third);
      TakesText(".", third);
    }
    TakesText("v", first);
    TakesDecimal(r.major, "." + second);
    TakesText(".", second);
  }

  lemma TagRoundTrip(r: Release)
    ensures ParseVersion(Tag(r)) == Some(VersionOf(r))
  {
    TagParses(r, "");
    assert Tag(r) + "" == Tag(r);
  }

  // ----- the order

  function Tuple(v: Version): seq<nat> {
    [v.major, v.minor, v.patch, v.rank, v.number]
  }

  /** Python's tuple `<`: the first difference decides. */
  predicate TupleLess(a: seq<nat>, b: seq<nat>) {
    if a == [] || b == [] then a == [] && b != []
    else if a[0] != b[0] then a[0] < b[0]
    else TupleLess(a[1..], b[1..])
  }

  predicate TupleAtMost(a: seq<nat>, b: seq<nat>) {
    if a == [] || b == [] then a == []
    else if a[0] != b[0] then a[0] < b[0]
    else TupleAtMost(a[1..], b[1..])
  }

  predicate Less(a: Version, b: Version) {
    || a.major < b.major
    || (a.major == b.major &&
        (|| a.minor < b.minor
         || (a.minor == b.minor &&
             (|| a.patch < b.patch
              || (a.patch == b.patch && (a.rank < b.rank || (a.rank == b.rank && a.number < b.number)))))))
  }

  lemma TupleHead(a: nat, as': seq<nat>, b: nat, bs: seq<nat>)
    ensures TupleLess([a] + as', [b] + bs) <==> a < b || (a == b && TupleLess(as', bs))
    ensures TupleAtMost([a] + as', [b] + bs) <==> a < b || (a == b && TupleAtMost(as', bs))
  {
    assert ([a] + as')[1..] == as' && ([b] + bs)[1..] == bs;
  }

  /** Comparing the tuples is comparing major, minor, patch, channel and number in that order. */
  lemma TupleOrder(a: Version, b: Version)
    ensures TupleLess(Tuple(a), Tuple(b)) <==> Less(a, b)
    ensures TupleAtMost(Tuple(a), Tuple(b)) <==> !Less(b, a)
  {
    TupleHead(a.number, [], b.number, []);
    TupleHead(a.rank, [a.number], b.rank, [b.number]);
    TupleHead(a.patch, [a.rank, a.number], b.patch, [b.rank, b.number]);
    TupleHead(a.minor, [a.patch, a.rank, a.number], b.minor, [b.patch, b.rank, b.number]);
    TupleHead(a.major, [a.minor, a.patch, a.rank, a.number], b.major, [b.minor, b.patch, b.rank, b.number]);
    assert Tuple(a) == [a.major] + [a.minor, a.patch, a.rank, a.number];
    assert Tuple(b) == [b.major] + [b.minor, b.patch, b.rank, b.number];
    assert [a.minor, a.patch, a.rank, a.number] == [a.minor] + [a.patch, a.rank, a.number];
    assert [b.minor, b.patch, b.rank, b.number] == [b.minor] + [b.patch, b.rank, b.number];
    assert [a.patch, a.rank, a.number] == [a.patch] + [a.rank, a.number];
    assert [b.patch, b.rank, b.number] == [b.patch] + [b.rank, b.number];
    assert [a.rank, a.number] == [a.rank] + [a.number] && [b.rank, b.number] == [b.rank] + [b.number];
    assert [a.number] == [a.number] + [] && [b.number] == [b.number] + [];
  }

  // ----- the two checks

  /** is_newer_version, in the api. */
  predicate IsNewerVersion(latest: string, running: string) {
    var l, r := ParseVersion(latest), ParseVersion(running);
    l.Some? && r.Some? && TupleLess(Tuple(r.value), Tuple(l.value))
  }

  datatype Refusal = NotARelease | UnknownRunning | DevelopmentBuild | NotNewer

  /** check_requested_version, in the updater. */
  function CheckRequestedVersion(requested: string, running: Option<string>): Option<Refusal> {
    var q := ParseVersion(requested);
    if q.None? then Some(NotARelease)
    else if running.None? then Some(UnknownRunning)
    else
      var r := ParseVersion(running.value);
      if r.None? then Some(DevelopmentBuild)
      else if TupleAtMost(Tuple(q.value), Tuple(r.value)) then Some(NotNewer)
      else None
  }

  /** The updater accepts exactly what the api would offer, and nothing while the running version is unknown. */
  lemma ChecksAgree(requested: string, running: Option<string>)
    ensures CheckRequestedVersion(requested, running).None? <==>
              running.Some? && IsNewerVersion(requested, running.value)
  {
    if ParseVersion(requested).Some? && running.Some? && ParseVersion(running.value).Some? {
      TupleOrder(ParseVersion(requested).value, ParseVersion(running.value).value);
      TupleOrder(ParseVersion(running.value).value, ParseVersion(requested).value);
    }
  }

  predicate Accepts(requested: string, running: string) {
    CheckRequestedVersion(requested, Some(running)).None?
  }

  lemma NewerMeans(a: string, b: string)
    ensures IsNewerVersion(a, b)
       <==> ParseVersion(a).Some? && ParseVersion(b).Some? && Less(ParseVersion(b).value, ParseVersion(a).value)
  {
    if ParseVersion(a).Some? && ParseVersion(b).Some? {
      TupleOrder(ParseVersion(b).value, ParseVersion(a).value);
    }
  }

  lemma NewerIsTransitive(a: string, b: string, c: string)
    requires IsNewerVersion(a, b) && IsNewerVersion(b, c)
    ensures IsNewerVersion(a, c) && a != c
  {
    NewerMeans(a, b);
    NewerMeans(b, c);
    NewerMeans(a, c);
  }

  ghost predicate Climbs(tags: seq<string>, newer: (string, string) -> bool) {
    forall i, j | 0 <= i < j < |tags| && j == i + 1 :: newer(tags[j], tags[i])
  }

  lemma {:induction false} ClimbsThroughout(tags: seq<string>, newer: (string, string) -> bool, i: nat, j: nat)
    requires Climbs(tags, newer) && i < j < |tags|
    requires forall a, b, c :: newer(a, b) && newer(b, c) ==> newer(a, c)
    ensures newer(tags[j], tags[i])
    decreases j
  {
    assert newer(tags[j], tags[j - 1]);
    if i < j - 1 {
      ClimbsThroughout(tags, newer, i, j - 1);
    }
  }

  /** A chain of accepted updates only climbs, so no tag comes back. */
  lemma ChainAscends(tags: seq<string>, i: nat, j: nat)
    requires Climbs(tags, Accepts) && i < j < |tags|
    ensures IsNewerVersion(tags[j], tags[i]) && tags[i] != tags[j]
  {
    forall a, b
      ensures Accepts(a, b) <==> IsNewerVersion(a, b)
    {
      ChecksAgree(a, Some(b));
    }
    forall a, b, c | Accepts(a, b) && Accepts(b, c)
      ensures Accepts(a, c)
    {
      NewerIsTransitive(a, b, c);
    }
    ClimbsThroughout(tags, Accepts, i, j);
    NewerMeans(tags[j], tags[i]);
  }

  /** One of two tags is newer exactly when both parse, and differently. */
  lemma NewerIsTotalUpToParse(a: string, b: string)
    ensures IsNewerVersion(a, b) || IsNewerVersion(b, a)
       <==> ParseVersion(a).Some? && ParseVersion(b).Some? && ParseVersion(a) != ParseVersion(b)
  {
    NewerMeans(a, b);
    NewerMeans(b, a);
  }

  lemma VersionDeterminesRelease(r: Release, q: Release)
    requires VersionOf(r) == VersionOf(q)
    ensures r == q
  {
  }

  lemma VersionDeterminesTag(r: Release, q: Release, parse: string -> Option<Version>)
    requires parse(Tag(r)) == Some(VersionOf(r)) && parse(Tag(q)) == Some(VersionOf(q))
    ensures VersionOf(r) == VersionOf(q) <==> Tag(r) == Tag(q)
  {
    if VersionOf(r) == VersionOf(q) {
      VersionDeterminesRelease(r, q);
    }
  }

  /** Published tags never tie: two of them with neither newer are one tag. */
  lemma PublishedTagsNeverTie(r: Release, q: Release)
    ensures IsNewerVersion(Tag(r), Tag(q)) || IsNewerVersion(Tag(q), Tag(r)) <==> Tag(r) != Tag(q)
  {
    TagRoundTrip(r);
    TagRoundTrip(q);
    NewerIsTotalUpToParse(Tag(r), Tag(q));
    VersionDeterminesTag(r, q, ParseVersion);
  }

  /** Other strings do tie: a final newline changes the string and not the version, so neither is newer. */
  lemma StringsCanTie(r: Release)
    ensures var padded := Tag(r) + "\n";
            padded != Tag(r) && !IsNewerVersion(padded, Tag(r)) && !IsNewerVersion(Tag(r), padded)
  {
    TagRoundTrip(r);
    TagParses(r, "\n");
    assert |Tag(r) + "\n"| != |Tag(r)|;
    NewerIsTotalUpToParse(Tag(r) + "\n", Tag(r));
  }

  // ----- picking a release from a listing

  datatype Listing = Listing(tag: string, draft: bool)

  predicate IsCandidate(release: Listing) {
    !release.draft && ParseVersion(release.tag).Some?
  }

  ghost predicate Outranks(a: Listing, b: Listing) {
    IsCandidate(a) && IsCandidate(b) && !Less(ParseVersion(a.tag).value, ParseVersion(b.tag).value)
  }

  /** The first of the highest candidates; none exactly when there is no candidate. */
  ghost predicate IsLatest(releases: seq<Listing>, k: nat) {
    && k < |releases| && IsCandidate(releases[k])
    && (forall i | 0 <= i < |releases| && IsCandidate(releases[i]) :: Outranks(releases[k], releases[i]))
    && (forall i | 0 <= i < k && IsCandidate(releases[i]) :: !Outranks(releases[i], releases[k]))
  }

  /** The candidate the listing's maximum falls on, drafts and other tags skipped. */
  method PickLatestRelease(releases: seq<Listing>) returns (latest: Option<Listing>)
    ensures latest.None? ==> forall r | r in releases :: !IsCandidate(r)
    ensures latest.Some? ==> exists k: nat :: IsLatest(releases, k) && releases[k] == latest.value
  {
    latest := None;
    ghost var at := 0;
    for i := 0 to |releases|
      invariant latest.None? ==> forall r | r in releases[..i] :: !IsCandidate(r)
      invariant latest.Some? ==> IsLatest(releases[..i], at) && releases[at] == latest.value
    {
      var release := releases[i];
      assert releases[..i + 1] == releases[..i] + [release];
      if IsCandidate(release) {
        if latest.None? {
          assert forall j | 0 <= j < i :: releases[..i][j] in releases[..i];
          OnlyCandidate(releases[..i], release);
          latest, at := Some(release), i;
        } else {
          NextCandidate(releases[..i], at, release);
          if Less(ParseVersion(latest.value.tag).value, ParseVersion(release.tag).value) {
            latest, at := Some(release), i;
          }
        }
      } else if latest.Some? {
        NoCandidate(releases[..i], at, release);
      }
    }
    assert releases[..|releases|] == releases;
  }

  lemma OnlyCandidate(releases: seq<Listing>, release: Listing)
    requires IsCandidate(release) && forall i | 0 <= i < |releases| :: !IsCandidate(releases[i])
    ensures IsLatest(releases + [release], |releases|)
  {
  }

  lemma NoCandidate(releases: seq<Listing>, at: nat, release: Listing)
    requires IsLatest(releases, at) && !IsCandidate(release)
    ensures IsLatest(releases + [release], at)
  {
    var more := releases + [release];
    assert forall i | 0 <= i < |releases| :: more[i] == releases[i];
  }

  lemma NextCandidate(releases: seq<Listing>, at: nat, release: Listing)
    requires IsLatest(releases, at) && IsCandidate(release)
    ensures var higher := Less(ParseVersion(releases[at].tag).value, ParseVersion(release.tag).value);
            IsLatest(releases + [release], if higher then |releases| else at)
  {
    var more := releases + [release];
    assert forall i | 0 <= i < |releases| :: more[i] == releases[i];
    forall i | 0 <= i < |releases| && IsCandidate(releases[i])
      ensures Outranks(releases[at], releases[i])
    {
    }
  }

  /** The order of the listing does not matter: the version picked is the same. */
  lemma LatestOfAnyOrder(a: seq<Listing>, b: seq<Listing>, j: nat, k: nat)
    requires (forall r :: r in a <==> r in b) && IsLatest(a, j) && IsLatest(b, k)
    ensures ParseVersion(a[j].tag) == ParseVersion(b[k].tag)
  {
    assert b[k] in a && a[j] in b;
    var i :| 0 <= i < |a| && a[i] == b[k];
    var l :| 0 <= l < |b| && b[l] == a[j];
    assert Outranks(a[j], a[i]) && Outranks(b[k], b[l]);
  }
}
