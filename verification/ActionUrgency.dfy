/** What the merged action items say, in the words of the rules
    (backend/app/services/action_queue/rules.py). */
module ActionUrgency {
  import opened Wrappers
  import opened Collections
  import opened ActionQueue

  const SEVERITIES := ["critical", "serious", "warning", "good", "neutral"]

  /** The first comes earlier in the list of severities; words not on it come last. */
  predicate MoreSevere(s: string, t: string) {
    || (exists i, j | 0 <= i < j < |SEVERITIES| :: SEVERITIES[i] == s && SEVERITIES[j] == t)
    || (s in SEVERITIES && t !in SEVERITIES)
  }

  /** Severity decides, then the category. */
  predicate MoreUrgent(a: Item, b: Item) {
    MoreSevere(a.severity, b.severity) || (!MoreSevere(b.severity, a.severity) && a.category < b.category)
  }

  lemma SeverityExactly(s: string, t: string)
    ensures SeverityOrder(s) < SeverityOrder(t) <==> MoreSevere(s, t)
  {
    var l := SEVERITIES;
    assert l[0] == "critical" && l[1] == "serious" && l[2] == "warning" && l[3] == "good" && l[4] == "neutral";
    if s in l {
      SeverityAt(s);
    }
    if t in l {
      SeverityAt(t);
    }
  }

  lemma SeverityAt(s: string)
    requires s in SEVERITIES
    ensures 0 <= SeverityOrder(s) < |SEVERITIES| && SEVERITIES[SeverityOrder(s)] == s
  {
  }

  lemma UrgencyExactly(a: Item, b: Item)
    ensures AtMost(Urgency(a), Urgency(b)) <==> !MoreUrgent(b, a)
  {
    SeverityExactly(a.severity, b.severity);
    SeverityExactly(b.severity, a.severity);
  }

  /** A merged group shows as its first item of those that nothing in it is more urgent than. */
  lemma GroupLeader(group: seq<Item>) returns (k: nat)
    requires group != []
    ensures k < |group| && MergeGroup(group).(hint := group[k].hint) == group[k]
    ensures forall j | 0 <= j < |group| :: !MoreUrgent(group[j], group[k])
    ensures forall j | 0 <= j < k :: MoreUrgent(group[k], group[j])
  {
    k := GroupIsLed(group);
    forall j | 0 <= j < |group|
      ensures !MoreUrgent(group[j], group[k])
      ensures j < k ==> MoreUrgent(group[k], group[j])
    {
      UrgencyExactly(group[k], group[j]);
      UrgencyExactly(group[j], group[k]);
    }
  }

  /** The hints are put together with a dot between each two. */
  lemma {:induction false} HintText(a: seq<string>, b: seq<string>)
    requires a != [] && b != []
    ensures JoinHints(a + b) == JoinHints(a) + " \U{00B7} " + JoinHints(b)
    ensures JoinHints([a[0]]) == a[0]
    decreases |b|
  {
    var dot := " \U{00B7} ";
    var all, n := a + b, |b| - 1;
    assert all[..|all| - 1] == a + b[..n];
    if n > 0 {
      HintText(a, b[..n]);
      assert JoinHints(a) + dot + JoinHints(b[..n]) + dot + b[n]
          == JoinHints(a) + dot + (JoinHints(b[..n]) + dot + b[n]);
    } else {
      assert b[..n] == [] && a + [] == a;
    }
  }

  /** An item is about a sender exactly when its link has the sender page's address in it somewhere. */
  lemma {:induction false} ContainsExactly(s: string, t: string)
    ensures Contains(s, t) <==> exists k: nat :: k <= |s| && t <= s[k..]
  {
    if t <= s {
      assert s[0..] == s;
    } else if s != "" {
      ContainsExactly(s[1..], t);
      if k: nat :| k <= |s[1..]| && t <= s[1..][k..] {
        assert s[k + 1..] == s[1..][k..];
      }
      if k: nat :| k <= |s| && t <= s[k..] {
        assert k > 0 by { assert s[0..] == s; }
        assert s[1..][k - 1..] == s[k..];
      }
    }
  }

  lemma SenderExactly(item: Item)
    ensures SenderOf(item) in {None, item.link}
    ensures SenderOf(item).Some? <==>
              && item.link.Some?
              && exists k: nat :: k <= |item.link.value| && "/senders?highlight=" <= item.link.value[k..]
  {
    if item.link.Some? {
      ContainsExactly(item.link.value, SENDER_LINK);
    }
  }
}
