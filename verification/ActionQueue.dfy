/** One action item per sender (backend/app/services/action_queue/rules.py). */
module ActionQueue {
  import opened Wrappers
  import opened Collections

  /** `details` stands for the fields the merge only carries along. */
  datatype Item = Item(
    severity: string, category: int, title: string, hint: string, link: Option<string>, details: string)

  const SENDER_LINK := "/senders?highlight="

  predicate Contains(s: string, t: string) {
    t <= s || (s != "" && Contains(s[1..], t))
  }

  /** The link of an item about a sender. */
  function SenderOf(item: Item): Option<string> {
    if item.link.Some? && Contains(item.link.value, SENDER_LINK) then item.link else None
  }

  function SeverityOrder(severity: string): int {
    if severity == "critical" then 0
    else if severity == "serious" then 1
    else if severity == "warning" then 2
    else if severity == "good" then 3
    else if severity == "neutral" then 4
    else 5
  }

  function Urgency(item: Item): Rank {
    Rank(SeverityOrder(item.severity), item.category)
  }

  function HintOf(item: Item): string {
    item.hint
  }

  /** The hints of a sorted group, each once, empty ones left out. */
  function Hints(group: seq<Item>): seq<string> {
    FirstSeen(Without(group, HintOf, ""), HintOf)
  }

  function JoinHints(hints: seq<string>): string {
    if hints == [] then ""
    else if |hints| == 1 then hints[0]
    else JoinHints(hints[..|hints| - 1]) + " \U{00B7} " + hints[|hints| - 1]
  }

  lemma SortKeepsSome(group: seq<Item>)
    requires group != []
    ensures Sorted(group, Urgency) != []
  {
    SortedIsStable(group, Urgency);
    assert group[0] in Sorted(group, Urgency);
  }

  function MergeGroup(group: seq<Item>): Item
    requires group != []
  {
    SortKeepsSome(group);
    var sorted := Sorted(group, Urgency);
    sorted[0].(hint := JoinHints(Hints(sorted)))
  }

  /** The senders in order of first appearance. */
  function Senders(items: seq<Item>): seq<Option<string>> {
    FirstSeen(Without(items, SenderOf, None), SenderOf)
  }

  predicate HaveItems(items: seq<Item>, senders: seq<Option<string>>) {
    forall k | 0 <= k < |senders| :: With(items, SenderOf, senders[k]) != []
  }

  function MergeAll(items: seq<Item>, senders: seq<Option<string>>): seq<Item>
    requires HaveItems(items, senders)
  {
    if senders == [] then []
    else MergeAll(items, senders[..|senders| - 1]) + [MergeGroup(With(items, SenderOf, senders[|senders| - 1]))]
  }

  lemma {:induction false} MergeAllAt(items: seq<Item>, senders: seq<Option<string>>)
    requires HaveItems(items, senders)
    ensures |MergeAll(items, senders)| == |senders|
    ensures forall k | 0 <= k < |senders| ::
              MergeAll(items, senders)[k] == MergeGroup(With(items, SenderOf, senders[k]))
  {
    if senders != [] {
      MergeAllAt(items, senders[..|senders| - 1]);
    }
  }

  lemma SendersHaveItems(items: seq<Item>)
    ensures forall s :: s in Senders(items) <==> s.Some? && With(items, SenderOf, s) != []
    ensures HaveItems(items, Senders(items))
    ensures forall i, j | 0 <= i < j < |Senders(items)| :: Senders(items)[i] != Senders(items)[j]
  {
    FirstSeenAreThose(Without(items, SenderOf, None), SenderOf);
    forall s: Option<string>
      ensures s in Senders(items) <==> s.Some? && With(items, SenderOf, s) != []
    {
      if s.Some? {
        WithOfWithout(items, SenderOf, None, s);
      } else {
        WithNone(items);
      }
    }
    assert forall k | 0 <= k < |Senders(items)| :: Senders(items)[k] in Senders(items);
  }

  lemma {:induction false} WithNone(items: seq<Item>)
    ensures With(Without(items, SenderOf, None), SenderOf, None) == []
  {
    if items != [] {
      WithNone(items[1..]);
      var rest := Without(items[1..], SenderOf, None);
      assert ([items[0]] + rest)[1..] == rest;
    }
  }

  /** Items about no sender first, then one per sender. */
  function Merged(items: seq<Item>): seq<Item> {
    SendersHaveItems(items);
    With(items, SenderOf, None) + MergeAll(items, Senders(items))
  }

  // ----- the loops

  ghost predicate SplitUpTo(bySender: map<Option<string>, seq<Item>>, order: seq<Option<string>>, others: seq<Item>,
        items: seq<Item>) {
    && others == With(items, SenderOf, None) && order == Senders(items)
    && (forall s :: s in bySender <==> s in order)
    && (forall s | s in bySender :: bySender[s] == With(items, SenderOf, s))
  }

  lemma SendersOneMore(items: seq<Item>, item: Item)
    ensures Senders(items + [item]) ==
              if SenderOf(item).None? || SenderOf(item) in Senders(items) then Senders(items)
              else Senders(items) + [SenderOf(item)]
  {
    var before := Without(items, SenderOf, None);
    WithoutOneMore(items, item);
    if SenderOf(item).Some? {
      assert (before + [item])[..|before|] == before;
    }
  }

  lemma {:induction false} WithoutOneMore(items: seq<Item>, item: Item)
    ensures Without(items + [item], SenderOf, None) ==
              if SenderOf(item).None? then Without(items, SenderOf, None) else Without(items, SenderOf, None) + [item]
  {
    if items == [] {
      assert [] + [item] == [item] && [item][1..] == [];
    } else {
      WithoutOneMore(items[1..], item);
      assert (items + [item])[1..] == items[1..] + [item];
    }
  }

  lemma SplitOneMore(bySender: map<Option<string>, seq<Item>>, order: seq<Option<string>>, others: seq<Item>,
        items: seq<Item>, item: Item)
    requires SplitUpTo(bySender, order, others, items)
    ensures var s := SenderOf(item);
            if s.None? then SplitUpTo(bySender, order, others + [item], items + [item])
            else
              var group := if s in bySender then bySender[s] else [];
              SplitUpTo(bySender[s := group + [item]],
                        if s in bySender then order else order + [s], others, items + [item])
  {
    SendersOneMore(items, item);
    SendersHaveItems(items);
    forall s: Option<string>
      ensures With(items + [item], SenderOf, s) == With(items, SenderOf, s) + if SenderOf(item) == s then [item] else []
    {
      WithConcat(items, [item], SenderOf, s);
      WithOne(item, SenderOf, s);
    }
  }

  method SplitItems(items: seq<Item>)
    returns (bySender: map<Option<string>, seq<Item>>, order: seq<Option<string>>, others: seq<Item>)
    ensures SplitUpTo(bySender, order, others, items)
  {
    bySender, order, others := map[], [], [];
    for i := 0 to |items|
      invariant SplitUpTo(bySender, order, others, items[..i])
    {
      var item := items[i];
      SplitOneMore(bySender, order, others, items[..i], item);
      assert items[..i + 1] == items[..i] + [item];
      var sender := SenderOf(item);
      if sender.None? {
        others := others + [item];
      } else if sender in bySender {
        bySender := bySender[sender := bySender[sender] + [item]];
      } else {
        order := order + [sender];
        bySender := bySender[sender := [] + [item]];
      }
    }
    assert items[..|items|] == items;
  }

  method MergeSenderItems(items: seq<Item>) returns (merged: seq<Item>)
    ensures merged == Merged(items)
  {
    var bySender, order, others := SplitItems(items);
    merged := others;
    SendersHaveItems(items);
    for k := 0 to |order|
      invariant HaveItems(items, order[..k])
      invariant merged == others + MergeAll(items, order[..k])
    {
      assert order[k] in order && order[..k + 1][..k] == order[..k];
      merged := merged + [MergeGroup(bySender[order[k]])];
    }
    assert order[..|order|] == order;
  }

  // ----- what the merged list says

  /** The item the group is led by: the first of its most urgent ones. */
  ghost predicate Leads(group: seq<Item>, k: nat) {
    && k < |group|
    && (forall j | 0 <= j < |group| :: AtMost(Urgency(group[k]), Urgency(group[j])))
    && (forall j | 0 <= j < k :: Urgency(group[j]) != Urgency(group[k]))
  }

  /** The merged item is the lead with other words for a hint: the distinct hints of the group. */
  lemma GroupIsLed(group: seq<Item>) returns (k: nat)
    requires group != []
    ensures Leads(group, k) && MergeGroup(group) == group[k].(hint := JoinHints(Hints(Sorted(group, Urgency))))
    ensures forall h ::
              h in Hints(Sorted(group, Urgency)) <==> h != "" && exists item :: item in group && item.hint == h
    ensures forall i, j | 0 <= i < j < |Hints(Sorted(group, Urgency))| ::
              Hints(Sorted(group, Urgency))[i] != Hints(Sorted(group, Urgency))[j]
  {
    var sorted := Sorted(group, Urgency);
    SortedIsStable(group, Urgency);
    SortKeepsSome(group);
    var lead := sorted[0];
    forall j | 0 <= j < |group|
      ensures AtMost(Urgency(lead), Urgency(group[j]))
    {
      assert group[j] in sorted;
    }
    k := FirstWith(group, Urgency(lead), lead);
    HintsAreThose(sorted);
  }

  lemma {:induction false} FirstWith(group: seq<Item>, rank: Rank, lead: Item) returns (k: nat)
    requires With(group, Urgency, rank) != [] && With(group, Urgency, rank)[0] == lead
    ensures k < |group| && group[k] == lead && Urgency(lead) == rank &&
              forall j | 0 <= j < k :: Urgency(group[j]) != rank
  {
    if Urgency(group[0]) == rank {
      k := 0;
    } else {
      var rest := FirstWith(group[1..], rank, lead);
      k := rest + 1;
      assert forall j | 0 < j < k :: group[j] == group[1..][j - 1];
    }
  }

  lemma HintsAreThose(group: seq<Item>)
    ensures forall h :: h in Hints(group) <==> h != "" && exists item :: item in group && item.hint == h
    ensures forall i, j | 0 <= i < j < |Hints(group)| :: Hints(group)[i] != Hints(group)[j]
  {
    var filled := Without(group, HintOf, "");
    FirstSeenAreThose(filled, HintOf);
    InWithout(group, HintOf, "");
    forall h
      ensures With(filled, HintOf, h) != [] <==> h != "" && exists item :: item in group && item.hint == h
    {
      InWith(filled, HintOf, h);
      assert With(filled, HintOf, h) != [] ==> With(filled, HintOf, h)[0] in With(filled, HintOf, h);
    }
  }

  /** Items about no sender stay as they were, and each sender has one item, its group's. */
  lemma OnePerSender(items: seq<Item>, s: Option<string>)
    ensures var group := With(items, SenderOf, s);
            With(Merged(items), SenderOf, s) == if s.None? || group == [] then group else [MergeGroup(group)]
  {
    SendersHaveItems(items);
    var others, senders := With(items, SenderOf, None), Senders(items);
    WithConcat(others, MergeAll(items, senders), SenderOf, s);
    OthersOnly(items, s);
    MergedOnce(items, senders, s);
  }

  lemma {:induction false} OthersOnly(items: seq<Item>, s: Option<string>)
    ensures With(With(items, SenderOf, None), SenderOf, s) == if s.None? then With(items, SenderOf, None) else []
  {
    if items != [] {
      OthersOnly(items[1..], s);
      var rest := With(items[1..], SenderOf, None);
      assert ([items[0]] + rest)[1..] == rest;
    }
  }

  lemma MergeKeepsSender(items: seq<Item>, s: Option<string>)
    requires With(items, SenderOf, s) != []
    ensures SenderOf(MergeGroup(With(items, SenderOf, s))) == s
  {
    var group := With(items, SenderOf, s);
    SortedIsStable(group, Urgency);
    SortKeepsSome(group);
    InWith(items, SenderOf, s);
    assert Sorted(group, Urgency)[0] in group;
  }

  lemma {:induction false} MergedOnce(items: seq<Item>, senders: seq<Option<string>>, s: Option<string>)
    requires HaveItems(items, senders)
    requires forall i, j | 0 <= i < j < |senders| :: senders[i] != senders[j]
    ensures With(MergeAll(items, senders), SenderOf, s) ==
              if s in senders then [MergeGroup(With(items, SenderOf, s))] else []
  {
    if senders != [] {
      var before, last := senders[..|senders| - 1], senders[|senders| - 1];
      assert senders == before + [last];
      MergedOnce(items, before, s);
      var one := MergeGroup(With(items, SenderOf, last));
      WithConcat(MergeAll(items, before), [one], SenderOf, s);
      WithOne(one, SenderOf, s);
      MergeKeepsSender(items, last);
    }
  }

  // ----- merging again

  lemma MergeOne(item: Item)
    ensures MergeGroup([item]) == item
  {
    assert [item][1..] == [] && Sorted([item], Urgency) == [item];
    if item.hint == "" {
      assert Without([item], HintOf, "") == [];
    } else {
      assert Without([item], HintOf, "") == [item] && [item][..|[item]| - 1] == [];
      assert FirstSeen([item], HintOf) == [item.hint];
    }
  }

  lemma {:induction false} SendersOfSingles(items: seq<Item>, singles: seq<Item>, senders: seq<Option<string>>)
    requires |singles| == |senders| &&
               forall k | 0 <= k < |senders| :: senders[k].Some? && SenderOf(singles[k]) == senders[k]
    requires forall i, j | 0 <= i < j < |senders| :: senders[i] != senders[j]
    ensures Senders(With(items, SenderOf, None) + singles) == senders
  {
    var others := With(items, SenderOf, None);
    if senders == [] {
      assert others + singles == others;
      NoSenders(items);
    } else {
      var n := |senders| - 1;
      SendersOfSingles(items, singles[..n], senders[..n]);
      SendersOneMore(others + singles[..n], singles[n]);
      assert others + singles == (others + singles[..n]) + [singles[n]];
      assert senders == senders[..n] + [senders[n]];
    }
  }

  lemma {:induction false} NoSenders(items: seq<Item>)
    ensures Senders(With(items, SenderOf, None)) == []
  {
    SendersHaveItems(With(items, SenderOf, None));
    forall s: Option<string>
      ensures s !in Senders(With(items, SenderOf, None))
    {
      OthersOnly(items, s);
    }
    NoElements(Senders(With(items, SenderOf, None)));
  }

  lemma SendersOfMerged(items: seq<Item>)
    ensures Senders(Merged(items)) == Senders(items)
  {
    var senders := Senders(items);
    SendersHaveItems(items);
    MergeAllAt(items, senders);
    forall k | 0 <= k < |senders|
      ensures senders[k].Some? && SenderOf(MergeAll(items, senders)[k]) == senders[k]
    {
      assert senders[k] in senders;
      MergeKeepsSender(items, senders[k]);
    }
    SendersOfSingles(items, MergeAll(items, senders), senders);
  }

  /** Merging a merged list changes nothing. */
  lemma MergeIsIdempotent(items: seq<Item>)
    ensures Merged(Merged(items)) == Merged(items)
  {
    var once, senders := Merged(items), Senders(items);
    SendersHaveItems(items);
    SendersHaveItems(once);
    SendersOfMerged(items);
    OnePerSender(items, None);
    MergeAllAt(items, senders);
    MergeAllAt(once, senders);
    forall k | 0 <= k < |senders|
      ensures MergeAll(once, senders)[k] == MergeAll(items, senders)[k]
    {
      assert senders[k] in senders;
      OnePerSender(items, senders[k]);
      MergeOne(MergeGroup(With(items, SenderOf, senders[k])));
    }
  }
}
