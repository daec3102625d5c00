/**
 The tell-me-about topic list (`UpdateTellMeAboutTopics`).

 The list is the built-in tell-me-about topics without the faction
 (`OrganizationInfo`) questions, plus the custom topics whose lower-cased
 caption is known and whose conditions hold, one per lower-cased caption
 (the first in table order), all sorted by caption with ordinal
 case-insensitive comparison.

 The verdict of the condition evaluator on each custom topic is an input
 here (`passes[k]` for topic `k`); the conversation module computes it with
 `Conditions.Eligible`.
 */
module Catalog {
  import opened Text
  import opened Sorting
  import opened Topics
  import Knowledge

  /** `string.Compare(a.caption, b.caption, StringComparison.OrdinalIgnoreCase) <= 0`. */
  predicate CaptionLe(a: TopicItem, b: TopicItem) {
    LexLe(ToUpper(a.caption), ToUpper(b.caption))
  }

  lemma CaptionLeIsPreorder()
    ensures Total(CaptionLe) && Transitive(CaptionLe)
  {
    forall a: TopicItem, b: TopicItem ensures CaptionLe(a, b) || CaptionLe(b, a) {
      LexLeTotal(ToUpper(a.caption), ToUpper(b.caption));
    }
    forall a: TopicItem, b: TopicItem, c: TopicItem | CaptionLe(a, b) && CaptionLe(b, c)
      ensures CaptionLe(a, c)
    {
      LexLeTransitive(ToUpper(a.caption), ToUpper(b.caption), ToUpper(c.caption));
    }
  }

  predicate Increasing(ks: seq<nat>) {
    forall i, j :: 0 <= i < j < |ks| ==> ks[i] < ks[j]
  }

  predicate Distinct<T(==)>(xs: seq<T>) {
    forall i, j :: 0 <= i < j < |xs| ==> xs[i] != xs[j]
  }

  /** `RemoveAll(item => item.questionType == OrganizationInfo)`. */
  function WithoutOrganizationInfo(items: seq<TopicItem>): (r: seq<TopicItem>)
    ensures forall x :: multiset(r)[x] == if x.question == OrganizationInfo then 0 else multiset(items)[x]
  {
    if |items| == 0 then []
    else
      assert items == [items[0]] + items[1..];
      if items[0].question == OrganizationInfo then WithoutOrganizationInfo(items[1..])
      else [items[0]] + WithoutOrganizationInfo(items[1..])
  }

  /** Custom topic `k` is known under its lower-cased caption and passes its
      conditions. */
  predicate Qualifies(entries: seq<Entry>, known: set<string>, passes: seq<bool>, k: nat)
    requires |passes| == |entries|
  {
    k < |entries| && Key(entries[k].caption) in known && passes[k]
  }

  /** The `Where` filter over the custom topics, from `from` on, in table order. */
  function Admitted(entries: seq<Entry>, known: set<string>, passes: seq<bool>, from: nat): (r: seq<nat>)
    requires |passes| == |entries| && from <= |entries|
    ensures Increasing(r)
    ensures forall k :: k in r <==> from <= k && Qualifies(entries, known, passes, k)
    decreases |entries| - from
  {
    if from == |entries| then []
    else
      var rest := Admitted(entries, known, passes, from + 1);
      if Qualifies(entries, known, passes, from) then ConsIncreasing(from, rest); [from] + rest
      else rest
  }

  lemma ConsIncreasing(x: nat, ks: seq<nat>)
    requires Increasing(ks) && forall j :: j in ks ==> x < j
    ensures Increasing([x] + ks)
  {
    assert forall i :: 0 <= i < |ks| ==> ks[i] in ks;
  }

  /** `GroupBy(lower caption).Select(group => group.First())` over topics
      `ks` in table order, where `seen` holds the keys already grouped. */
  function FirstPerCaption(entries: seq<Entry>, ks: seq<nat>, seen: set<string>): (r: seq<nat>)
    requires forall i :: 0 <= i < |ks| ==> ks[i] < |entries|
    requires Increasing(ks)
    ensures Increasing(r)
    ensures forall k :: k in r ==> k in ks
  {
    if |ks| == 0 then []
    else
      var k0 := ks[0];
      var key := Key(entries[k0].caption);
      var rest := FirstPerCaption(entries, ks[1..], seen + {key});
      HeadBelowTail(ks);
      if key in seen then rest else ConsIncreasing(k0, rest); [k0] + rest
  }

  /** A topic is kept exactly when it is in `ks`, its key was not seen, and
      no earlier topic of `ks` has its key. */
  lemma {:induction false} FirstPerCaptionMembers(entries: seq<Entry>, ks: seq<nat>, seen: set<string>)
    requires forall i :: 0 <= i < |ks| ==> ks[i] < |entries|
    requires Increasing(ks)
    ensures forall k :: k in FirstPerCaption(entries, ks, seen) <==>
              && k in ks
              && Key(entries[k].caption) !in seen
              && forall j :: j in ks && j < k ==> Key(entries[j].caption) != Key(entries[k].caption)
  {
    if |ks| > 0 {
      var k0 := ks[0];
      var key := Key(entries[k0].caption);
      var tail := ks[1..];
      var r := FirstPerCaption(entries, ks, seen);
      var rest := FirstPerCaption(entries, tail, seen + {key});
      FirstPerCaptionMembers(entries, tail, seen + {key});
      HeadBelowTail(ks);
      assert r == if key in seen then rest else [k0] + rest;
      forall k ensures k in r <==>
                         && k in ks
                         && Key(entries[k].caption) !in seen
                         && forall j :: j in ks && j < k ==> Key(entries[j].caption) != Key(entries[k].caption)
      {
        if k == k0 {
          assert k0 !in tail;
        }
      }
    }
  }

  /** The head of an increasing sequence is below every later element. */
  lemma HeadBelowTail(ks: seq<nat>)
    requires Increasing(ks) && |ks| > 0
    ensures forall j :: j in ks ==> j == ks[0] || j in ks[1..]
    ensures forall j :: j in ks[1..] ==> ks[0] < j
    ensures forall j :: j in ks ==> ks[0] <= j
  {
    forall j | j in ks ensures j == ks[0] || j in ks[1..] {
      var i :| 0 <= i < |ks| && ks[i] == j;
      if i > 0 { assert ks[1..][i - 1] == j; }
    }
    forall j | j in ks[1..] ensures ks[0] < j {
      var i :| 0 <= i < |ks| - 1 && ks[1..][i] == j;
      assert ks[i + 1] == j;
    }
  }

  /** The list items of the custom topics `ks`. */
  function CustomItems(entries: seq<Entry>, ks: seq<nat>): (r: seq<TopicItem>)
    requires forall i :: 0 <= i < |ks| ==> ks[i] < |entries|
    ensures |r| == |ks|
    ensures forall i :: 0 <= i < |ks| ==> r[i] == EntryItem(entries, ks[i])
  {
    if |ks| == 0 then [] else [EntryItem(entries, ks[0])] + CustomItems(entries, ks[1..])
  }

  /** The custom topics that make it into the list, in table order. */
  function Chosen(entries: seq<Entry>, known: set<string>, passes: seq<bool>): (r: seq<nat>)
    requires |passes| == |entries|
    ensures forall i :: 0 <= i < |r| ==> r[i] < |entries|
  {
    var admitted := Admitted(entries, known, passes, 0);
    assert forall i :: 0 <= i < |admitted| ==> admitted[i] in admitted;
    var r := FirstPerCaption(entries, admitted, {});
    assert forall i :: 0 <= i < |r| ==> r[i] in r;
    r
  }

  /** The tell-me-about list. */
  function TellMeAbout(builtins: seq<TopicItem>, entries: seq<Entry>, known: set<string>, passes: seq<bool>): (r: seq<TopicItem>)
    requires |passes| == |entries|
    ensures SortedBy(r, CaptionLe)
    ensures multiset(r) == multiset(WithoutOrganizationInfo(builtins))
                           + multiset(CustomItems(entries, Chosen(entries, known, passes)))
  {
    CaptionLeIsPreorder();
    Sort(WithoutOrganizationInfo(builtins) + CustomItems(entries, Chosen(entries, known, passes)), CaptionLe)
  }

  /** The custom topics chosen are exactly those that qualify and whose
      lower-cased caption no earlier qualifying topic has. */
  lemma ChosenAreFirstQualifying(entries: seq<Entry>, known: set<string>, passes: seq<bool>)
    requires |passes| == |entries|
    ensures Increasing(Chosen(entries, known, passes))
    ensures forall k: nat :: k in Chosen(entries, known, passes) <==>
              && Qualifies(entries, known, passes, k)
              && forall j: nat :: j < k && Qualifies(entries, known, passes, j) ==>
                   Key(entries[j].caption) != Key(entries[k].caption)
  {
    var admitted := Admitted(entries, known, passes, 0);
    assert forall i :: 0 <= i < |admitted| ==> admitted[i] in admitted;
    FirstPerCaptionMembers(entries, admitted, {});
  }

  lemma InCustomItems(entries: seq<Entry>, ks: seq<nat>, x: TopicItem)
    requires forall i :: 0 <= i < |ks| ==> ks[i] < |entries|
    ensures x in CustomItems(entries, ks) <==>
              x.IsCustom() && x.entry.value in ks && x.entry.value < |entries| && x == EntryItem(entries, x.entry.value)
  {
    var c := CustomItems(entries, ks);
    if x in c {
      var i :| 0 <= i < |c| && c[i] == x;
      assert x.entry.value == ks[i];
    }
    if x.IsCustom() && x.entry.value in ks && x.entry.value < |entries| && x == EntryItem(entries, x.entry.value) {
      var i :| 0 <= i < |ks| && ks[i] == x.entry.value;
      assert c[i] == x;
    }
  }

  /** What is in the tell-me-about list: the built-in topics other than
      faction questions, and the list items of the chosen custom topics. */
  lemma ListingMembers(builtins: seq<TopicItem>, entries: seq<Entry>, known: set<string>, passes: seq<bool>, x: TopicItem)
    requires |passes| == |entries|
    requires forall b :: b in builtins ==> !b.IsCustom()
    ensures x in TellMeAbout(builtins, entries, known, passes) <==>
              || (x in builtins && x.question != OrganizationInfo)
              || (&& x.IsCustom() && x.entry.value in Chosen(entries, known, passes)
                  && x.entry.value < |entries| && x == EntryItem(entries, x.entry.value))
  {
    var r := TellMeAbout(builtins, entries, known, passes);
    var w := WithoutOrganizationInfo(builtins);
    var ks := Chosen(entries, known, passes);
    InCustomItems(entries, ks, x);
    assert x in r <==> multiset(r)[x] > 0;
    assert x in w <==> multiset(w)[x] > 0;
    assert x in builtins <==> multiset(builtins)[x] > 0;
    assert x in CustomItems(entries, ks) <==> multiset(CustomItems(entries, ks))[x] > 0;
  }

  /** No built-in faction question is listed; every listed built-in topic
      comes from the built-in list. */
  lemma NoOrganizationInfoBuiltin(builtins: seq<TopicItem>, entries: seq<Entry>, known: set<string>, passes: seq<bool>)
    requires |passes| == |entries|
    requires forall b :: b in builtins ==> !b.IsCustom()
    ensures forall x :: x in TellMeAbout(builtins, entries, known, passes) && !x.IsCustom() ==>
              x in builtins && x.question != OrganizationInfo
    ensures forall b :: b in builtins && b.question != OrganizationInfo ==> b in TellMeAbout(builtins, entries, known, passes)
  {
    forall x | x in TellMeAbout(builtins, entries, known, passes) && !x.IsCustom()
      ensures x in builtins && x.question != OrganizationInfo
    {
      ListingMembers(builtins, entries, known, passes, x);
    }
    forall b | b in builtins && b.question != OrganizationInfo
      ensures b in TellMeAbout(builtins, entries, known, passes)
    {
      ListingMembers(builtins, entries, known, passes, b);
    }
  }

  /** Every listed custom item is the item of a topic whose lower-cased
      caption is known and whose conditions hold, and no earlier such topic
      has the same lower-cased caption. */
  lemma ListedCustomTopicsQualify(builtins: seq<TopicItem>, entries: seq<Entry>, known: set<string>, passes: seq<bool>)
    requires |passes| == |entries|
    requires forall b :: b in builtins ==> !b.IsCustom()
    ensures forall x :: x in TellMeAbout(builtins, entries, known, passes) && x.IsCustom() ==>
              && x.entry.value < |entries|
              && x == EntryItem(entries, x.entry.value)
              && Key(x.caption) in known
              && passes[x.entry.value]
              && forall j: nat :: j < x.entry.value && Qualifies(entries, known, passes, j) ==>
                   Key(entries[j].caption) != Key(x.caption)
  {
    ChosenAreFirstQualifying(entries, known, passes);
    forall x | x in TellMeAbout(builtins, entries, known, passes) && x.IsCustom()
      ensures && x.entry.value < |entries|
              && x == EntryItem(entries, x.entry.value)
              && Key(x.caption) in known
              && passes[x.entry.value]
              && forall j: nat :: j < x.entry.value && Qualifies(entries, known, passes, j) ==>
                   Key(entries[j].caption) != Key(x.caption)
    {
      ListingMembers(builtins, entries, known, passes, x);
      var k := x.entry.value;
      assert k in Chosen(entries, known, passes);
      assert Qualifies(entries, known, passes, k);
    }
  }

  /** Conversely, a qualifying topic whose lower-cased caption no earlier
      qualifying topic has is listed. */
  lemma FirstQualifyingTopicsListed(builtins: seq<TopicItem>, entries: seq<Entry>, known: set<string>, passes: seq<bool>)
    requires |passes| == |entries|
    requires forall b :: b in builtins ==> !b.IsCustom()
    ensures forall k: nat :: Qualifies(entries, known, passes, k)
                        && (forall j: nat :: j < k && Qualifies(entries, known, passes, j) ==>
                              Key(entries[j].caption) != Key(entries[k].caption))
                        ==> EntryItem(entries, k) in TellMeAbout(builtins, entries, known, passes)
  {
    ChosenAreFirstQualifying(entries, known, passes);
    forall k: nat | Qualifies(entries, known, passes, k)
               && (forall j: nat :: j < k && Qualifies(entries, known, passes, j) ==>
                     Key(entries[j].caption) != Key(entries[k].caption))
      ensures EntryItem(entries, k) in TellMeAbout(builtins, entries, known, passes)
    {
      ListingMembers(builtins, entries, known, passes, EntryItem(entries, k));
    }
  }

  lemma DistinctOnce<T>(xs: seq<T>, x: T)
    requires Distinct(xs)
    ensures multiset(xs)[x] <= 1
  {
    if |xs| > 0 {
      assert xs == [xs[0]] + xs[1..];
      DistinctOnce(xs[1..], x);
      if xs[0] == x {
        assert x !in xs[1..] by {
          forall i | 0 <= i < |xs| - 1 ensures xs[1..][i] != x {
            assert xs[i + 1] != xs[0];
          }
        }
      }
    }
  }

  /** A custom item is listed at most once. */
  lemma CustomItemListedOnce(builtins: seq<TopicItem>, entries: seq<Entry>, known: set<string>, passes: seq<bool>, x: TopicItem)
    requires |passes| == |entries|
    requires forall b :: b in builtins ==> !b.IsCustom()
    requires x.IsCustom()
    ensures multiset(TellMeAbout(builtins, entries, known, passes))[x] <= 1
  {
    var ks := Chosen(entries, known, passes);
    var c := CustomItems(entries, ks);
    var w := WithoutOrganizationInfo(builtins);
    ChosenAreFirstQualifying(entries, known, passes);
    assert Distinct(c) by {
      forall i, j | 0 <= i < j < |c| ensures c[i] != c[j] {
        assert c[i].entry == Some(ks[i]) && c[j].entry == Some(ks[j]);
      }
    }
    DistinctOnce(c, x);
    assert x !in builtins;
    assert multiset(w)[x] == 0;
  }

  /** Two listed custom items with the same lower-cased caption are the same
      item: at most one custom topic per caption is listed. */
  lemma OneCustomItemPerCaption(builtins: seq<TopicItem>, entries: seq<Entry>, known: set<string>, passes: seq<bool>, x: TopicItem, y: TopicItem)
    requires |passes| == |entries|
    requires forall b :: b in builtins ==> !b.IsCustom()
    requires x in TellMeAbout(builtins, entries, known, passes) && x.IsCustom()
    requires y in TellMeAbout(builtins, entries, known, passes) && y.IsCustom()
    requires Key(x.caption) == Key(y.caption)
    ensures x == y
  {
    ListedCustomTopicsQualify(builtins, entries, known, passes);
    var a, b := x.entry.value, y.entry.value;
    assert Qualifies(entries, known, passes, a) && Qualifies(entries, known, passes, b);
  }

  /** On a fresh save only "any advice?" is known: the only custom topics
      listed are advice topics, and the first eligible one is listed. */
  lemma FreshSaveListsAdvice(builtins: seq<TopicItem>, entries: seq<Entry>, passes: seq<bool>)
    requires |passes| == |entries|
    requires forall b :: b in builtins ==> !b.IsCustom()
    ensures forall x :: x in TellMeAbout(builtins, entries, Knowledge.InitialKnown, passes) && x.IsCustom() ==>
              Key(x.caption) == Knowledge.AnyAdvice
    ensures forall k: nat ::
              (&& k < |entries| && Key(entries[k].caption) == Knowledge.AnyAdvice && passes[k]
               && forall j: nat :: j < k && passes[j] ==> Key(entries[j].caption) != Knowledge.AnyAdvice)
              ==> EntryItem(entries, k) in TellMeAbout(builtins, entries, Knowledge.InitialKnown, passes)
  {
    ListedCustomTopicsQualify(builtins, entries, Knowledge.InitialKnown, passes);
    FirstQualifyingTopicsListed(builtins, entries, Knowledge.InitialKnown, passes);
  }
}
