/**
  Duplicate detection over the flat article list: one left-to-right pass that
  builds the index from title to the sources that carried it, and collects
  every article whose title had already been seen.
 */
module Detector {
  import opened Items

  /** The set of titles occurring in `items`. */
  ghost function Titles(items: seq<Item>): set<string>
  {
    set i | 0 <= i < |items| :: items[i].title
  }

  /** The sources of the items titled `t`, in the order they occur. */
  ghost function SourcesWith(items: seq<Item>, t: string): seq<string>
  {
    if items == [] then []
    else SourcesWith(AllButLast(items), t) + (if Last(items).title == t then [Last(items).source] else [])
  }

  /** The index the pass builds: every title that occurs, mapped to the sources that carried it. */
  ghost function Index(items: seq<Item>): map<string, seq<string>>
  {
    map t | t in Titles(items) :: SourcesWith(items, t)
  }

  /** The item at position `i` repeats a title that occurs at an earlier position. */
  ghost predicate IsRepeat(items: seq<Item>, i: nat)
    requires i < |items|
  {
    exists j :: 0 <= j < i && items[j].title == items[i].title
  }

  /** No two items share a title. */
  ghost predicate DistinctTitles(items: seq<Item>)
  {
    forall i, j :: 0 <= i < j < |items| ==> items[i].title != items[j].title
  }

  /** The items whose title was already seen when the pass reached them, in encounter order. */
  ghost function Repeats(items: seq<Item>): seq<Item>
  {
    if items == [] then []
    else
      var prefix := AllButLast(items);
      Repeats(prefix) + (if Last(items).title in Titles(prefix) then [Last(items)] else [])
  }

  /** The positions of the repeated items, ascending. */
  ghost function RepeatPositions(items: seq<Item>): seq<nat>
  {
    if items == [] then []
    else
      var prefix := AllButLast(items);
      RepeatPositions(prefix) + (if Last(items).title in Titles(prefix) then [|items| - 1] else [])
  }

  ghost predicate StrictlyIncreasing(p: seq<nat>)
  {
    forall a, b :: 0 <= a < b < |p| ==> p[a] < p[b]
  }

  /**
    The single pass over the article list. `seen` grows by one source per item;
    an item whose title is already a key of `seen` is appended to `duplicates`.
   */
  method FindDuplicates(allItems: seq<Item>) returns (duplicates: seq<Item>, seen: map<string, seq<string>>)
    ensures duplicates == Repeats(allItems)
    ensures seen == Index(allItems)
  {
    seen := map[];
    duplicates := [];
    for i := 0 to |allItems|
      invariant duplicates == Repeats(allItems[..i])
      invariant seen == Index(allItems[..i])
    {
      var item := allItems[i];
      assert allItems[..i + 1] == allItems[..i] + [item];
      IndexSnoc(allItems[..i], item);
      RepeatsSnoc(allItems[..i], item);
      if item.title in seen {
        seen := seen[item.title := seen[item.title] + [item.source]];
        duplicates := duplicates + [item];
      } else {
        seen := seen[item.title := [item.source]];
      }
    }
    assert allItems[..|allItems|] == allItems;
  }

  // ---------------------------------------------------------------------------
  // One step of the pass

  lemma TitlesSnoc(items: seq<Item>, it: Item)
    ensures Titles(items + [it]) == Titles(items) + {it.title}
  {
    var s := items + [it];
    forall t | t in Titles(s) ensures t in Titles(items) + {it.title} {
      var i :| 0 <= i < |s| && s[i].title == t;
      if i < |items| { assert items[i] == s[i]; }
    }
    forall t | t in Titles(items) + {it.title} ensures t in Titles(s) {
      if t == it.title {
        assert s[|items|] == it;
      } else {
        var i :| 0 <= i < |items| && items[i].title == t;
        assert s[i] == items[i];
      }
    }
  }

  /** A title that never occurs has no sources. */
  lemma {:induction false} SourcesWithAbsent(items: seq<Item>, t: string)
    requires t !in Titles(items)
    ensures SourcesWith(items, t) == []
  {
    if items != [] {
      SnocParts(AllButLast(items), Last(items));
      assert items == AllButLast(items) + [Last(items)];
      TitlesSnoc(AllButLast(items), Last(items));
      SourcesWithAbsent(AllButLast(items), t);
    }
  }

  /** Appending an item extends the source list of its title by its source and leaves every other entry alone. */
  lemma IndexSnoc(items: seq<Item>, it: Item)
    ensures Index(items + [it]) ==
            if it.title in Index(items) then Index(items)[it.title := Index(items)[it.title] + [it.source]]
            else Index(items)[it.title := [it.source]]
  {
    var s := items + [it];
    SnocParts(items, it);
    TitlesSnoc(items, it);
    if it.title !in Titles(items) {
      SourcesWithAbsent(items, it.title);
    }
    var m := Index(items);
    var expected := if it.title in m then m[it.title := m[it.title] + [it.source]] else m[it.title := [it.source]];
    assert Index(s).Keys == expected.Keys;
    forall t | t in expected ensures Index(s)[t] == expected[t] {
      assert SourcesWith(s, t) == SourcesWith(items, t) + (if it.title == t then [it.source] else []);
    }
  }

  /** Appending an item adds it to the repeats exactly when its title was already seen. */
  lemma RepeatsSnoc(items: seq<Item>, it: Item)
    ensures Repeats(items + [it]) == Repeats(items) + (if it.title in Index(items) then [it] else [])
    ensures RepeatPositions(items + [it]) == RepeatPositions(items) + (if it.title in Index(items) then [|items|] else [])
  {
    SnocParts(items, it);
  }

  // ---------------------------------------------------------------------------
  // What the index holds

  /** A title that occurs has at least one source. */
  lemma {:induction false} SourcesWithPresent(items: seq<Item>, t: string)
    requires t in Titles(items)
    ensures |SourcesWith(items, t)| >= 1
  {
    var prefix := AllButLast(items);
    SnocParts(prefix, Last(items));
    assert items == prefix + [Last(items)];
    TitlesSnoc(prefix, Last(items));
    if Last(items).title != t {
      SourcesWithPresent(prefix, t);
    }
  }

  /** Two items with the same title give that title at least two sources. */
  lemma {:induction false} SourcesWithTwice(items: seq<Item>, j: nat, i: nat)
    requires j < i < |items| && items[j].title == items[i].title
    ensures |SourcesWith(items, items[i].title)| >= 2
  {
    var prefix := AllButLast(items);
    var t := items[i].title;
    SnocParts(prefix, Last(items));
    assert items == prefix + [Last(items)];
    assert prefix[j] == items[j];
    if i == |items| - 1 {
      assert t in Titles(prefix);
      SourcesWithPresent(prefix, t);
    } else {
      assert prefix[i] == items[i];
      SourcesWithTwice(prefix, j, i);
    }
  }

  /**
    The keys of the index are exactly the titles that occur; each entry is the
    non-empty list of sources of the items with that title, in encounter order.
   */
  lemma IndexExhaustive(items: seq<Item>)
    ensures Index(items).Keys == Titles(items)
    ensures forall i :: 0 <= i < |items| ==> items[i].title in Index(items)
    ensures forall t :: t in Index(items) ==> Index(items)[t] == SourcesWith(items, t) && |Index(items)[t]| >= 1
  {
    forall t | t in Index(items) ensures |Index(items)[t]| >= 1 {
      SourcesWithPresent(items, t);
    }
  }

  // ---------------------------------------------------------------------------
  // What the duplicates are

  /**
    The duplicates are the items at the ascending positions `RepeatPositions(items)`,
    and a position is among them exactly when its title occurs at an earlier position.
   */
  lemma {:induction false} RepeatsAreSubsequence(items: seq<Item>)
    ensures var p := RepeatPositions(items);
      && StrictlyIncreasing(p)
      && |Repeats(items)| == |p|
      && (forall k :: 0 <= k < |p| ==> p[k] < |items| && Repeats(items)[k] == items[p[k]])
      && (forall i :: 0 <= i < |items| ==> (i in p <==> IsRepeat(items, i)))
  {
    if items != [] {
      var prefix, it := AllButLast(items), Last(items);
      var n := |prefix|;
      SnocParts(prefix, it);
      assert items == prefix + [it];
      RepeatsAreSubsequence(prefix);
      var p, q := RepeatPositions(prefix), RepeatPositions(items);
      var seenBefore := it.title in Titles(prefix);
      assert q == p + (if seenBefore then [n] else []);
      assert Repeats(items) == Repeats(prefix) + (if seenBefore then [it] else []);
      forall i | 0 <= i < |items| ensures (i in q <==> IsRepeat(items, i)) {
        if i < n {
          assert i != n;
          assert IsRepeat(items, i) <==> IsRepeat(prefix, i) by {
            forall j | 0 <= j < i ensures items[j] == prefix[j] { }
            assert items[i] == prefix[i];
          }
        } else {
          assert !(n in p);
          if seenBefore {
            var j :| 0 <= j < n && prefix[j].title == it.title;
            assert items[j] == prefix[j];
          } else {
            forall j | 0 <= j < n ensures items[j].title != it.title {
              assert items[j] == prefix[j];
            }
          }
        }
      }
      forall k | 0 <= k < |q| ensures q[k] < |items| && Repeats(items)[k] == items[q[k]] {
        if k < |p| {
          assert items[p[k]] == prefix[p[k]];
        }
      }
    }
  }

  /** The first occurrence of a title is never a duplicate; every later occurrence is. */
  lemma FirstOccurrenceNeverRepeated(items: seq<Item>, i: nat)
    requires i < |items|
    ensures i in RepeatPositions(items) <==> exists j :: 0 <= j < i && items[j].title == items[i].title
  {
    RepeatsAreSubsequence(items);
  }

  /** Every duplicate's title is a key of the index with at least two sources. */
  lemma RepeatsHaveTwoSources(items: seq<Item>)
    ensures forall k :: 0 <= k < |Repeats(items)| ==>
      Repeats(items)[k] in items &&
      Repeats(items)[k].title in Index(items) &&
      |Index(items)[Repeats(items)[k].title]| >= 2
  {
    RepeatsAreSubsequence(items);
    var p := RepeatPositions(items);
    forall k | 0 <= k < |Repeats(items)|
      ensures Repeats(items)[k] in items
      ensures Repeats(items)[k].title in Index(items) && |Index(items)[Repeats(items)[k].title]| >= 2
    {
      var i := p[k];
      assert p[k] in p;
      assert IsRepeat(items, i);
      var j :| 0 <= j < i && items[j].title == items[i].title;
      SourcesWithTwice(items, j, i);
    }
  }

  // ---------------------------------------------------------------------------
  // Counting

  /** Every item is either the first with its title (one key of the index) or a duplicate. */
  lemma {:induction false} CountingIdentity(items: seq<Item>)
    ensures |Repeats(items)| + |Index(items).Keys| == |items|
  {
    if items != [] {
      var prefix, it := AllButLast(items), Last(items);
      SnocParts(prefix, it);
      assert items == prefix + [it];
      CountingIdentity(prefix);
      if it.title in Index(prefix) {
        AppendKnownTitle(prefix, it);
      } else {
        AppendNewTitle(prefix, it);
      }
    }
  }

  /** There are as many keys as items exactly when all titles differ. */
  lemma KeysMatchItemsIffDistinct(items: seq<Item>)
    ensures |Index(items).Keys| <= |items|
    ensures |Index(items).Keys| == |items| <==> DistinctTitles(items)
  {
    CountingIdentity(items);
    RepeatsAreSubsequence(items);
    var p := RepeatPositions(items);
    if |p| > 0 {
      assert p[0] in p;
      var j :| 0 <= j < p[0] && items[j].title == items[p[0]].title;
      assert !DistinctTitles(items);
    }
    if !DistinctTitles(items) {
      var i, j :| 0 <= i < j < |items| && items[i].title == items[j].title;
      assert IsRepeat(items, j);
      assert j in p;
    }
  }

  /** No duplicates are reported exactly when all titles differ. */
  lemma NoRepeatsIffDistinct(items: seq<Item>)
    ensures Repeats(items) == [] <==> DistinctTitles(items)
  {
    CountingIdentity(items);
    KeysMatchItemsIffDistinct(items);
  }

  // ---------------------------------------------------------------------------
  // Monotonicity

  /** An item with a new title leaves the duplicates alone and adds exactly one key. */
  lemma AppendNewTitle(items: seq<Item>, it: Item)
    requires it.title !in Index(items)
    ensures Repeats(items + [it]) == Repeats(items)
    ensures Index(items + [it]).Keys == Index(items).Keys + {it.title}
    ensures |Index(items + [it]).Keys| == |Index(items).Keys| + 1
    ensures Index(items + [it])[it.title] == [it.source]
    ensures forall t :: t in Index(items) ==> Index(items + [it])[t] == Index(items)[t]
  {
    IndexSnoc(items, it);
    RepeatsSnoc(items, it);
  }

  /** An item with a known title is appended to the duplicates and to that title's sources; nothing else changes. */
  lemma AppendKnownTitle(items: seq<Item>, it: Item)
    requires it.title in Index(items)
    ensures Repeats(items + [it]) == Repeats(items) + [it]
    ensures Index(items + [it]).Keys == Index(items).Keys
    ensures Index(items + [it])[it.title] == Index(items)[it.title] + [it.source]
    ensures forall t :: t in Index(items) && t != it.title ==> Index(items + [it])[t] == Index(items)[t]
  {
    IndexSnoc(items, it);
    RepeatsSnoc(items, it);
  }

  /** With no items there are no duplicates and no keys. */
  lemma NoItems()
    ensures Repeats([]) == [] && Index([]) == map[]
  {
  }

  /** Three items sharing one title: the last two are duplicates and the title lists all three sources. */
  lemma ThreeSightingsOfOneTitle()
    ensures var items := [Item("X", "l1", "A"), Item("X", "l2", "B"), Item("X", "l3", "C")];
      Repeats(items) == [items[1], items[2]] && Index(items) == map["X" := ["A", "B", "C"]]
  {
    var a, b, c := Item("X", "l1", "A"), Item("X", "l2", "B"), Item("X", "l3", "C");
    assert [a] == [] + [a];
    AppendNewTitle([], a);
    assert [a, b] == [a] + [b];
    AppendKnownTitle([a], b);
    assert [a, b, c] == [a, b] + [c];
    AppendKnownTitle([a, b], c);
    assert Index([]).Keys == {};
    assert Index([a, b, c]).Keys == {"X"};
    assert Index([a, b, c])["X"] == ["A", "B", "C"];
  }
}
