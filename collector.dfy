/**
  The collector: the newest entries of each configured feed, tagged with the
  feed's URL and concatenated in the order of the feed list. Fetching and
  parsing a feed is not modelled: `fetched[k]` stands for the entries the feed
  parser returned for `feeds[k]`.
 */
module Collector {
  import opened Items

  /** How many entries are taken from each feed. */
  const Limit: nat := 5

  /** The feeds the monitor checks, in the order it checks them. */
  const Feeds: seq<string> := [
    "https://sasktoday.ca/rss/north/saskatoon",
    "https://sasktoday.ca/rss/provincial-news/newsletter-provincial-news",
    "https://sasktoday.ca/rss/southwest/newsletter-southwest",
    "https://sasktoday.ca/rss/southeast/newsletter-southeast",
    "https://sasktoday.ca/rss/north/newsletter-north",
    "https://sasktoday.ca/rss/central/newsletter-central"
  ]

  function Min(a: nat, b: nat): nat
  {
    if a <= b then a else b
  }

  /** The articles one feed contributes: its first `Limit` entries, each tagged with `url`. */
  ghost function FeedArticles(url: string, entries: seq<Entry>): seq<Item>
  {
    seq(Min(Limit, |entries|), i requires 0 <= i < Min(Limit, |entries|) => Item(entries[i].title, entries[i].link, url))
  }

  /** The articles of all feeds, feed by feed in the order of `feeds`. */
  ghost function Collected(feeds: seq<string>, fetched: seq<seq<Entry>>): seq<Item>
    requires |fetched| == |feeds|
  {
    if feeds == [] then []
    else Collected(AllButLast(feeds), AllButLast(fetched)) + FeedArticles(Last(feeds), Last(fetched))
  }

  /** How many of `items` come from `url`. */
  ghost function CountFrom(items: seq<Item>, url: string): nat
  {
    if items == [] then 0
    else CountFrom(AllButLast(items), url) + (if Last(items).source == url then 1 else 0)
  }

  /** How often `url` is listed in `feeds`. */
  ghost function Occurrences(feeds: seq<string>, url: string): nat
  {
    if feeds == [] then 0
    else Occurrences(AllButLast(feeds), url) + (if Last(feeds) == url then 1 else 0)
  }

  /** Takes at most the first `Limit` entries of one feed and tags each with the feed's URL. */
  method GetArticlesFromFeed(feedUrl: string, entries: seq<Entry>) returns (articles: seq<Item>)
    ensures |articles| == Min(Limit, |entries|)
    ensures forall i :: 0 <= i < |articles| ==>
      articles[i] == Item(entries[i].title, entries[i].link, feedUrl)
    ensures articles == FeedArticles(feedUrl, entries)
  {
    var latest := entries[..Min(Limit, |entries|)];
    articles := [];
    for i := 0 to |latest|
      invariant |articles| == i
      invariant forall k :: 0 <= k < i ==> articles[k] == Item(latest[k].title, latest[k].link, feedUrl)
    {
      var entry := latest[i];
      articles := articles + [Item(entry.title, entry.link, feedUrl)];
    }
  }

  /** Fetches every feed in order and concatenates what each contributes. */
  method Collect(feeds: seq<string>, fetched: seq<seq<Entry>>) returns (allItems: seq<Item>)
    requires |fetched| == |feeds|
    ensures allItems == Collected(feeds, fetched)
  {
    allItems := [];
    for k := 0 to |feeds|
      invariant allItems == Collected(feeds[..k], fetched[..k])
    {
      var articles := GetArticlesFromFeed(feeds[k], fetched[k]);
      assert feeds[..k + 1] == feeds[..k] + [feeds[k]];
      assert fetched[..k + 1] == fetched[..k] + [fetched[k]];
      SnocParts(feeds[..k], feeds[k]);
      SnocParts(fetched[..k], fetched[k]);
      allItems := allItems + articles;
    }
    assert feeds[..|feeds|] == feeds;
    assert fetched[..|fetched|] == fetched;
  }

  // ---------------------------------------------------------------------------
  // Properties of the collected list

  /** One feed yields at most `Limit` articles, all tagged with its URL, in the feed's own order. */
  lemma FeedArticlesBounded(url: string, entries: seq<Entry>)
    ensures |FeedArticles(url, entries)| <= Limit
    ensures |FeedArticles(url, entries)| == Min(Limit, |entries|)
    ensures forall i :: 0 <= i < |FeedArticles(url, entries)| ==>
      FeedArticles(url, entries)[i].source == url &&
      FeedArticles(url, entries)[i].title == entries[i].title &&
      FeedArticles(url, entries)[i].link == entries[i].link
  {
  }

  /** Collecting a split feed list is collecting each part and concatenating. */
  lemma {:induction false} CollectedAppend(f1: seq<string>, e1: seq<seq<Entry>>, f2: seq<string>, e2: seq<seq<Entry>>)
    requires |e1| == |f1| && |e2| == |f2|
    ensures Collected(f1 + f2, e1 + e2) == Collected(f1, e1) + Collected(f2, e2)
  {
    if f2 != [] {
      var f2', e2' := AllButLast(f2), AllButLast(e2);
      assert f1 + f2 == (f1 + f2') + [Last(f2)];
      assert e1 + e2 == (e1 + e2') + [Last(e2)];
      SnocParts(f1 + f2', Last(f2));
      SnocParts(e1 + e2', Last(e2));
      CollectedAppend(f1, e1, f2', e2');
    } else {
      assert f1 + f2 == f1;
      assert e1 + e2 == e1;
    }
  }

  /**
    The collected list is the articles of the feeds before `k`, then those of
    feed `k`, then those of the feeds after it.
   */
  lemma CollectedSplit(feeds: seq<string>, fetched: seq<seq<Entry>>, k: nat)
    requires |fetched| == |feeds| && k < |feeds|
    ensures Collected(feeds, fetched) ==
      Collected(feeds[..k], fetched[..k]) + FeedArticles(feeds[k], fetched[k]) + Collected(feeds[k + 1..], fetched[k + 1..])
  {
    var fs, es := feeds[..k + 1], fetched[..k + 1];
    assert fs + feeds[k + 1..] == feeds;
    assert es + fetched[k + 1..] == fetched;
    CollectedAppend(fs, es, feeds[k + 1..], fetched[k + 1..]);
    assert AllButLast(fs) == feeds[..k] && Last(fs) == feeds[k];
    assert AllButLast(es) == fetched[..k] && Last(es) == fetched[k];
  }

  /** At most `Limit` articles per feed in total. */
  lemma {:induction false} CollectedBounded(feeds: seq<string>, fetched: seq<seq<Entry>>)
    requires |fetched| == |feeds|
    ensures |Collected(feeds, fetched)| <= Limit * |feeds|
  {
    if feeds != [] {
      CollectedBounded(AllButLast(feeds), AllButLast(fetched));
      FeedArticlesBounded(Last(feeds), Last(fetched));
    }
  }

  /** Every collected article names one of the configured feeds as its source. */
  lemma {:induction false} CollectedSources(feeds: seq<string>, fetched: seq<seq<Entry>>)
    requires |fetched| == |feeds|
    ensures forall i :: 0 <= i < |Collected(feeds, fetched)| ==> Collected(feeds, fetched)[i].source in feeds
  {
    if feeds != [] {
      var fs, es := AllButLast(feeds), AllButLast(fetched);
      var all, front := Collected(feeds, fetched), Collected(fs, es);
      CollectedSources(fs, es);
      forall i | 0 <= i < |all| ensures all[i].source in feeds {
        if i < |front| {
          assert all[i] == front[i];
          assert all[i].source in fs;
          var k :| 0 <= k < |fs| && fs[k] == all[i].source;
          assert feeds[k] == fs[k];
        } else {
          assert all[i].source == Last(feeds);
        }
      }
    }
  }

  lemma {:induction false} CountFromAppend(a: seq<Item>, b: seq<Item>, url: string)
    ensures CountFrom(a + b, url) == CountFrom(a, url) + CountFrom(b, url)
  {
    if b != [] {
      assert a + b == (a + AllButLast(b)) + [Last(b)];
      SnocParts(a + AllButLast(b), Last(b));
      CountFromAppend(a, AllButLast(b), url);
    } else {
      assert a + b == a;
    }
  }

  lemma {:induction false} CountFromTagged(items: seq<Item>, src: string, url: string)
    requires forall i :: 0 <= i < |items| ==> items[i].source == src
    ensures CountFrom(items, url) == if src == url then |items| else 0
  {
    if items != [] {
      CountFromTagged(AllButLast(items), src, url);
    }
  }

  /** A feed listed once contributes at most `Limit` articles; in general at most `Limit` per listing. */
  lemma {:induction false} PerFeedCap(feeds: seq<string>, fetched: seq<seq<Entry>>, url: string)
    requires |fetched| == |feeds|
    ensures CountFrom(Collected(feeds, fetched), url) <= Limit * Occurrences(feeds, url)
  {
    if feeds != [] {
      var fs, es := AllButLast(feeds), AllButLast(fetched);
      PerFeedCap(fs, es, url);
      CountFromAppend(Collected(fs, es), FeedArticles(Last(feeds), Last(fetched)), url);
      FeedArticlesBounded(Last(feeds), Last(fetched));
      CountFromTagged(FeedArticles(Last(feeds), Last(fetched)), Last(feeds), url);
    }
  }

  ghost predicate DistinctFeeds(feeds: seq<string>)
  {
    forall i, j :: 0 <= i < j < |feeds| ==> feeds[i] != feeds[j]
  }

  lemma {:induction false} OccurrencesOnce(feeds: seq<string>, k: nat)
    requires DistinctFeeds(feeds) && k < |feeds|
    ensures Occurrences(feeds, feeds[k]) == 1
  {
    var fs := AllButLast(feeds);
    if k == |feeds| - 1 {
      OccurrencesNone(fs, feeds[k]);
    } else {
      assert fs[k] == feeds[k];
      OccurrencesOnce(fs, k);
    }
  }

  lemma {:induction false} OccurrencesNone(feeds: seq<string>, url: string)
    requires url !in feeds
    ensures Occurrences(feeds, url) == 0
  {
    if feeds != [] {
      OccurrencesNone(AllButLast(feeds), url);
    }
  }

  /** Each configured feed is listed once, so each contributes at most `Limit` articles. */
  lemma FeedsListedOnce(fetched: seq<seq<Entry>>, k: nat)
    requires |fetched| == |Feeds| && k < |Feeds|
    ensures Occurrences(Feeds, Feeds[k]) == 1
    ensures CountFrom(Collected(Feeds, fetched), Feeds[k]) <= Limit
  {
    assert DistinctFeeds(Feeds);
    OccurrencesOnce(Feeds, k);
    PerFeedCap(Feeds, fetched, Feeds[k]);
  }
}
