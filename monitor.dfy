/**
  One run of the monitor: collect the newest articles of every configured feed,
  find the duplicated titles, and compose the report that is mailed out.
  Mailing is not modelled; the run returns the subject and the body it would send.
 */
module Monitor {
  import opened Items
  import Collector
  import Detector
  import Renderer

  /** The subject line of the report mail. */
  const Subject: string := "Duplicate Article Check - Saskatoon Today Newsletter"

  /** Every article the run checks, for the given parser output of each configured feed. */
  ghost function CheckedItems(fetched: seq<seq<Entry>>): seq<Item>
    requires |fetched| == |Collector.Feeds|
  {
    Collector.Collected(Collector.Feeds, fetched)
  }

  lemma DuplicatesIndexed(items: seq<Item>)
    ensures Renderer.TitlesIndexed(Detector.Repeats(items), Detector.Index(items))
  {
    Detector.RepeatsHaveTwoSources(items);
  }

  /** The body of the report the run produces. */
  ghost function Report(fetched: seq<seq<Entry>>): string
    requires |fetched| == |Collector.Feeds|
  {
    var items := CheckedItems(fetched);
    DuplicatesIndexed(items);
    Renderer.EmailReport(Detector.Repeats(items), items, Detector.Index(items))
  }

  /** Collects, detects and renders; returns the mail the run would send. */
  method RunMonitor(fetched: seq<seq<Entry>>) returns (subject: string, body: string)
    requires |fetched| == |Collector.Feeds|
    ensures subject == Subject
    ensures body == Report(fetched)
  {
    var allItems := Collector.Collect(Collector.Feeds, fetched);
    var duplicates, seen := Detector.FindDuplicates(allItems);
    DuplicatesIndexed(allItems);
    body := Renderer.FormatEmailReport(duplicates, allItems, seen);
    subject := Subject;
  }

  // ---------------------------------------------------------------------------
  // What one run reports

  /**
    The run checks at most five articles per feed, and its report opens with the
    number of checked articles and the number of duplicates, which together with
    the number of distinct titles make up the number of checked articles.
   */
  lemma ReportCounts(fetched: seq<seq<Entry>>)
    requires |fetched| == |Collector.Feeds|
    ensures |CheckedItems(fetched)| <= Collector.Limit * |Collector.Feeds|
    ensures var items := CheckedItems(fetched);
      Renderer.Header + Renderer.Heading + Renderer.CountsLine(|items|, |Detector.Repeats(items)|) <= Report(fetched)
    ensures var items := CheckedItems(fetched);
      |Detector.Repeats(items)| + |Detector.Index(items).Keys| == |items|
  {
    var items := CheckedItems(fetched);
    var dups, seen := Detector.Repeats(items), Detector.Index(items);
    Collector.CollectedBounded(Collector.Feeds, fetched);
    Detector.CountingIdentity(items);
    DuplicatesIndexed(items);
    Renderer.ReportFrame(dups, items, seen);
  }

  /** The report says "No duplicates found." in its section after the counts exactly when all titles differ. */
  lemma ReportStatesNoDuplicates(fetched: seq<seq<Entry>>)
    requires |fetched| == |Collector.Feeds|
    ensures var items := CheckedItems(fetched);
      Renderer.OccursAt(Renderer.NoDuplicates, Report(fetched), Renderer.SectionStart(items, Detector.Repeats(items)))
      <==> Detector.DistinctTitles(items)
  {
    var items := CheckedItems(fetched);
    DuplicatesIndexed(items);
    Renderer.NoDuplicatesStated(Detector.Repeats(items), items, Detector.Index(items));
    Detector.NoRepeatsIffDistinct(items);
  }

  /** Every duplicate is reported with its title, its link and every feed that carried its title, at least two of them. */
  lemma ReportNamesDuplicateSources(fetched: seq<seq<Entry>>, k: nat)
    requires |fetched| == |Collector.Feeds|
    requires k < |Detector.Repeats(CheckedItems(fetched))|
    ensures var items := CheckedItems(fetched);
      var dup := Detector.Repeats(items)[k];
      && dup in items
      && Renderer.IsInfix(dup.title, Report(fetched))
      && Renderer.IsInfix(dup.link, Report(fetched))
      && |Detector.Index(items)[dup.title]| >= 2
      && (forall s :: s in Detector.Index(items)[dup.title] ==> Renderer.IsInfix(s, Report(fetched)))
  {
    var items := CheckedItems(fetched);
    Detector.RepeatsHaveTwoSources(items);
    Renderer.ReportListsDuplicate(Detector.Repeats(items), items, Detector.Index(items), k);
  }

  /** Every checked article appears in the report with its title, its link and its feed. */
  lemma ReportListsEveryArticle(fetched: seq<seq<Entry>>, i: nat)
    requires |fetched| == |Collector.Feeds|
    requires i < |CheckedItems(fetched)|
    ensures var item := CheckedItems(fetched)[i];
      && item.source in Collector.Feeds
      && Renderer.IsInfix(item.title, Report(fetched))
      && Renderer.IsInfix(item.link, Report(fetched))
      && Renderer.IsInfix(item.source, Report(fetched))
  {
    var items := CheckedItems(fetched);
    Collector.CollectedSources(Collector.Feeds, fetched);
    DuplicatesIndexed(items);
    Renderer.ReportListsArticle(Detector.Repeats(items), items, Detector.Index(items), i);
  }

  /**
    Looking for the phrase anywhere in the body does not tell whether there are
    duplicates: two articles titled with the phrase itself are a duplicate, and
    the phrase still appears, in the listing of checked articles.
   */
  lemma PhraseInTitlesMisleads(items: seq<Item>, i: nat, j: nat)
    requires i < j < |items|
    requires items[i].title == Renderer.NoDuplicatesPhrase && items[j].title == Renderer.NoDuplicatesPhrase
    ensures Detector.Repeats(items) != []
    ensures Renderer.TitlesIndexed(Detector.Repeats(items), Detector.Index(items))
    ensures Renderer.IsInfix(Renderer.NoDuplicatesPhrase, Renderer.EmailReport(Detector.Repeats(items), items, Detector.Index(items)))
  {
    assert !Detector.DistinctTitles(items);
    Detector.NoRepeatsIffDistinct(items);
    DuplicatesIndexed(items);
    Renderer.ReportListsArticle(Detector.Repeats(items), items, Detector.Index(items), j);
  }
}
