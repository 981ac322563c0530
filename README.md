# Saskatoon Today newsletter duplicate monitor, modelled in Dafny

The monitor reads the six regional RSS feeds of the Saskatoon Today newsletter. It takes the
newest five entries of each and tags every entry with the URL of the feed it came from. It then
looks for titles that occur more than once and composes an HTML report, which it mails out.
This project models the collection, the detection and the report, and proves what each
promises:

- `items.dfy` (`Items`): a feed entry (title and link) and a checked article (title, link and
  source feed).
- `collector.dfy` (`Collector`): the feed list, taking at most five entries per feed, and
  concatenating the feeds' articles in the order of the feed list.
- `detector.dfy` (`Detector`): the single pass over the articles. It builds the index `seen`
  (title to the sources of the articles with that title, in encounter order) and the list of
  duplicates (every article whose title came earlier).
- `renderer.dfy` (`Renderer`): the report body, built by appending pieces to a string; the
  result is the same string the script builds. Also what the report is proved to contain.
- `monitor.dfy` (`Monitor`): one run, from the parser output of every feed to the subject and the
  body of the mail.

Each loop of `saskatoon.py` is a method with a `for` loop. Each method is proved equal to a ghost
specification function, and the properties are lemmas about those functions:

- `Collected` specifies the collection.
- `Index` and `Repeats` specify the detection.
- `EmailReport` specifies the report. `ReportPieces` lists the pieces of the report in the order
  the script appends them (header, heading, counts, list heading, one piece per duplicate, and so
  on), and the report is the concatenation of their texts.

Substring facts are stated with `OccursAt(t, s, k)` (t occurs in s at position k) and
`IsInfix(t, s)` (t occurs somewhere in s).

Which articles count as duplicates (scripts/saskatoon.py:33-38):

- The first article with a title is not a duplicate. Only the later ones are listed.
- Whether the sources of a title are distinct is not checked. A title repeated within one feed
  is a duplicate too.

The report's "No duplicates found." paragraph appears in the place right after the counts
exactly when there are no duplicates (`Renderer.NoDuplicatesStated`). Plain containment of the
phrase anywhere in the body does not decide this. Titles are copied into the body unescaped, so
two articles titled with the phrase itself are a duplicate, and the phrase still appears
(`Monitor.PhraseInTitlesMisleads`).

## Model

| member | source | states |
|---|---|---|
| Collector.GetArticlesFromFeed | scripts/saskatoon.py:16-27 | the result has min(5, number of entries) articles; article i carries entry i's title and link and the feed URL as its source |
| Collector.FeedArticlesBounded | scripts/saskatoon.py:21-26 | one feed yields at most 5 articles: all its entries if it has fewer, else exactly 5; each is tagged with the feed's URL and keeps the entry's title and link, in the feed's order |
| Collector.Collect | scripts/saskatoon.py:129-133 | the collected list is the per-feed results concatenated in the order of the feed list |
| Collector.CollectedAppend | scripts/saskatoon.py:129-133 | collecting a concatenation of feed lists is concatenating what each part collects |
| Collector.CollectedSplit | scripts/saskatoon.py:129-133 | the collected list is the earlier feeds' articles, then feed k's own articles, then the later feeds' articles |
| Collector.CollectedBounded | scripts/saskatoon.py:129-133 | at most 5 × number of feeds articles are collected |
| Collector.CollectedSources | scripts/saskatoon.py:25 | every collected article's source is one of the feeds |
| Collector.PerFeedCap | scripts/saskatoon.py:21 | the articles whose source is a given URL number at most 5 × the times that URL is listed |
| Collector.FeedsListedOnce | scripts/saskatoon.py:8-13 | each of the six configured feeds is listed once, so at most 5 collected articles name it as source |
| Detector.FindDuplicates | scripts/saskatoon.py:30-39 | the returned duplicates and index are exactly `Repeats` and `Index` of the input |
| Detector.IndexSnoc | scripts/saskatoon.py:34-38 | processing one more article appends its source to the entry of a known title, or adds its title with its source as a new entry |
| Detector.IndexExhaustive | scripts/saskatoon.py:31-38 | the keys of the index are exactly the titles that occur; each entry is the non-empty list of sources of the articles with that title, in encounter order |
| Detector.RepeatsAreSubsequence | scripts/saskatoon.py:32-36 | the duplicates are the articles at strictly increasing positions, and a position is among them exactly when its title occurs at an earlier position |
| Detector.FirstOccurrenceNeverRepeated | scripts/saskatoon.py:34-38 | position i is a duplicate iff some earlier position has the same title, so the first occurrence never is |
| Detector.RepeatsHaveTwoSources | scripts/saskatoon.py:34-36 | every duplicate is one of the input articles, and its title is indexed with at least two sources |
| Detector.CountingIdentity | scripts/saskatoon.py:34-38 | number of duplicates + number of distinct titles = number of articles |
| Detector.KeysMatchItemsIffDistinct | scripts/saskatoon.py:34-38 | there are at most as many keys as articles, with equality iff all titles differ |
| Detector.NoRepeatsIffDistinct | scripts/saskatoon.py:34-38 | no duplicates iff all titles differ |
| Detector.AppendNewTitle | scripts/saskatoon.py:37-38 | an article with a new title leaves the duplicates unchanged, adds exactly its title as a key with its own source, and leaves every other entry alone |
| Detector.AppendKnownTitle | scripts/saskatoon.py:34-36 | an article with a known title is appended to the duplicates and its source to that title's entry; keys and all other entries are unchanged |
| Detector.NoItems | scripts/saskatoon.py:31-32 | no articles give no duplicates and an empty index |
| Detector.ThreeSightingsOfOneTitle | scripts/saskatoon.py:33-38 | a title seen in three feeds yields its second and third articles as duplicates and all three sources in order |
| Renderer.NatToString | scripts/saskatoon.py:101 | a non-empty digit string with a leading zero only for zero |
| Renderer.NatToStringRoundTrip | scripts/saskatoon.py:101 | the numeral printed for a count reads back as that count |
| Renderer.CountsLineLayout | scripts/saskatoon.py:101 | the counts line has the numeral of the scanned count right after "<p>Scanned " and the numeral of the found count right after " articles and found " |
| Renderer.SourceLinkLayout | scripts/saskatoon.py:108 | a source link has the source URL as its target and as its text |
| Renderer.JoinLength | scripts/saskatoon.py:111 | the `","` join is the parts' total length plus one separator between each two parts |
| Renderer.JoinContainsPart | scripts/saskatoon.py:111 | every joined part occurs in the joined string |
| Renderer.DuplicateSection | scripts/saskatoon.py:104-114 | the appended section is the list heading, each duplicate's entry in order and the list end, or the no-duplicates paragraph when there are none |
| Renderer.ArticleListing | scripts/saskatoon.py:120-122 | the listing is each checked article's two lines, in order |
| Renderer.FormatEmailReport | scripts/saskatoon.py:82-125 | the body is exactly `EmailReport`: the concatenation of the report's pieces in the script's order |
| Renderer.ReportPiecesLayout | scripts/saskatoon.py:84-123 | the pieces are, in order: header, heading, counts, the section, spacer, listing heading, the article entries, footer; the section opens with the list heading and closes with the list end when there are duplicates, and is the no-duplicates paragraph otherwise |
| Renderer.ReportPiecesDuplicates | scripts/saskatoon.py:106-111 | between the list heading and the list end there is one entry per duplicate, in order, each with every source of its title |
| Renderer.ReportPiecesArticles | scripts/saskatoon.py:119-122 | after the listing heading there is one entry per checked article, in order |
| Renderer.ReportLayout | scripts/saskatoon.py:84-123 | the report is the fixed parts around the text of the duplicate section and the text of the listing |
| Renderer.ArticleLineLayout | scripts/saskatoon.py:121 | an article's first line has its link as the target and its title as the text |
| Renderer.SourceLineLayout | scripts/saskatoon.py:122 | an article's second line has its feed URL as the link target and as the link text |
| Renderer.ItemEntryContents | scripts/saskatoon.py:121-122 | a listed article's entry shows its link, title and source |
| Renderer.DuplicateEntryLayout | scripts/saskatoon.py:111 | a duplicate's entry has its link as the target, its title as the text, and then the joined source links, each at its fixed position |
| Renderer.DuplicateEntryContents | scripts/saskatoon.py:111 | a duplicate's entry shows its link, its title and every source link |
| Renderer.SourceLinkContents | scripts/saskatoon.py:108 | a source link shows the source URL |
| Renderer.ReportFrame | scripts/saskatoon.py:84-123 | the report starts with the header, the heading and "Scanned N articles and found M duplicates." for N articles and M duplicates, and ends with `</ul></body></html>` |
| Renderer.ReportListsArticle | scripts/saskatoon.py:120-122 | every checked article's entry, link, title and source occur in the report |
| Renderer.SourcesInEntry | scripts/saskatoon.py:108-111 | every source of a duplicate's title occurs in the duplicate's entry |
| Renderer.DuplicateInReport | scripts/saskatoon.py:106-111 | the entry of every duplicate occurs in the report |
| Renderer.ReportListsDuplicate | scripts/saskatoon.py:106-111 | every duplicate's entry, link and title, and every source of its title, occur in the report |
| Renderer.NoDuplicatesStated | scripts/saskatoon.py:104-114 | right after the counts, the report has "<p>No duplicates found.</p>" iff there are no duplicates, and the duplicates heading otherwise; with no duplicates the phrase occurs in the report |
| Renderer.NoDuplicatesAtSection | scripts/saskatoon.py:113-114 | with no duplicates, the no-duplicates paragraph is right after the counts, so the phrase is in the report |
| Renderer.DuplicatesHeadingAtSection | scripts/saskatoon.py:104-105 | with duplicates, the duplicates heading is right after the counts and the no-duplicates paragraph is not |
| Monitor.RunMonitor | scripts/saskatoon.py:128-142 | the mail has the fixed subject and the body `Report` of the collected articles, their duplicates and their index |
| Monitor.ReportCounts | scripts/saskatoon.py:129-139 | a run checks at most 30 articles; the report opens with the counts of checked articles and duplicates; duplicates plus distinct titles make up the checked articles |
| Monitor.ReportStatesNoDuplicates | scripts/saskatoon.py:104-114 | the run's report states "No duplicates found." after the counts iff all collected titles differ |
| Monitor.ReportNamesDuplicateSources | scripts/saskatoon.py:106-111 | every duplicate of a run is a collected article, its title and link are in the report, and so is every one of its at least two sources |
| Monitor.ReportListsEveryArticle | scripts/saskatoon.py:120-122 | every collected article comes from a configured feed and is in the report with its title, link and source |
| Monitor.PhraseInTitlesMisleads | scripts/saskatoon.py:114-121 | two articles titled "No duplicates found." are a duplicate, yet the phrase occurs in the report |

## Left out

- Mailing the report (`send_email`, lines 42-79): SMTP, credentials from the environment and the MIME message are I/O. The run returns the subject and the body instead.
- Fetching and parsing a feed (`feedparser.parse`, line 18) is network I/O. `fetched[k]` is the list of entries the parser returned for the k-th feed, given as input. A feed that fails to parse is the empty list. Entries without a title or link are not modelled.
- The progress messages printed by the run, and the script entry point.
- Escaping: titles, links and sources are copied into the HTML as they are, as in the script. Nothing is proved about the body being well-formed HTML.
- Renderer.ReportListsDuplicate: states that each duplicate's entry occurs in the report, not that the report has exactly one `<li>` per duplicate. Titles may themselves contain `<li>`, so counting tags in the body is not meaningful. The number and order of the entries are stated at piece level by `Renderer.ReportPiecesDuplicates`.
- Renderer.NoDuplicatesStated: states the no-duplicates paragraph at its place after the counts and not as "the body contains the phrase iff there are no duplicates". That plain form does not hold, as `Monitor.PhraseInTitlesMisleads` shows.
- Renderer.DuplicateSection and Renderer.ArticleListing: the script appends the two sections to `body` inside `format_email_report`. The model builds each section in its own method and appends the result. The resulting string is the same.
- Renderer.FormatEmailReport: requires every duplicate's title to be a key of the index. Without that, the lookup at scripts/saskatoon.py:109 raises a `KeyError`, which is not modelled. The only caller, `run_monitor`, always meets the requirement (`Monitor.DuplicatesIndexed`).
