/**
  The HTML report: a fixed header, the counts, either the duplicates with
  every source their title was seen under or a "no duplicates" paragraph,
  the full list of checked articles, and a fixed footer. Titles, links and
  sources are pasted in as they are (nothing is escaped), so the report is
  plain string concatenation and is not claimed to be well-formed HTML.
 */
module Renderer {
  import opened Items

  /** The fixed opening of the page, up to and including `<body>`. */
  const Header: string := @"
    <html>
    <head>
    <style>
        body { font-family: Arial, sans-serif; }
        a.article-link { color: black !important; text-decoration: underline; }
        a.article-link.duplicate { font-weight: bold; }
        a.source-link { color: blue; text-decoration: none; padding: 5px; }
        .duplicate-source { color: blue; }
        ul { list-style-type: none; padding: 0; }
        li { margin-bottom: 15px; }
    </style>
    </head>
    <body>
    "
  const Heading: string := "<h2>Saskatoon Today Newsletter - Duplicate Article Check</h2>"
  const DuplicatesHeading: string := "<h4>Duplicate Articles Found:</h4><ul>"
  const ListEnd: string := "</ul>"
  const NoDuplicatesPhrase: string := "No duplicates found."
  const NoDuplicates: string := "<p>No duplicates found.</p>"
  const Spacer: string := "<div style=\"margin-bottom: 20px;\"></div>"
  const ListingHeading: string := "<p>Articles Checked:</p><ul>"
  const Footer: string := "</ul></body></html>"

  // ---------------------------------------------------------------------------
  // Decimal numerals

  function DigitChar(d: nat): char
    requires d < 10
  {
    "0123456789"[d]
  }

  predicate IsDigits(s: string)
  {
    forall i :: 0 <= i < |s| ==> '0' <= s[i] <= '9'
  }

  /** The decimal numeral of `n`, as Python formats a non-negative integer. */
  function NatToString(n: nat): (r: string)
    ensures |r| >= 1 && IsDigits(r)
    ensures r[0] == '0' <==> n == 0
  {
    if n < 10 then [DigitChar(n)]
    else NatToString(n / 10) + [DigitChar(n % 10)]
  }

  /** The value of a decimal numeral. */
  ghost function NumeralValue(s: string): nat
    requires IsDigits(s)
  {
    if s == [] then 0
    else NumeralValue(AllButLast(s)) * 10 + (Last(s) as int - '0' as int)
  }

  /** Reading back the numeral gives the number. */
  lemma {:induction false} NatToStringRoundTrip(n: nat)
    ensures NumeralValue(NatToString(n)) == n
  {
    if n >= 10 {
      NatToStringRoundTrip(n / 10);
      SnocParts(NatToString(n / 10), DigitChar(n % 10));
    }
  }

  // ---------------------------------------------------------------------------
  // Substrings and prefixes

  /** `t` occurs in `s` starting at position `k`. */
  ghost predicate OccursAt(t: string, s: string, k: nat)
  {
    k + |t| <= |s| && s[k..k + |t|] == t
  }

  /** `t` occurs somewhere in `s`. */
  ghost predicate IsInfix(t: string, s: string)
  {
    exists k: nat :: OccursAt(t, s, k)
  }

  lemma InfixOfConcat(a: string, t: string, b: string)
    ensures IsInfix(t, a + t + b)
  {
    assert OccursAt(t, a + t + b, |a|);
  }

  lemma InfixLeft(t: string, a: string, b: string)
    requires IsInfix(t, a)
    ensures IsInfix(t, a + b)
  {
    var k: nat :| OccursAt(t, a, k);
    OccursAtLeft(t, a, b, k);
  }

  lemma InfixRight(t: string, a: string, b: string)
    requires IsInfix(t, b)
    ensures IsInfix(t, a + b)
  {
    var k: nat :| OccursAt(t, b, k);
    assert (a + b)[|a| + k..|a| + k + |t|] == b[k..k + |t|];
    assert OccursAt(t, a + b, |a| + k);
  }

  lemma InfixTransitive(t: string, u: string, s: string)
    requires IsInfix(t, u) && IsInfix(u, s)
    ensures IsInfix(t, s)
  {
    var i: nat :| OccursAt(t, u, i);
    var k: nat :| OccursAt(u, s, k);
    forall j | 0 <= j < |t| ensures s[k + i..k + i + |t|][j] == t[j] {
      assert t[j] == u[i + j] == s[k + i + j];
    }
    assert OccursAt(t, s, k + i);
  }

  lemma InfixSelf(t: string)
    ensures IsInfix(t, t)
  {
    assert OccursAt(t, t, 0);
  }

  lemma OccursAtLeft(t: string, a: string, b: string, k: nat)
    requires OccursAt(t, a, k)
    ensures OccursAt(t, a + b, k)
  {
    assert (a + b)[k..k + |t|] == a[k..k + |t|];
  }

  lemma OccursAtPrefix(t: string, a: string, b: string)
    requires t <= b
    ensures OccursAt(t, a + b, |a|)
  {
    assert (a + b)[|a|..|a| + |t|] == b[..|t|];
  }

  lemma PrefixLeft(p: string, a: string, b: string)
    requires p <= a
    ensures p <= a + b
  {
    assert (a + b)[..|p|] == a[..|p|];
  }

  // ---------------------------------------------------------------------------
  // The pieces of the report

  /** The paragraph with the two counts: the scanned count's numeral after "<p>Scanned ", the found count's after " articles and found ". */
  function CountsLine(scanned: nat, found: nat): string
  {
    "<p>Scanned " + NatToString(scanned) + " articles and found " + NatToString(found) + " duplicates.</p>"
  }

  /** A link to a source, whose target is the source's URL. */
  function SourceLink(s: string): string
  {
    "<a href=\"" + s + "\" class=\"source-link\">" + s + "</a>"
  }

  /** One link per source, in order. */
  function SourceLinks(sources: seq<string>): (r: seq<string>)
    ensures |r| == |sources| && forall i :: 0 <= i < |r| ==> r[i] == SourceLink(sources[i])
  {
    seq(|sources|, i requires 0 <= i < |sources| => SourceLink(sources[i]))
  }

  /** The total length of the parts. */
  ghost function TotalLength(parts: seq<string>): nat
  {
    if parts == [] then 0 else TotalLength(AllButLast(parts)) + |Last(parts)|
  }

  /** The parts separated by `sep`: every part, plus one separator between each two. */
  function Join(parts: seq<string>, sep: string): string
  {
    if parts == [] then ""
    else if |parts| == 1 then parts[0]
    else Join(AllButLast(parts), sep) + sep + Last(parts)
  }

  /** The list entry of one duplicate: its own link and title, then the given source links. */
  function DuplicateEntry(dup: Item, sourceLinks: seq<string>): string
  {
    "<li><a href=\"" + dup.link + "\" class=\"article-link duplicate\">" + dup.title +
    "</a> (Found in: " + Join(sourceLinks, ",") + ")</li>"
  }

  /** The first half of a listed article: its link and title. */
  function ArticleLine(item: Item): string
  {
    "<li><a href=\"" + item.link + "\" class=\"article-link\">" + item.title + "</a><br>"
  }

  /** The second half of a listed article: its source, as link target and as link text. */
  function SourceLine(item: Item): string
  {
    "Source: <a href=\"" + item.source + "\" class=\"source-link\">" + item.source + "</a></li>"
  }

  /** The list entry of one checked article. */
  ghost function ItemEntry(item: Item): string
  {
    ArticleLine(item) + SourceLine(item)
  }

  /** Every duplicate's title has an entry in `seen`. */
  ghost predicate TitlesIndexed(dups: seq<Item>, seen: map<string, seq<string>>)
  {
    forall k :: 0 <= k < |dups| ==> dups[k].title in seen
  }

  /** The kinds of piece the report is appended from. */
  datatype Piece =
    | HeaderPart
    | HeadingPart
    | CountsPart(scanned: nat, found: nat)
    | ListStartPart
    | DuplicatePart(dup: Item, sources: seq<string>)
    | ListEndPart
    | NoDuplicatesPart
    | SpacerPart
    | ListingHeadingPart
    | ArticlePart(item: Item)
    | FooterPart

  /** The text a piece appends. */
  ghost function Text(p: Piece): string
  {
    match p
    case HeaderPart => Header
    case HeadingPart => Heading
    case CountsPart(scanned, found) => CountsLine(scanned, found)
    case ListStartPart => DuplicatesHeading
    case DuplicatePart(dup, sources) => DuplicateEntry(dup, SourceLinks(sources))
    case ListEndPart => ListEnd
    case NoDuplicatesPart => NoDuplicates
    case SpacerPart => Spacer
    case ListingHeadingPart => ListingHeading
    case ArticlePart(item) => ItemEntry(item)
    case FooterPart => Footer
  }

  /** The texts of the fixed pieces. */
  lemma FixedTexts()
    ensures Text(HeaderPart) == Header && Text(HeadingPart) == Heading
    ensures Text(ListStartPart) == DuplicatesHeading && Text(ListEndPart) == ListEnd
    ensures Text(NoDuplicatesPart) == NoDuplicates && Text(SpacerPart) == Spacer
    ensures Text(ListingHeadingPart) == ListingHeading && Text(FooterPart) == Footer
  {
  }

  lemma CountsText(scanned: nat, found: nat)
    ensures Text(CountsPart(scanned, found)) == CountsLine(scanned, found)
  {
  }

  lemma DuplicateText(dup: Item, sources: seq<string>)
    ensures Text(DuplicatePart(dup, sources)) == DuplicateEntry(dup, SourceLinks(sources))
  {
  }

  lemma ArticleText(item: Item)
    ensures Text(ArticlePart(item)) == ItemEntry(item)
  {
  }

  /** The texts of the pieces, one after the other. */
  ghost function Concat(pieces: seq<Piece>): string
  {
    if pieces == [] then "" else Concat(AllButLast(pieces)) + Text(Last(pieces))
  }

  /** One entry per duplicate, in order, each with every source of its title. */
  ghost function DuplicatePieces(dups: seq<Item>, seen: map<string, seq<string>>): seq<Piece>
    requires TitlesIndexed(dups, seen)
  {
    seq(|dups|, k requires 0 <= k < |dups| && TitlesIndexed(dups, seen) => DuplicatePart(dups[k], seen[dups[k].title]))
  }

  /** One entry per checked article, in order. */
  ghost function ItemPieces(items: seq<Item>): seq<Piece>
  {
    seq(|items|, i requires 0 <= i < |items| => ArticlePart(items[i]))
  }

  /** The duplicate section: the list of duplicates, or the statement that there are none. */
  ghost function SectionPieces(dups: seq<Item>, seen: map<string, seq<string>>): seq<Piece>
    requires TitlesIndexed(dups, seen)
  {
    if dups != [] then [ListStartPart] + DuplicatePieces(dups, seen) + [ListEndPart] else [NoDuplicatesPart]
  }

  /** The report, piece by piece, in the order the pieces are appended. */
  ghost function ReportPieces(dups: seq<Item>, items: seq<Item>, seen: map<string, seq<string>>): seq<Piece>
    requires TitlesIndexed(dups, seen)
  {
    [HeaderPart, HeadingPart, CountsPart(|items|, |dups|)] + SectionPieces(dups, seen) +
    [SpacerPart] + [ListingHeadingPart] + ItemPieces(items) + [FooterPart]
  }

  /** The whole report for one run. */
  ghost function EmailReport(dups: seq<Item>, items: seq<Item>, seen: map<string, seq<string>>): string
    requires TitlesIndexed(dups, seen)
  {
    Concat(ReportPieces(dups, items, seen))
  }

  lemma SeqRegroup<T>(a: seq<T>, b: seq<T>, c: seq<T>)
    ensures a + (b + c) == a + b + c
  {
  }

  lemma ConcatSnoc(pieces: seq<Piece>, x: Piece)
    ensures Concat(pieces + [x]) == Concat(pieces) + Text(x)
  {
    SnocParts(pieces, x);
  }

  lemma ThreeSnoc<T>(a: T, b: T, c: T)
    ensures [a, b, c] == [a, b] + [c] && [a, b] == [a] + [b]
  {
  }

  lemma ConcatThree(a: Piece, b: Piece, c: Piece)
    ensures Concat([a, b, c]) == Text(a) + Text(b) + Text(c)
  {
    ThreeSnoc(a, b, c);
    ConcatSnoc([a, b], c);
    ConcatSnoc([a], b);
    ConcatOne(a);
  }

  lemma {:induction false} ConcatAppend(a: seq<Piece>, b: seq<Piece>)
    ensures Concat(a + b) == Concat(a) + Concat(b)
  {
    if b == [] {
      assert a + b == a;
    } else {
      var front := AllButLast(b);
      AppendSnocSplit(a, b);
      ConcatSnoc(a + front, Last(b));
      ConcatAppend(a, front);
      SnocSplit(b);
      ConcatSnoc(front, Last(b));
      SeqRegroup(Concat(a), Concat(front), Text(Last(b)));
    }
  }

  lemma ConcatOne(x: Piece)
    ensures Concat([x]) == Text(x)
  {
    assert [x] == [] + [x];
    ConcatSnoc([], x);
  }

  /** The section's pieces: the list heading, one entry per duplicate and the list end, or the no-duplicates paragraph. */
  lemma SectionPiecesLayout(dups: seq<Item>, seen: map<string, seq<string>>)
    requires TitlesIndexed(dups, seen)
    ensures var sec := SectionPieces(dups, seen);
      && |sec| == (if dups == [] then 1 else |dups| + 2)
      && (dups == [] ==> sec[0] == NoDuplicatesPart)
      && (dups != [] ==> sec[0] == ListStartPart && sec[1 + |dups|] == ListEndPart)
      && (forall k :: 0 <= k < |dups| ==> sec[1 + k] == DuplicatePart(dups[k], seen[dups[k].title]))
  {
    var sec := SectionPieces(dups, seen);
    forall k | 0 <= k < |dups| ensures sec[1 + k] == DuplicatePart(dups[k], seen[dups[k].title]) {
      assert sec[1 + k] == DuplicatePieces(dups, seen)[k];
    }
  }

  /** Where the single parts of `[x, y, z] + b + [c] + [d] + e + [f]` sit. */
  lemma FramePartsAt<T>(x: T, y: T, z: T, b: seq<T>, c: T, d: T, e: seq<T>, f: T)
    ensures var p := [x, y, z] + b + [c] + [d] + e + [f];
      && |p| == |b| + |e| + 6
      && p[0] == x && p[1] == y && p[2] == z
      && p[3 + |b|] == c && p[4 + |b|] == d && p[|p| - 1] == f
  {
  }

  /** Piece `j` of the middle part `b` of `a + b + [c] + [d] + e + [f]` sits right after `a`. */
  lemma MiddlePartAt<T>(a: seq<T>, b: seq<T>, c: T, d: T, e: seq<T>, f: T, j: nat)
    requires j < |b|
    ensures |a| + j < |a + b + [c] + [d] + e + [f]|
    ensures (a + b + [c] + [d] + e + [f])[|a| + j] == b[j]
  {
  }

  /** The pieces of `e` in `a + b + [c] + [d] + e + [f]` sit right after `a`, `b`, `c` and `d`. */
  lemma EntryPartsAt<T>(a: seq<T>, b: seq<T>, c: T, d: T, e: seq<T>, f: T)
    ensures forall j :: 0 <= j < |e| ==> (a + b + [c] + [d] + e + [f])[|a| + |b| + 2 + j] == e[j]
  {
  }

  /** The section's pieces follow the counts. */
  lemma ReportPiecesSection(dups: seq<Item>, items: seq<Item>, seen: map<string, seq<string>>, j: nat)
    requires TitlesIndexed(dups, seen) && j < |SectionPieces(dups, seen)|
    ensures 3 + j < |ReportPieces(dups, items, seen)|
    ensures ReportPieces(dups, items, seen)[3 + j] == SectionPieces(dups, seen)[j]
  {
    MiddlePartAt([HeaderPart, HeadingPart, CountsPart(|items|, |dups|)], SectionPieces(dups, seen),
      SpacerPart, ListingHeadingPart, ItemPieces(items), FooterPart, j);
  }

  /**
    The fixed pieces in order: header, heading, counts, then the section, which
    opens with the list heading and closes with the list end when there are
    duplicates and is the no-duplicates paragraph otherwise, then spacer,
    listing heading, the article entries and the footer.
   */
  lemma ReportPiecesLayout(dups: seq<Item>, items: seq<Item>, seen: map<string, seq<string>>)
    requires TitlesIndexed(dups, seen)
    ensures var p, n := ReportPieces(dups, items, seen), |SectionPieces(dups, seen)|;
      && n == (if dups == [] then 1 else |dups| + 2)
      && |p| == 6 + n + |items|
      && p[0] == HeaderPart && p[1] == HeadingPart && p[2] == CountsPart(|items|, |dups|)
      && (dups == [] ==> p[3] == NoDuplicatesPart)
      && (dups != [] ==> p[3] == ListStartPart && p[4 + |dups|] == ListEndPart)
      && p[3 + n] == SpacerPart && p[4 + n] == ListingHeadingPart && p[|p| - 1] == FooterPart
  {
    FramePartsAt(HeaderPart, HeadingPart, CountsPart(|items|, |dups|), SectionPieces(dups, seen),
      SpacerPart, ListingHeadingPart, ItemPieces(items), FooterPart);
    SectionPiecesLayout(dups, seen);
    ReportPiecesSection(dups, items, seen, 0);
    if dups != [] {
      ReportPiecesSection(dups, items, seen, 1 + |dups|);
    }
  }

  /** Between the list heading and the list end, one entry per duplicate in order, with every source of its title. */
  lemma ReportPiecesDuplicates(dups: seq<Item>, items: seq<Item>, seen: map<string, seq<string>>)
    requires TitlesIndexed(dups, seen)
    ensures var p := ReportPieces(dups, items, seen);
      && |p| == 6 + |SectionPieces(dups, seen)| + |items|
      && forall k :: 0 <= k < |dups| ==> p[4 + k] == DuplicatePart(dups[k], seen[dups[k].title])
  {
    var p, sec := ReportPieces(dups, items, seen), SectionPieces(dups, seen);
    FramePartsAt(HeaderPart, HeadingPart, CountsPart(|items|, |dups|), sec,
      SpacerPart, ListingHeadingPart, ItemPieces(items), FooterPart);
    SectionPiecesLayout(dups, seen);
    forall k | 0 <= k < |dups| ensures p[4 + k] == DuplicatePart(dups[k], seen[dups[k].title]) {
      ReportPiecesSection(dups, items, seen, 1 + k);
    }
  }

  /** After the listing heading, one entry per checked article, in order. */
  lemma ReportPiecesArticles(dups: seq<Item>, items: seq<Item>, seen: map<string, seq<string>>)
    requires TitlesIndexed(dups, seen)
    ensures var p, n := ReportPieces(dups, items, seen), |SectionPieces(dups, seen)|;
      && |p| == 6 + n + |items|
      && forall i :: 0 <= i < |items| ==> p[5 + n + i] == ArticlePart(items[i])
  {
    var p, entries := ReportPieces(dups, items, seen), ItemPieces(items);
    EntryPartsAt([HeaderPart, HeadingPart, CountsPart(|items|, |dups|)], SectionPieces(dups, seen),
      SpacerPart, ListingHeadingPart, entries, FooterPart);
    forall i | 0 <= i < |items| ensures p[5 + |SectionPieces(dups, seen)| + i] == ArticlePart(items[i]) {
      assert p[3 + |SectionPieces(dups, seen)| + 2 + i] == entries[i];
    }
  }

  /** The report is its fixed parts around the duplicate section and the article listing. */
  lemma ReportLayout(dups: seq<Item>, items: seq<Item>, seen: map<string, seq<string>>)
    requires TitlesIndexed(dups, seen)
    ensures EmailReport(dups, items, seen) ==
      Header + Heading + CountsLine(|items|, |dups|) + Concat(SectionPieces(dups, seen)) +
      Spacer + ListingHeading + Concat(ItemPieces(items)) + Footer
  {
    var pre := [HeaderPart, HeadingPart, CountsPart(|items|, |dups|)];
    var x2 := pre + SectionPieces(dups, seen);
    var x3 := x2 + [SpacerPart];
    var x4 := x3 + [ListingHeadingPart];
    var x5 := x4 + ItemPieces(items);
    assert ReportPieces(dups, items, seen) == x5 + [FooterPart];
    ConcatSnoc(x5, FooterPart);
    ConcatAppend(x4, ItemPieces(items));
    ConcatSnoc(x3, ListingHeadingPart);
    ConcatSnoc(x2, SpacerPart);
    ConcatAppend(pre, SectionPieces(dups, seen));
    ConcatThree(HeaderPart, HeadingPart, CountsPart(|items|, |dups|));
    FixedTexts();
    CountsText(|items|, |dups|);
  }

  /** One more duplicate adds its entry at the end. */
  lemma DuplicatePiecesSnoc(dups: seq<Item>, seen: map<string, seq<string>>, k: nat)
    requires TitlesIndexed(dups, seen) && k < |dups|
    ensures TitlesIndexed(dups[..k], seen) && TitlesIndexed(dups[..k + 1], seen)
    ensures DuplicatePieces(dups[..k + 1], seen) ==
      DuplicatePieces(dups[..k], seen) + [DuplicatePart(dups[k], seen[dups[k].title])]
  {
    assert TitlesIndexed(dups[..k], seen);
    assert TitlesIndexed(dups[..k + 1], seen);
    var front, whole := DuplicatePieces(dups[..k], seen), DuplicatePieces(dups[..k + 1], seen);
    assert |whole| == |front| + 1;
    forall i | 0 <= i < |front| ensures whole[i] == front[i] {
      assert dups[..k + 1][i] == dups[..k][i];
    }
  }

  /** One more article adds its entry at the end. */
  lemma ItemPiecesSnoc(items: seq<Item>, i: nat)
    requires i < |items|
    ensures ItemPieces(items[..i + 1]) == ItemPieces(items[..i]) + [ArticlePart(items[i])]
  {
    var front, whole := ItemPieces(items[..i]), ItemPieces(items[..i + 1]);
    forall j | 0 <= j < |front| ensures whole[j] == front[j] {
      assert items[..i + 1][j] == items[..i][j];
    }
  }

  /** The duplicate section: each duplicate with its sources, or the statement that there are none. */
  method DuplicateSection(duplicates: seq<Item>, seen: map<string, seq<string>>) returns (section: string)
    requires TitlesIndexed(duplicates, seen)
    ensures section == Concat(SectionPieces(duplicates, seen))
  {
    FixedTexts();
    if duplicates != [] {
      section := DuplicatesHeading;
      ConcatOne(ListStartPart);
      ghost var pieces := [ListStartPart];
      for k := 0 to |duplicates|
        invariant section == Concat(pieces)
        invariant pieces == [ListStartPart] + DuplicatePieces(duplicates[..k], seen)
      {
        var dup := duplicates[k];
        var sources := SourceLinks(seen[dup.title]);
        DuplicatePiecesSnoc(duplicates, seen, k);
        ghost var piece := DuplicatePart(dup, seen[dup.title]);
        DuplicateText(dup, seen[dup.title]);
        SeqRegroup([ListStartPart], DuplicatePieces(duplicates[..k], seen), [piece]);
        section := section + DuplicateEntry(dup, sources);
        ConcatSnoc(pieces, piece);
        pieces := pieces + [piece];
      }
      assert duplicates[..|duplicates|] == duplicates;
      section := section + ListEnd;
      ConcatSnoc(pieces, ListEndPart);
    } else {
      section := NoDuplicates;
      ConcatOne(NoDuplicatesPart);
    }
  }

  /** The listing of every checked article with its source. */
  method ArticleListing(allItems: seq<Item>) returns (listing: string)
    ensures listing == Concat(ItemPieces(allItems))
  {
    listing := "";
    ghost var pieces: seq<Piece> := [];
    for i := 0 to |allItems|
      invariant listing == Concat(pieces)
      invariant pieces == ItemPieces(allItems[..i])
    {
      var item := allItems[i];
      ItemPiecesSnoc(allItems, i);
      SeqRegroup(listing, ArticleLine(item), SourceLine(item));
      listing := listing + ArticleLine(item);
      listing := listing + SourceLine(item);
      ArticleText(item);
      ConcatSnoc(pieces, ArticlePart(item));
      pieces := pieces + [ArticlePart(item)];
    }
    assert allItems[..|allItems|] == allItems;
  }

  /** Builds the report by appending its parts to `body` in order. */
  method FormatEmailReport(duplicates: seq<Item>, allItems: seq<Item>, seen: map<string, seq<string>>) returns (body: string)
    requires TitlesIndexed(duplicates, seen)
    ensures body == EmailReport(duplicates, allItems, seen)
  {
    body := Header;
    body := body + Heading;
    body := body + CountsLine(|allItems|, |duplicates|);
    var section := DuplicateSection(duplicates, seen);
    body := body + section;
    body := body + Spacer;
    body := body + ListingHeading;
    var listing := ArticleListing(allItems);
    body := body + listing;
    body := body + Footer;
    ReportLayout(duplicates, allItems, seen);
  }

  // ---------------------------------------------------------------------------
  // What the report contains

  /** `t` sits right after `a`. */
  lemma OccursAfter(a: string, t: string)
    ensures OccursAt(t, a + t, |a|)
  {
    OccursAtPrefix(t, a, t);
  }

  /** In `p1 + x + p2 + y + p3`, `x` sits after `p1` and `y` after `p1 + x + p2`. */
  lemma TwoSlots(p1: string, x: string, p2: string, y: string, p3: string)
    ensures OccursAt(x, p1 + x + p2 + y + p3, |p1|)
    ensures OccursAt(y, p1 + x + p2 + y + p3, |p1| + |x| + |p2|)
  {
    OccursAfter(p1, x);
    OccursAtLeft(x, p1 + x, p2, |p1|);
    OccursAtLeft(x, p1 + x + p2, y, |p1|);
    OccursAtLeft(x, p1 + x + p2 + y, p3, |p1|);
    OccursAfter(p1 + x + p2, y);
    OccursAtLeft(y, p1 + x + p2 + y, p3, |p1 + x + p2|);
  }

  /** In `p1 + x + p2 + y + p3 + z + p4`, each of `x`, `y` and `z` sits right after the parts before it. */
  lemma ThreeSlots(p1: string, x: string, p2: string, y: string, p3: string, z: string, p4: string)
    ensures OccursAt(x, p1 + x + p2 + y + p3 + z + p4, |p1|)
    ensures OccursAt(y, p1 + x + p2 + y + p3 + z + p4, |p1| + |x| + |p2|)
    ensures OccursAt(z, p1 + x + p2 + y + p3 + z + p4, |p1| + |x| + |p2| + |y| + |p3|)
  {
    var q := p1 + x + p2 + y + p3;
    TwoSlots(p1, x, p2, y, p3);
    OccursAtLeft(x, q, z, |p1|);
    OccursAtLeft(x, q + z, p4, |p1|);
    OccursAtLeft(y, q, z, |p1| + |x| + |p2|);
    OccursAtLeft(y, q + z, p4, |p1| + |x| + |p2|);
    OccursAfter(q, z);
    OccursAtLeft(z, q + z, p4, |q|);
  }

  /** The counts line has the scanned count's numeral after "<p>Scanned " and the found count's after " articles and found ". */
  lemma CountsLineLayout(scanned: nat, found: nat)
    ensures OccursAt(NatToString(scanned), CountsLine(scanned, found), 11)
    ensures OccursAt(NatToString(found), CountsLine(scanned, found), 31 + |NatToString(scanned)|)
  {
    var s1, s2, s3 := "<p>Scanned ", " articles and found ", " duplicates.</p>";
    assert |s1| == 11 && |s2| == 20;
    TwoSlots(s1, NatToString(scanned), s2, NatToString(found), s3);
  }

  /** A source link points at the source: the URL follows `<a href="`. */
  lemma SourceLinkLayout(s: string)
    ensures OccursAt(s, SourceLink(s), 9)
    ensures OccursAt(s, SourceLink(s), 31 + |s|)
  {
    var s1, s2, s3 := "<a href=\"", "\" class=\"source-link\">", "</a>";
    assert |s1| == 9 && |s2| == 22;
    TwoSlots(s1, s, s2, s, s3);
  }

  /** A duplicate's entry has its link as the target, its title as the text, then the joined source links. */
  lemma DuplicateEntryLayout(dup: Item, sourceLinks: seq<string>)
    ensures OccursAt(dup.link, DuplicateEntry(dup, sourceLinks), 13)
    ensures OccursAt(dup.title, DuplicateEntry(dup, sourceLinks), 46 + |dup.link|)
    ensures OccursAt(Join(sourceLinks, ","), DuplicateEntry(dup, sourceLinks), 62 + |dup.link| + |dup.title|)
  {
    var s1, s2, s3, s4 := "<li><a href=\"", "\" class=\"article-link duplicate\">", "</a> (Found in: ", ")</li>";
    assert |s1| == 13 && |s2| == 33 && |s3| == 16;
    ThreeSlots(s1, dup.link, s2, dup.title, s3, Join(sourceLinks, ","), s4);
  }

  /** The first line of a listed article has its link as the target and its title as the text. */
  lemma ArticleLineLayout(item: Item)
    ensures OccursAt(item.link, ArticleLine(item), 13)
    ensures OccursAt(item.title, ArticleLine(item), 36 + |item.link|)
  {
    var s1, s2, s3 := "<li><a href=\"", "\" class=\"article-link\">", "</a><br>";
    assert |s1| == 13 && |s2| == 23;
    TwoSlots(s1, item.link, s2, item.title, s3);
  }

  /** The second line of a listed article has its source as the link target and as the link text. */
  lemma SourceLineLayout(item: Item)
    ensures OccursAt(item.source, SourceLine(item), 17)
    ensures OccursAt(item.source, SourceLine(item), 39 + |item.source|)
  {
    var s1, s2, s3 := "Source: <a href=\"", "\" class=\"source-link\">", "</a></li>";
    assert |s1| == 17 && |s2| == 22;
    TwoSlots(s1, item.source, s2, item.source, s3);
  }

  /** The join is as long as the parts plus one separator between each two. */
  lemma {:induction false} JoinLength(parts: seq<string>, sep: string)
    ensures |Join(parts, sep)| == TotalLength(parts) + if parts == [] then 0 else (|parts| - 1) * |sep|
  {
    if |parts| > 1 {
      var front := AllButLast(parts);
      JoinLength(front, sep);
      assert (|parts| - 1) * |sep| == (|front| - 1) * |sep| + |sep|;
    } else if |parts| == 1 {
      assert AllButLast(parts) == [];
    }
  }

  lemma {:induction false} JoinContainsPart(parts: seq<string>, sep: string, j: nat)
    requires j < |parts|
    ensures IsInfix(parts[j], Join(parts, sep))
  {
    if |parts| == 1 {
      InfixSelf(parts[0]);
    } else if j == |parts| - 1 {
      InfixSelf(parts[j]);
      InfixRight(parts[j], Join(AllButLast(parts), sep) + sep, parts[j]);
    } else {
      var front := AllButLast(parts);
      assert front[j] == parts[j];
      JoinContainsPart(front, sep, j);
      InfixLeft(parts[j], Join(front, sep), sep);
      InfixLeft(parts[j], Join(front, sep) + sep, Last(parts));
    }
  }

  lemma {:induction false} ConcatHasPiece(pieces: seq<Piece>, i: nat)
    requires i < |pieces|
    ensures IsInfix(Text(pieces[i]), Concat(pieces))
  {
    var front := AllButLast(pieces);
    if i == |pieces| - 1 {
      InfixSelf(Text(pieces[i]));
      InfixRight(Text(pieces[i]), Concat(front), Text(pieces[i]));
    } else {
      assert front[i] == pieces[i];
      ConcatHasPiece(front, i);
      InfixLeft(Text(pieces[i]), Concat(front), Text(Last(pieces)));
    }
  }

  /** A listed article shows its link, its title and its source. */
  lemma ItemEntryContents(item: Item)
    ensures IsInfix(item.link, ItemEntry(item))
    ensures IsInfix(item.title, ItemEntry(item))
    ensures IsInfix(item.source, ItemEntry(item))
  {
    var s1, s2, s3 := "<li><a href=\"", "\" class=\"article-link\">", "</a><br>";
    var a := ArticleLine(item);
    var b := SourceLine(item);
    InfixOfConcat(s1, item.link, s2);
    InfixLeft(item.link, s1 + item.link + s2, item.title);
    InfixLeft(item.link, s1 + item.link + s2 + item.title, s3);
    InfixLeft(item.link, a, b);
    InfixOfConcat(s1 + item.link + s2, item.title, s3);
    InfixLeft(item.title, a, b);
    InfixOfConcat("Source: <a href=\"", item.source, "\" class=\"source-link\">");
    InfixLeft(item.source, "Source: <a href=\"" + item.source + "\" class=\"source-link\">", item.source);
    InfixLeft(item.source, "Source: <a href=\"" + item.source + "\" class=\"source-link\">" + item.source, "</a></li>");
    InfixRight(item.source, a, b);
  }

  /** A duplicate's entry shows its link, its title and every source link given. */
  lemma DuplicateEntryContents(dup: Item, sourceLinks: seq<string>)
    ensures IsInfix(dup.link, DuplicateEntry(dup, sourceLinks))
    ensures IsInfix(dup.title, DuplicateEntry(dup, sourceLinks))
    ensures forall j :: 0 <= j < |sourceLinks| ==> IsInfix(sourceLinks[j], DuplicateEntry(dup, sourceLinks))
  {
    var s1, s2, s3, s4 := "<li><a href=\"", "\" class=\"article-link duplicate\">", "</a> (Found in: ", ")</li>";
    var joined := Join(sourceLinks, ",");
    var e := DuplicateEntry(dup, sourceLinks);
    InfixOfConcat(s1, dup.link, s2);
    InfixLeft(dup.link, s1 + dup.link + s2, dup.title);
    InfixLeft(dup.link, s1 + dup.link + s2 + dup.title, s3);
    InfixLeft(dup.link, s1 + dup.link + s2 + dup.title + s3, joined);
    InfixLeft(dup.link, s1 + dup.link + s2 + dup.title + s3 + joined, s4);
    InfixOfConcat(s1 + dup.link + s2, dup.title, s3);
    InfixLeft(dup.title, s1 + dup.link + s2 + dup.title + s3, joined);
    InfixLeft(dup.title, s1 + dup.link + s2 + dup.title + s3 + joined, s4);
    InfixOfConcat(s1 + dup.link + s2 + dup.title + s3, joined, s4);
    forall j | 0 <= j < |sourceLinks| ensures IsInfix(sourceLinks[j], e) {
      JoinContainsPart(sourceLinks, ",", j);
      InfixTransitive(sourceLinks[j], joined, e);
    }
  }

  lemma SourceLinkContents(s: string)
    ensures IsInfix(s, SourceLink(s))
  {
    InfixOfConcat("<a href=\"", s, "\" class=\"source-link\">");
    InfixLeft(s, "<a href=\"" + s + "\" class=\"source-link\">", s);
    InfixLeft(s, "<a href=\"" + s + "\" class=\"source-link\">" + s, "</a>");
  }

  /** Whatever the article listing contains, the report contains. */
  lemma ListingInReport(t: string, dups: seq<Item>, items: seq<Item>, seen: map<string, seq<string>>)
    requires TitlesIndexed(dups, seen)
    requires IsInfix(t, Concat(ItemPieces(items)))
    ensures IsInfix(t, EmailReport(dups, items, seen))
  {
    ReportLayout(dups, items, seen);
    var before := Header + Heading + CountsLine(|items|, |dups|) + Concat(SectionPieces(dups, seen)) + Spacer + ListingHeading;
    InfixRight(t, before, Concat(ItemPieces(items)));
    InfixLeft(t, before + Concat(ItemPieces(items)), Footer);
  }

  /** Whatever the duplicate section contains, the report contains. */
  lemma SectionInReport(t: string, dups: seq<Item>, items: seq<Item>, seen: map<string, seq<string>>)
    requires TitlesIndexed(dups, seen)
    requires IsInfix(t, Concat(SectionPieces(dups, seen)))
    ensures IsInfix(t, EmailReport(dups, items, seen))
  {
    ReportLayout(dups, items, seen);
    var pre := Header + Heading + CountsLine(|items|, |dups|);
    var r := pre + Concat(SectionPieces(dups, seen));
    InfixRight(t, pre, Concat(SectionPieces(dups, seen)));
    InfixLeft(t, r, Spacer);
    InfixLeft(t, r + Spacer, ListingHeading);
    InfixLeft(t, r + Spacer + ListingHeading, Concat(ItemPieces(items)));
    InfixLeft(t, r + Spacer + ListingHeading + Concat(ItemPieces(items)), Footer);
  }

  /** Every checked article is listed with its link, title and source. */
  lemma ReportListsArticle(dups: seq<Item>, items: seq<Item>, seen: map<string, seq<string>>, i: nat)
    requires TitlesIndexed(dups, seen) && i < |items|
    ensures IsInfix(ItemEntry(items[i]), EmailReport(dups, items, seen))
    ensures IsInfix(items[i].link, EmailReport(dups, items, seen))
    ensures IsInfix(items[i].title, EmailReport(dups, items, seen))
    ensures IsInfix(items[i].source, EmailReport(dups, items, seen))
  {
    var listing := Concat(ItemPieces(items));
    assert Text(ItemPieces(items)[i]) == ItemEntry(items[i]);
    ConcatHasPiece(ItemPieces(items), i);
    ListingInReport(ItemEntry(items[i]), dups, items, seen);
    ItemEntryContents(items[i]);
    InfixTransitive(items[i].link, ItemEntry(items[i]), listing);
    InfixTransitive(items[i].title, ItemEntry(items[i]), listing);
    InfixTransitive(items[i].source, ItemEntry(items[i]), listing);
    ListingInReport(items[i].link, dups, items, seen);
    ListingInReport(items[i].title, dups, items, seen);
    ListingInReport(items[i].source, dups, items, seen);
  }

  /** Every source of a duplicate's title occurs in the duplicate's entry. */
  lemma SourcesInEntry(dup: Item, sources: seq<string>)
    ensures forall s :: s in sources ==> IsInfix(s, DuplicateEntry(dup, SourceLinks(sources)))
  {
    var links := SourceLinks(sources);
    DuplicateEntryContents(dup, links);
    forall s | s in sources ensures IsInfix(s, DuplicateEntry(dup, links)) {
      var j :| 0 <= j < |sources| && sources[j] == s;
      SourceLinkContents(s);
      InfixTransitive(s, links[j], DuplicateEntry(dup, links));
    }
  }

  /** A duplicate's entry occurs in the report. */
  lemma DuplicateInReport(dups: seq<Item>, items: seq<Item>, seen: map<string, seq<string>>, k: nat)
    requires TitlesIndexed(dups, seen) && k < |dups|
    ensures IsInfix(DuplicateEntry(dups[k], SourceLinks(seen[dups[k].title])), EmailReport(dups, items, seen))
  {
    var entry := DuplicateEntry(dups[k], SourceLinks(seen[dups[k].title]));
    assert SectionPieces(dups, seen)[1 + k] == DuplicatePieces(dups, seen)[k] == DuplicatePart(dups[k], seen[dups[k].title]);
    DuplicateText(dups[k], seen[dups[k].title]);
    ConcatHasPiece(SectionPieces(dups, seen), 1 + k);
    SectionInReport(entry, dups, items, seen);
  }

  /** Every duplicate is listed with its link, its title and every source its title was seen in. */
  lemma ReportListsDuplicate(dups: seq<Item>, items: seq<Item>, seen: map<string, seq<string>>, k: nat)
    requires TitlesIndexed(dups, seen) && k < |dups|
    ensures IsInfix(DuplicateEntry(dups[k], SourceLinks(seen[dups[k].title])), EmailReport(dups, items, seen))
    ensures IsInfix(dups[k].link, EmailReport(dups, items, seen))
    ensures IsInfix(dups[k].title, EmailReport(dups, items, seen))
    ensures forall s :: s in seen[dups[k].title] ==> IsInfix(s, EmailReport(dups, items, seen))
  {
    var sources := seen[dups[k].title];
    var entry := DuplicateEntry(dups[k], SourceLinks(sources));
    var report := EmailReport(dups, items, seen);
    DuplicateInReport(dups, items, seen, k);
    DuplicateEntryContents(dups[k], SourceLinks(sources));
    InfixTransitive(dups[k].link, entry, report);
    InfixTransitive(dups[k].title, entry, report);
    SourcesInEntry(dups[k], sources);
    forall s | s in sources ensures IsInfix(s, report) {
      InfixTransitive(s, entry, report);
    }
  }

  /** The report opens with the style sheet, the heading and the counts, and closes with the footer. */
  lemma ReportFrame(dups: seq<Item>, items: seq<Item>, seen: map<string, seq<string>>)
    requires TitlesIndexed(dups, seen)
    ensures Header + Heading + CountsLine(|items|, |dups|) <= EmailReport(dups, items, seen)
    ensures |Footer| <= |EmailReport(dups, items, seen)|
    ensures EmailReport(dups, items, seen)[|EmailReport(dups, items, seen)| - |Footer|..] == Footer
  {
    ReportLayout(dups, items, seen);
    var pre := Header + Heading + CountsLine(|items|, |dups|);
    var r := pre + Concat(SectionPieces(dups, seen));
    PrefixLeft(pre, pre, Concat(SectionPieces(dups, seen)));
    PrefixLeft(pre, r, Spacer);
    PrefixLeft(pre, r + Spacer, ListingHeading);
    PrefixLeft(pre, r + Spacer + ListingHeading, Concat(ItemPieces(items)));
    var last := r + Spacer + ListingHeading + Concat(ItemPieces(items));
    PrefixLeft(pre, last, Footer);
    assert (last + Footer)[|last|..] == Footer;
  }

  lemma PhraseInNoDuplicates()
    ensures IsInfix(NoDuplicatesPhrase, NoDuplicates)
  {
    assert NoDuplicates == "<p>" + NoDuplicatesPhrase + "</p>";
    InfixOfConcat("<p>", NoDuplicatesPhrase, "</p>");
  }

  /** The list heading and the no-duplicates paragraph cannot start at the same place. */
  lemma HeadingsDiffer(s: string, k: nat)
    requires OccursAt(DuplicatesHeading, s, k)
    ensures !OccursAt(NoDuplicates, s, k)
  {
    assert s[k + 1] == DuplicatesHeading[1] == 'h';
    assert NoDuplicates[1] == 'p';
  }

  /** Where the duplicate section starts. */
  function SectionStart(items: seq<Item>, dups: seq<Item>): nat
  {
    |Header + Heading + CountsLine(|items|, |dups|)|
  }

  /** Whatever the duplicate section starts with, the report has at the section's position. */
  lemma SectionAt(t: string, dups: seq<Item>, items: seq<Item>, seen: map<string, seq<string>>)
    requires TitlesIndexed(dups, seen)
    requires t <= Concat(SectionPieces(dups, seen))
    ensures OccursAt(t, EmailReport(dups, items, seen), SectionStart(items, dups))
  {
    ReportLayout(dups, items, seen);
    var pre := Header + Heading + CountsLine(|items|, |dups|);
    var section := Concat(SectionPieces(dups, seen));
    var r := pre + section;
    OccursAtPrefix(t, pre, section);
    OccursAtLeft(t, r, Spacer, |pre|);
    OccursAtLeft(t, r + Spacer, ListingHeading, |pre|);
    OccursAtLeft(t, r + Spacer + ListingHeading, Concat(ItemPieces(items)), |pre|);
    OccursAtLeft(t, r + Spacer + ListingHeading + Concat(ItemPieces(items)), Footer, |pre|);
  }

  /**
    The section after the counts says "No duplicates found." exactly when there are
    no duplicates; otherwise it is the list of duplicates.
   */
lemma NoDuplicatesStated(dups: seq<Item>, items: seq<Item>, seen: map<string, seq<string>>)
    requires TitlesIndexed(dups, seen)
    ensures OccursAt(NoDuplicates, EmailReport(dups, items, seen), SectionStart(items, dups)) <==> dups == []
    ensures dups != [] ==> OccursAt(DuplicatesHeading, EmailReport(dups, items, seen), SectionStart(items, dups))
    ensures dups == [] ==> IsInfix(NoDuplicatesPhrase, EmailReport(dups, items, seen))
  {
    if dups == [] {
      NoDuplicatesAtSection(dups, items, seen);
    } else {
      DuplicatesHeadingAtSection(dups, items, seen);
    }
  }

  /** With no duplicates, the section is the no-duplicates paragraph, and so the phrase is in the report. */
  lemma NoDuplicatesAtSection(dups: seq<Item>, items: seq<Item>, seen: map<string, seq<string>>)
    requires TitlesIndexed(dups, seen) && dups == []
    ensures OccursAt(NoDuplicates, EmailReport(dups, items, seen), SectionStart(items, dups))
    ensures IsInfix(NoDuplicatesPhrase, EmailReport(dups, items, seen))
  {
    var report := EmailReport(dups, items, seen);
    FixedTexts();
    ConcatOne(NoDuplicatesPart);
    SectionAt(NoDuplicates, dups, items, seen);
    PhraseInNoDuplicates();
    assert IsInfix(NoDuplicates, report);
    InfixTransitive(NoDuplicatesPhrase, NoDuplicates, report);
  }

  /** With duplicates, the section opens with the duplicates heading, and so not with the no-duplicates paragraph. */
  lemma DuplicatesHeadingAtSection(dups: seq<Item>, items: seq<Item>, seen: map<string, seq<string>>)
    requires TitlesIndexed(dups, seen) && dups != []
    ensures OccursAt(DuplicatesHeading, EmailReport(dups, items, seen), SectionStart(items, dups))
    ensures !OccursAt(NoDuplicates, EmailReport(dups, items, seen), SectionStart(items, dups))
  {
    var rest := DuplicatePieces(dups, seen) + [ListEndPart];
    FixedTexts();
    assert SectionPieces(dups, seen) == [ListStartPart] + rest;
    ConcatAppend([ListStartPart], rest);
    ConcatOne(ListStartPart);
    SectionAt(DuplicatesHeading, dups, items, seen);
    HeadingsDiffer(EmailReport(dups, items, seen), SectionStart(items, dups));
  }

}
