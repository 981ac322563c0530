/**
  The values the monitor works on: a raw feed entry as the feed parser hands
  it over, and an article tagged with the feed it came from.
 */
module Items {

  /** One entry of a parsed feed: its title and its link. */
  datatype Entry = Entry(title: string, link: string)

  /** An article as the monitor keeps it: title, link and the URL of the feed it came from. */
  datatype Item = Item(title: string, link: string, source: string)

  /** The last element of a non-empty sequence. */
  function Last<T>(s: seq<T>): T
    requires s != []
  {
    s[|s| - 1]
  }

  /** Everything but the last element of a non-empty sequence. */
  function AllButLast<T>(s: seq<T>): seq<T>
    requires s != []
  {
    s[..|s| - 1]
  }

  lemma SnocParts<T>(s: seq<T>, x: T)
    ensures s + [x] != [] && AllButLast(s + [x]) == s && Last(s + [x]) == x
  {
    assert (s + [x])[..|s|] == s;
  }

  lemma SnocSplit<T>(s: seq<T>)
    requires s != []
    ensures s == AllButLast(s) + [Last(s)]
  {
  }

  lemma AppendSnocSplit<T>(a: seq<T>, b: seq<T>)
    requires b != []
    ensures a + b == (a + AllButLast(b)) + [Last(b)]
  {
    SnocSplit(b);
  }
}
