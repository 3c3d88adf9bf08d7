/** A worked page list: three list items, the first two pointing into
    chapter 1 by CFI and the third pointing at chapter 2 without one. It
    shows the built index, and what the lookups make of it: a reading
    position in chapter 2 resolves to the last page that has a location
    (page 2), and page 3 has no location at all. A second list shows the
    positional drift between `pages` and `locations`. The paths and CFIs
    are parameters (such as "chap1.xhtml" and "epubcfi(/6/2!/4)"), constrained
    only as far as the example needs. */
module Scenarios {
  import opened Builtins
  import opened SortedSearch
  import opened EntryParser
  import opened Index
  import opened Lookup

  /** A fragment that is a CFI: it starts with "epubcfi" and has no '#'. */
  ghost predicate CfiFragment(c: string) {
    '#' !in c && |c| >= |CfiMarker| && c[..|CfiMarker|] == CfiMarker
  }

  /** A non-empty document path that does not mention "epubcfi" and has no
      '#'. */
  ghost predicate PlainPath(d: string) {
    d != "" && '#' !in d && !Contains(d, CfiMarker)
  }

  /** A link `doc#cfi` is a CFI link into `doc` with `cfi` as its CFI. */
  lemma CfiHrefItem(doc: string, cfi: string, text: string, i: nat)
    requires '#' !in doc && CfiFragment(cfi)
    ensures Split(doc + "#" + cfi, '#') == [doc, cfi]
    ensures Item(Link(doc + "#" + cfi, text), i) == Entry(doc + "#" + cfi, i + 1, text, CfiLink(doc, Some(cfi)))
  {
    var href := doc + "#" + cfi;
    var rest := cfi[|CfiMarker|..];
    assert cfi == CfiMarker + rest;
    assert href == (doc + "#") + CfiMarker + rest;
    OccurrenceWitness(doc + "#", CfiMarker, rest);
    assert Join([doc, cfi], '#') == href by {
      assert [doc, cfi][1..] == [cfi];
    }
    SplitJoin([doc, cfi], '#');
  }

  /** A link to a plain path is a plain entry, whose href is its own first
      piece. */
  lemma PlainHrefItem(href: string, text: string, i: nat)
    requires PlainPath(href)
    ensures Split(href, '#') == [href]
    ensures Item(Link(href, text), i) == Entry(href, i + 1, text, Plain)
  {
    SplitJoin([href], '#');
  }

  /** `doc1#cfi1` labelled "i", `doc1#cfi2` labelled "1", and `doc2`
      labelled "2". */
  function Sample(doc1: string, doc2: string, cfi1: string, cfi2: string): seq<Link> {
    [Link(doc1 + "#" + cfi1, "i"), Link(doc1 + "#" + cfi2, "1"), Link(doc2, "2")]
  }

  /** The entries of the sample list. */
  lemma SampleEntries(doc1: string, doc2: string, cfi1: string, cfi2: string)
    requires '#' !in doc1 && PlainPath(doc2) && CfiFragment(cfi1) && CfiFragment(cfi2)
    ensures Entries(Sample(doc1, doc2, cfi1, cfi2))
         == [Entry(doc1 + "#" + cfi1, 1, "i", CfiLink(doc1, Some(cfi1))),
             Entry(doc1 + "#" + cfi2, 2, "1", CfiLink(doc1, Some(cfi2))),
             Entry(doc2, 3, "2", Plain)]
  {
    CfiHrefItem(doc1, cfi1, "i", 0);
    CfiHrefItem(doc1, cfi2, "1", 1);
    PlainHrefItem(doc2, "2", 2);
  }

  /** The arrays of the sample list: three pages, but only two
      locations. */
  lemma SampleArrays(doc1: string, doc2: string, cfi1: string, cfi2: string)
    requires '#' !in doc1 && PlainPath(doc2) && CfiFragment(cfi1) && CfiFragment(cfi2)
    ensures var es := Entries(Sample(doc1, doc2, cfi1, cfi2));
            PagesOf(es) == [1, 2, 3] && LocationsOf(es) == [cfi1, cfi2]
  {
    SampleEntries(doc1, doc2, cfi1, cfi2);
    var es := Entries(Sample(doc1, doc2, cfi1, cfi2));
    assert HasLocation(es[0]) && HasLocation(es[1]) && !HasLocation(es[2]);
    assert Init(es) == es[..2] && Init(es[..2]) == es[..1] && Init(es[..1]) == [];
    assert LocationsOf(es[..1]) == [cfi1];
    assert LocationsOf(es[..2]) == [cfi1, cfi2];
  }

  /** Three entries, the first two resolving to one key and the third to
      another, are grouped under those two keys only. */
  lemma GroupOfThree(es: seq<Entry>, absolute: string -> string, key1: string, key2: string)
    requires |es| == 3 && key1 != key2
    requires forall k :: 0 <= k < 3 ==> es[k].href != ""
    requires GroupKey(es[0], absolute) == key1 && GroupKey(es[1], absolute) == key1
    requires GroupKey(es[2], absolute) == key2
    ensures var groups := Group(map[], es, absolute);
            && groups.Keys == {key1, key2}
            && groups[key1] == [es[0].page, es[1].page]
            && groups[key2] == [es[2].page]
  {
    var t1 := es[1..];
    var t2 := t1[1..];
    assert t1[0] == es[1] && t2[0] == es[2] && t2[1..] == [];
    assert PagesUnder(t2, absolute, key1) == [];
    assert PagesUnder(t1, absolute, key1) == [es[1].page];
    assert PagesUnder(es, absolute, key1) == [es[0].page, es[1].page];
    assert PagesUnder(t2, absolute, key2) == [es[2].page];
    assert PagesUnder(t1, absolute, key2) == [es[2].page];
    assert PagesUnder(es, absolute, key2) == [es[2].page];
    var groups := Group(map[], es, absolute);
    GroupAt(map[], es, absolute, key1);
    GroupAt(map[], es, absolute, key2);
    forall key
      ensures key in groups <==> key == key1 || key == key2
    {
      GroupKeys(map[], es, absolute, key);
      PagesUnderNonEmpty(es, absolute, key);
    }
  }

  /** The pages of the sample list grouped by chapter: chapter 1 holds
      pages 1 and 2, chapter 2 page 3, and there is no other key. */
  lemma SampleGroups(doc1: string, doc2: string, cfi1: string, cfi2: string, absolute: string -> string)
    requires '#' !in doc1 && PlainPath(doc2) && CfiFragment(cfi1) && CfiFragment(cfi2)
    requires absolute(doc1) != absolute(doc2)
    ensures var groups := Group(map[], Entries(Sample(doc1, doc2, cfi1, cfi2)), absolute);
            && groups.Keys == {absolute(doc1), absolute(doc2)}
            && groups[absolute(doc1)] == [1, 2]
            && groups[absolute(doc2)] == [3]
  {
    SampleEntries(doc1, doc2, cfi1, cfi2);
    CfiHrefItem(doc1, cfi1, "i", 0);
    CfiHrefItem(doc1, cfi2, "1", 1);
    PlainHrefItem(doc2, "2", 2);
    var es := Entries(Sample(doc1, doc2, cfi1, cfi2));
    GroupOfThree(es, absolute, absolute(doc1), absolute(doc2));
  }

  /** The searches by CFI on the sample list. Reading positions are ordered
      as the book is: `before` precedes the first location and `after` (say,
      in chapter 2) follows the second, and still resolves to page 2. */
  lemma SampleCfiLookups(doc1: string, doc2: string, cfi1: string, cfi2: string,
                         lt: (string, string) -> bool, before: string, after: string)
    requires '#' !in doc1 && PlainPath(doc2) && CfiFragment(cfi1) && CfiFragment(cfi2)
    requires StrictTotalOrder(lt) && lt(before, cfi1) && lt(cfi1, cfi2) && lt(cfi2, after)
    ensures var es := Entries(Sample(doc1, doc2, cfi1, cfi2));
            var pages := PagesOf(es);
            var locations := LocationsOf(es);
            && Sorted(locations, lt)
            && PageFromCfi(pages, locations, lt, cfi2) == 2
            && PageFromCfi(pages, locations, lt, before) == 1
            && PageFromCfi(pages, locations, lt, after) == 2
            && PagesFromLocation(pages, locations, lt, Range(before, after)) == [1, 2]
            && ItemFromCfi(Some(es), pages, locations, lt, after) == Returned(Some(es[1]))
  {
    SampleArrays(doc1, doc2, cfi1, cfi2);
    var es := Entries(Sample(doc1, doc2, cfi1, cfi2));
    var pages := PagesOf(es);
    var locations := LocationsOf(es);
    assert !lt(cfi2, cfi1);
    assert Sorted(locations, lt);
    assert Distinct(locations);
    PageFromCfiExact(pages, locations, lt, 1);
    PageFromCfiBeforeFirst(pages, locations, lt, before);
    PageFromCfiPreceding(pages, locations, lt, after, 1);
  }

  /** The searches by page and by label on the sample list: page 3 is in
      `pages` but has no location, page 4 is not a page at all. */
  lemma SamplePageLookups(doc1: string, doc2: string, cfi1: string, cfi2: string)
    requires '#' !in doc1 && PlainPath(doc2) && CfiFragment(cfi1) && CfiFragment(cfi2)
    ensures var es := Entries(Sample(doc1, doc2, cfi1, cfi2));
            var pages := PagesOf(es);
            var locations := LocationsOf(es);
            && CfiFromPage(pages, locations, 1) == Location(cfi1)
            && CfiFromPage(pages, locations, 3) == Undefined
            && CfiFromPage(pages, locations, 4) == NoPage
            && CfiFromPageLabel(Some(es), pages, locations, "1") == Returned(Location(cfi2))
  {
    SampleArrays(doc1, doc2, cfi1, cfi2);
    var links := Sample(doc1, doc2, cfi1, cfi2);
    var pages := PagesOf(Entries(links));
    assert 3 !in pages[..2];
    assert 4 !in pages;
    CfiFromPageLabelParsed(links, 1);
  }

  /** A list whose first item has no CFI: `locations` is one shorter than
      `pages`, so page 1 is answered with the CFI of page 2 and page 2 with
      `undefined`. */
  lemma ShiftedLocations(doc: string, cfi: string)
    requires PlainPath(doc) && CfiFragment(cfi)
    ensures var es := Entries([Link(doc, "1"), Link(doc + "#" + cfi, "2")]);
            var pages := PagesOf(es);
            var locations := LocationsOf(es);
            && pages == [1, 2]
            && locations == [cfi]
            && CfiFromPage(pages, locations, 1) == Location(cfi)
            && CfiFromPage(pages, locations, 2) == Undefined
  {
    PlainHrefItem(doc, "1", 0);
    CfiHrefItem(doc, cfi, "2", 1);
    var es := Entries([Link(doc, "1"), Link(doc + "#" + cfi, "2")]);
    assert Init(es) == es[..1] && Init(es[..1]) == [];
    assert 2 !in PagesOf(es)[..1];
  }
}
