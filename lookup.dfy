/** The lookups over a built page list. They only read `pages`,
    `locations` and the parsed entries (`pageList`, absent when no
    navigation document was parsed), so each is a function of them; none
    changes the index. `lt` is the CFI order, and the searches by CFI rely
    on `locations` being sorted in it. */
module Lookup {
  import opened Builtins
  import opened SortedSearch
  import opened EntryParser
  import opened Index

  /** What `cfiFromPage` returns: -1 when the page is not in `pages`, the
      location at the page's position, or `undefined` when that position
      is past the end of `locations`. */
  datatype CfiAnswer = NoPage | Location(cfi: string) | Undefined

  /** What `pageLabel` returns: a label, or -1 when there is no entry at
      the position. */
  datatype LabelAnswer = Label(text: string) | NoEntry

  /** A reading position range, by the CFIs of its two ends. */
  datatype Range = Range(startCfi: string, endCfi: string)

  // ---------------------------------------------------------------------
  // pageFromCfi

  /** `pageFromCfi`: -1 for an empty index; the page at the position of an
      equal location; otherwise the page of the nearest preceding location,
      or of the first one when the CFI sorts before every location. */
  function PageFromCfi(pages: seq<int>, locations: seq<string>, lt: (string, string) -> bool, cfi: string): (pg: int)
    requires StrictTotalOrder(lt) && Sorted(locations, lt) && |locations| <= |pages|
    ensures |locations| == 0 ==> pg == -1
    ensures cfi in locations ==>
              exists k :: 0 <= k < |locations| && locations[k] == cfi && pg == pages[k]
    ensures |locations| > 0 && cfi !in locations ==>
              forall p :: IsInsertionPoint(locations, cfi, lt, p) ==> pg == pages[if p > 0 then p - 1 else 0]
  {
    if |locations| == 0 then -1
    else
      var index := IndexOfSorted(cfi, locations, lt);
      if index != -1 then pages[index]
      else
        var at := LocationOf(cfi, locations, lt);
        assert forall p :: IsInsertionPoint(locations, cfi, lt, p) ==> p == at by {
          forall p | IsInsertionPoint(locations, cfi, lt, p)
            ensures p == at
          {
            InsertionPointUnique(locations, cfi, lt, p, at);
          }
        }
        var j := if at - 1 >= 0 then at - 1 else 0;
        if j < |pages| then pages[j] else -1
  }

  /** A CFI equal to a location of an index without duplicate locations
      gives the page at that location's position. */
  lemma PageFromCfiExact(pages: seq<int>, locations: seq<string>, lt: (string, string) -> bool, k: nat)
    requires StrictTotalOrder(lt) && Sorted(locations, lt) && Distinct(locations) && |locations| <= |pages|
    requires k < |locations|
    ensures PageFromCfi(pages, locations, lt, locations[k]) == pages[k]
  {
  }

  /** A CFI that sorts after location `k` and before location `k + 1` (or
      after the last location) gives the page of location `k`: the page the
      reader has reached, never the next one. */
  lemma PageFromCfiPreceding(pages: seq<int>, locations: seq<string>, lt: (string, string) -> bool, cfi: string, k: nat)
    requires StrictTotalOrder(lt) && Sorted(locations, lt) && |locations| <= |pages|
    requires k < |locations| && lt(locations[k], cfi)
    requires k + 1 == |locations| || lt(cfi, locations[k + 1])
    ensures PageFromCfi(pages, locations, lt, cfi) == pages[k]
  {
    forall i | 0 <= i <= k
      ensures lt(locations[i], cfi)
    {
      assert locations[i] == locations[k] || lt(locations[i], locations[k]);
    }
    forall i | k < i < |locations|
      ensures !lt(locations[i], cfi) && locations[i] != cfi
    {
      assert locations[i] == locations[k + 1] || lt(locations[k + 1], locations[i]);
    }
    assert IsInsertionPoint(locations, cfi, lt, k + 1);
  }

  /** A CFI that sorts before every location gives the first page. */
  lemma PageFromCfiBeforeFirst(pages: seq<int>, locations: seq<string>, lt: (string, string) -> bool, cfi: string)
    requires StrictTotalOrder(lt) && Sorted(locations, lt) && |locations| <= |pages|
    requires |locations| > 0 && lt(cfi, locations[0])
    ensures PageFromCfi(pages, locations, lt, cfi) == pages[0]
  {
    forall i | 0 <= i < |locations|
      ensures !lt(locations[i], cfi) && locations[i] != cfi
    {
      assert locations[i] == locations[0] || lt(locations[0], locations[i]);
    }
    assert IsInsertionPoint(locations, cfi, lt, 0);
  }

  /** On a non-empty index every CFI resolves to `pages[j]` for a position
      `j` that has a location. That is the page of the entry whose CFI is
      location `j` only while the two arrays line up; and the result is -1
      only when an empty index or a page -1 itself gives it. */
  lemma PageFromCfiIsMarkerPage(pages: seq<int>, locations: seq<string>, lt: (string, string) -> bool, cfi: string)
    requires StrictTotalOrder(lt) && Sorted(locations, lt) && |locations| <= |pages|
    requires |locations| > 0
    ensures exists j :: 0 <= j < |locations| && PageFromCfi(pages, locations, lt, cfi) == pages[j]
  {
    var pg := PageFromCfi(pages, locations, lt, cfi);
    if cfi in locations {
      var k :| 0 <= k < |locations| && locations[k] == cfi && pg == pages[k];
      assert pg == pages[k];
    } else {
      var at := LocationOf(cfi, locations, lt);
      var j := if at > 0 then at - 1 else 0;
      assert pg == pages[j];
    }
  }

  // ---------------------------------------------------------------------
  // pagesFromLocation

  /** `pagesFromLocation`: no pages for an empty index or an unresolved
      start; otherwise the start page, followed by the end page when it is
      a different page. */
  function PagesFromLocation(pages: seq<int>, locations: seq<string>, lt: (string, string) -> bool, range: Range): (pgs: seq<int>)
    requires StrictTotalOrder(lt) && Sorted(locations, lt) && |locations| <= |pages|
    ensures |pgs| <= 2
    ensures |locations| == 0 ==> pgs == []
    ensures var start := PageFromCfi(pages, locations, lt, range.startCfi);
            var end := PageFromCfi(pages, locations, lt, range.endCfi);
            && (pgs == [] <==> start == -1)
            && (pgs != [] ==> pgs[0] == start)
            && (|pgs| == 2 <==> start != -1 && end != start)
            && (|pgs| == 2 ==> pgs[1] == end)
  {
    if |locations| == 0 then []
    else
      var pg := PageFromCfi(pages, locations, lt, range.startCfi);
      if pg == -1 then []
      else
        var pgs := [pg];
        var pgEnd := PageFromCfi(pages, locations, lt, range.endCfi);
        if pgEnd != pgs[0] then pgs + [pgEnd] else pgs
  }

  /** A range that starts and ends at the same CFI covers exactly one page
      of a non-empty index whose pages are not the -1 sentinel. */
  lemma PagesFromLocationZeroWidth(pages: seq<int>, locations: seq<string>, lt: (string, string) -> bool, cfi: string)
    requires StrictTotalOrder(lt) && Sorted(locations, lt) && |locations| <= |pages|
    requires |locations| > 0 && -1 !in pages
    ensures PagesFromLocation(pages, locations, lt, Range(cfi, cfi)) == [PageFromCfi(pages, locations, lt, cfi)]
  {
    PageFromCfiIsMarkerPage(pages, locations, lt, cfi);
  }

  // ---------------------------------------------------------------------
  // cfiFromPage and cfiFromPageLabel

  /** `cfiFromPage`: a linear search for the first position of `pg` in
      `pages` (which need not be sorted), answered with the location at that
      same position. */
  function CfiFromPage(pages: seq<int>, locations: seq<string>, pg: int): (r: CfiAnswer)
    ensures r == NoPage <==> pg !in pages
    ensures forall k :: 0 <= k < |pages| && pages[k] == pg && pg !in pages[..k] ==>
              r == if k < |locations| then Location(locations[k]) else Undefined
  {
    var index := FirstIndex(pages, pg);
    if index != -1 then
      if index < |locations| then Location(locations[index]) else Undefined
    else NoPage
  }

  /** Round trip: on an index without duplicate locations, the location `cfiFromPage`
      gives for a page leads `pageFromCfi` back to that page. */
  lemma CfiFromPageRoundTrip(pages: seq<int>, locations: seq<string>, lt: (string, string) -> bool, pg: int)
    requires StrictTotalOrder(lt) && Sorted(locations, lt) && Distinct(locations) && |locations| <= |pages|
    requires CfiFromPage(pages, locations, pg).Location?
    ensures PageFromCfi(pages, locations, lt, CfiFromPage(pages, locations, pg).cfi) == pg
  {
    var k := FirstIndex(pages, pg);
    PageFromCfiExact(pages, locations, lt, k);
  }

  /** `Array.prototype.find` over the entries by label: the first entry
      whose label equals `wanted`, if any. */
  function FindByLabel(entries: seq<Entry>, wanted: string): (r: Option<nat>)
    ensures r.None? <==> forall k :: 0 <= k < |entries| ==> entries[k].pageLabel != wanted
    ensures r.Some? ==>
              && r.value < |entries|
              && entries[r.value].pageLabel == wanted
              && forall k :: 0 <= k < r.value ==> entries[k].pageLabel != wanted
  {
    if |entries| == 0 then None
    else if entries[0].pageLabel == wanted then Some(0)
    else
      match FindByLabel(entries[1..], wanted)
      case None => None
      case Some(k) => Some(k + 1)
  }

  /** `cfiFromPageLabel`: `cfiFromPage` on the page of the first entry with
      the label `wanted`, -1 when there is none; reading the entries of an absent
      list throws. */
  function CfiFromPageLabel(pageList: Option<seq<Entry>>, pages: seq<int>, locations: seq<string>, wanted: string): (r: Outcome<CfiAnswer>)
    ensures r.TypeError? <==> pageList.None?
    ensures pageList.Some? ==>
              var entries := pageList.value;
              && ((forall k :: 0 <= k < |entries| ==> entries[k].pageLabel != wanted) ==> r == Returned(NoPage))
              && (forall k | 0 <= k < |entries| && entries[k].pageLabel == wanted
                             && (forall j :: 0 <= j < k ==> entries[j].pageLabel != wanted) ::
                    r == Returned(CfiFromPage(pages, locations, entries[k].page)))
  {
    if pageList.None? then TypeError
    else
      match FindByLabel(pageList.value, wanted)
      case Some(k) => Returned(CfiFromPage(pages, locations, pageList.value[k].page))
      case None => Returned(NoPage)
  }

  /** On a parsed list, the CFI found for entry `k`'s page is location `k`,
      which is entry `k`'s own CFI if every entry has one; past the end of
      `locations` it is `undefined`. */
  lemma CfiFromPageParsed(links: seq<Link>, k: nat)
    requires k < |links|
    ensures var entries := Entries(links);
            var locations := LocationsOf(entries);
            var r := CfiFromPage(PagesOf(entries), locations, k + 1);
            && (k < |locations| ==> r == Location(locations[k]))
            && (k >= |locations| ==> r == Undefined)
            && ((forall j :: 0 <= j < |entries| ==> HasLocation(entries[j])) ==> r == Location(CfiOf(entries[k])))
  {
    var entries := Entries(links);
    var pages := PagesOf(entries);
    assert pages[k] == k + 1;
    assert k + 1 !in pages[..k];
    LocationsAligned(entries);
  }

  /** On a parsed list, looking up entry `k`'s label, when no earlier entry
      has the same label, gives the CFI of entry `k`'s page. */
  lemma CfiFromPageLabelParsed(links: seq<Link>, k: nat)
    requires k < |links|
    requires forall j :: 0 <= j < k ==> links[j].text != links[k].text
    ensures var entries := Entries(links);
            var pages := PagesOf(entries);
            var locations := LocationsOf(entries);
            CfiFromPageLabel(Some(entries), pages, locations, links[k].text)
              == Returned(CfiFromPage(pages, locations, k + 1))
  {
    var entries := Entries(links);
    assert entries[k].pageLabel == links[k].text && entries[k].page == k + 1;
  }

  // ---------------------------------------------------------------------
  // pageLabel and itemFromCfi

  /** `pageLabel`: the label of the entry at position `n` of the list (a
      position, not a page number), `#` and the decimal digits of `n` (no
      leading zero) when that label is empty, -1 when no entry is there;
      reading the entries of an absent list throws. */
  function PageLabel(pageList: Option<seq<Entry>>, n: int): (r: Outcome<LabelAnswer>)
    ensures r.TypeError? <==> pageList.None?
    ensures pageList.Some? && !(0 <= n < |pageList.value|) ==> r == Returned(NoEntry)
    ensures pageList.Some? && 0 <= n < |pageList.value| ==>
              r.value.Label? && |r.value.text| > 0 &&
              (pageList.value[n].pageLabel != "" ==> r.value.text == pageList.value[n].pageLabel) &&
              (pageList.value[n].pageLabel == "" ==>
                 && |r.value.text| >= 2 && r.value.text[0] == '#'
                 && (forall i :: 1 <= i < |r.value.text| ==> '0' <= r.value.text[i] <= '9')
                 && (|r.value.text| > 2 ==> r.value.text[1] != '0')
                 && DecimalValue(r.value.text[1..]) == n)
  {
    if pageList.None? then TypeError
    else if 0 <= n < |pageList.value| then
      var item := pageList.value[n];
      var text := if item.pageLabel != "" then item.pageLabel else "#" + Decimal(n);
      DecimalRoundTrip(n);
      assert ("#" + Decimal(n))[1..] == Decimal(n);
      Returned(Label(text))
    else Returned(NoEntry)
  }

  /** On a parsed list, `pageLabel(n)` is the label of page `n + 1`: the
      argument is one less than the page number. */
  lemma PageLabelParsed(links: seq<Link>, n: nat)
    requires n < |links| && links[n].text != ""
    ensures var entries := Entries(links);
            PageLabel(Some(entries), n) == Returned(Label(entries[n].pageLabel)) && entries[n].page == n + 1
  {
  }

  /** `itemFromCfi`: the entry at position `pageFromCfi(cfi) - 1` of the
      list (a position derived from a page number), absent when there is
      none there; reading the entries of an absent list throws. When the
      pages are the positions plus one, as in a parsed list, and the index
      is not empty, the item found is always there and is the entry of the
      page `pageFromCfi` finds. */
  function ItemFromCfi(pageList: Option<seq<Entry>>, pages: seq<int>, locations: seq<string>, lt: (string, string) -> bool, cfi: string): (r: Outcome<Option<Entry>>)
    requires StrictTotalOrder(lt) && Sorted(locations, lt) && |locations| <= |pages|
    ensures r.TypeError? <==> pageList.None?
    ensures pageList.Some? ==>
              var pg := PageFromCfi(pages, locations, lt, cfi);
              && (r.value.Some? <==> 1 <= pg <= |pageList.value|)
              && (r.value.Some? ==> r.value.value in pageList.value)
    ensures pageList.Some? && |locations| == 0 ==> r == Returned(None)
    ensures pageList.Some? && pages == PagesOf(pageList.value) && |locations| > 0
            && (forall k :: 0 <= k < |pageList.value| ==> pageList.value[k].page == k + 1) ==>
              r.value.Some? && r.value.value.page == PageFromCfi(pages, locations, lt, cfi)
  {
    if pageList.None? then TypeError
    else
      var pg := PageFromCfi(pages, locations, lt, cfi);
      var list := pageList.value;
      assert |locations| > 0 ==> exists j :: 0 <= j < |locations| && pg == pages[j] by {
        if |locations| > 0 {
          PageFromCfiIsMarkerPage(pages, locations, lt, cfi);
        }
      }
      Returned(if 0 <= pg - 1 < |list| then Some(list[pg - 1]) else None)
  }

  /** On a parsed list, whose pages are its positions plus one, the item
      found for a CFI is the entry of the page `pageFromCfi` finds; an empty
      index finds no item. */
  lemma ItemFromCfiParsed(links: seq<Link>, lt: (string, string) -> bool, cfi: string)
    requires var entries := Entries(links);
             StrictTotalOrder(lt) && Sorted(LocationsOf(entries), lt)
    ensures var entries := Entries(links);
            var pages := PagesOf(entries);
            var locations := LocationsOf(entries);
            var r := ItemFromCfi(Some(entries), pages, locations, lt, cfi);
            && (locations == [] ==> r == Returned(None))
            && (locations != [] ==> r.value.Some? && r.value.value.page == PageFromCfi(pages, locations, lt, cfi))
  {
    var entries := Entries(links);
    var pages := PagesOf(entries);
    var locations := LocationsOf(entries);
    if locations != [] {
      PageFromCfiIsMarkerPage(pages, locations, lt, cfi);
    }
  }
}
