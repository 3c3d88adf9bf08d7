/** The `PageList` object: built once, by its constructor, from the list
    items of a navigation document, and read by the lookups afterwards. */
module PageLists {
  import opened Builtins
  import opened EntryParser
  import opened Index
  import opened SortedSearch
  import Lookup

  class PageList {
    var pages: seq<int>
    var locations: seq<string>
    var firstPage: int
    var lastPage: int
    var totalPages: int
    var pagesByAbsolutePath: map<string, seq<int>>
    /** The parsed entries; absent when there was no navigation document or
        it was not an HTML navigation document. */
    var pageList: Option<seq<Entry>>
    /** `canonical(path.resolve(href))`: the canonical absolute path of a
        content document. */
    const absolute: string -> string
    /** The CFI order (`EpubCFI.compare`): `less(a, b)` when `a` sorts
        before `b`. */
    const less: (string, string) -> bool

    /** The entries, or none when the list is absent. */
    ghost function Parsed(): seq<Entry>
      reads this
    {
      if pageList.Some? then pageList.value else []
    }

    /** The built index agrees with the parsed entries. */
    ghost predicate Valid()
      reads this
    {
      && pages == PagesOf(Parsed())
      && locations == LocationsOf(Parsed())
      && |locations| <= |pages|
      && pagesByAbsolutePath == Group(map[], Parsed(), absolute)
      && (pages == [] ==> firstPage == 0 && lastPage == 0 && totalPages == 0)
      && (pages != [] ==> firstPage == pages[0] && lastPage == pages[|pages| - 1])
      && totalPages == lastPage - firstPage
    }

    /** `nav` holds the list items of the page-list navigation element when
        the document is an HTML navigation document (no items when it has no
        such element), and is absent when there is no document or it is an
        NCX document. An absent or empty list leaves every field at its
        empty default. */
    constructor (nav: Option<seq<Link>>, absolute: string -> string, less: (string, string) -> bool)
      ensures this.absolute == absolute && this.less == less
      ensures pageList == if nav.Some? then Some(Entries(nav.value)) else None
      ensures Valid()
      ensures Parsed() == [] ==> pages == [] && locations == [] && pagesByAbsolutePath == map[]
      ensures Parsed() != [] ==> firstPage == 1 && lastPage == |Parsed()| && totalPages == |Parsed()| - 1
    {
      this.absolute := absolute;
      this.less := less;
      pages := [];
      locations := [];
      firstPage := 0;
      lastPage := 0;
      totalPages := 0;
      pagesByAbsolutePath := map[];
      pageList := None;
      new;
      if nav.Some? {
        var list := ParseNav(nav.value);
        pageList := Some(list);
        if |list| > 0 {
          ParsedEnds(nav.value);
          Process(list);
          assert [] + PagesOf(list) == PagesOf(list);
          assert [] + LocationsOf(list) == LocationsOf(list);
        }
      }
    }

    /** `pageFromCfi` on the built index, in the CFI order `less`: -1 when
        no entry has a location, otherwise the page at the position of one
        of the locations (the position of `cfi` itself when it is one). */
    function PageFromCfi(cfi: string): (pg: int)
      reads this
      requires Valid() && StrictTotalOrder(less) && Sorted(locations, less)
      ensures locations == [] ==> pg == -1
      ensures locations != [] ==> exists j :: 0 <= j < |locations| && pg == pages[j]
      ensures cfi in locations ==> exists k :: 0 <= k < |locations| && locations[k] == cfi && pg == pages[k]
    {
      if locations == [] then -1
      else
        Lookup.PageFromCfiIsMarkerPage(pages, locations, less, cfi);
        Lookup.PageFromCfi(pages, locations, less, cfi)
    }

    /** `process`: one pass over the entries that appends every page to
        `pages`, every non-empty CFI to `locations` and every page with a
        non-empty href under its document's key, then takes the first and
        last page from the ends of `pages` (not their minimum and maximum,
        so `totalPages` is negative when the pages run backwards). */
    method Process(list: seq<Entry>)
      requires |list| > 0
      modifies this
      ensures pages == old(pages) + PagesOf(list)
      ensures locations == old(locations) + LocationsOf(list)
      ensures pagesByAbsolutePath == Group(old(pagesByAbsolutePath), list, absolute)
      ensures firstPage == pages[0] && lastPage == pages[|pages| - 1]
      ensures totalPages == lastPage - firstPage
      ensures pageList == old(pageList)
    {
      ghost var pages0, locations0, groups0 := pages, locations, pagesByAbsolutePath;
      var i := 0;
      while i < |list|
        invariant 0 <= i <= |list|
        invariant pages == pages0 + PagesOf(list[..i])
        invariant locations == locations0 + LocationsOf(list[..i])
        invariant pagesByAbsolutePath == Group(groups0, list[..i], absolute)
        invariant pageList == old(pageList)
      {
        BuildStep(groups0, list, i, absolute);
        Add(list[i]);
        i := i + 1;
      }
      assert list[..|list|] == list;
      firstPage := pages[0];
      lastPage := pages[|pages| - 1];
      totalPages := lastPage - firstPage;
    }

    /** The body of the loop in `process`, for one entry. */
    method Add(item: Entry)
      modifies this
      ensures pages == old(pages) + [item.page]
      ensures locations == old(locations) + if HasLocation(item) then [CfiOf(item)] else []
      ensures pagesByAbsolutePath == AddToGroup(old(pagesByAbsolutePath), item, absolute)
      ensures firstPage == old(firstPage) && lastPage == old(lastPage) && totalPages == old(totalPages)
      ensures pageList == old(pageList)
    {
      pages := pages + [item.page];
      if HasLocation(item) {
        locations := locations + [item.target.cfi.value];
      }
      if item.href != "" {
        var href := Split(item.href, '#')[0];
        var path := absolute(href);
        if path !in pagesByAbsolutePath {
          pagesByAbsolutePath := pagesByAbsolutePath[path := []];
        }
        pagesByAbsolutePath := pagesByAbsolutePath[path := pagesByAbsolutePath[path] + [item.page]];
      }
    }
  }
}
