/** The entry parser: each list item of the page-list navigation element
    becomes one page-list entry. A list item is given by its first link's
    `href` attribute and text content, each already defaulted to "" when
    missing. */
module EntryParser {
  import opened Builtins

  /** One list item: the `href` and the text of its first link. */
  datatype Link = Link(href: string, text: string)

  /** Where an entry points. `Plain` entries carry neither `cfi` nor
      `packageUrl`; a link whose href mentions "epubcfi" carries the text
      before the first '#' as `packageUrl`, and the text after it as `cfi`,
      which is `false` (here `None`) when the href has no '#'. */
  datatype Target = Plain | CfiLink(packageUrl: string, cfi: Option<string>)

  datatype Entry = Entry(href: string, page: int, pageLabel: string, target: Target)

  const CfiMarker: string := "epubcfi"

  /** `item.cfi` is truthy. The falsy values it can take are `undefined`
      (a plain entry), `false` (no '#' in the href) and the empty string. */
  function HasLocation(e: Entry): (b: bool)
    ensures b <==> !(e.target.Plain? || e.target.cfi == None || e.target.cfi == Some(""))
  {
    e.target.CfiLink? && e.target.cfi.Some? && e.target.cfi.value != ""
  }

  /** The page-list entry built from the `i`-th list item (counting from 0). */
  function Item(link: Link, i: nat): (e: Entry)
    ensures e.page == i + 1 && e.pageLabel == link.text && e.href == link.href
  {
    if IndexOf(link.href, CfiMarker) != -1 then
      var split := Split(link.href, '#');
      var cfi := if |split| > 1 then Some(split[1]) else None;
      Entry(link.href, i + 1, link.text, CfiLink(split[0], cfi))
    else
      Entry(link.href, i + 1, link.text, Plain)
  }

  /** An entry is a CFI link exactly when its href contains "epubcfi"
      anywhere; its `packageUrl` is then the text before the first '#', and
      its `cfi` is absent exactly when there is no '#' and otherwise is the
      text between the first and the second '#'. */
  lemma ItemTarget(link: Link, i: nat)
    ensures var e := Item(link, i);
      && (e.target.CfiLink? <==> Contains(link.href, CfiMarker))
      && (e.target.CfiLink? ==>
            && IsFirstPiece(link.href, '#', e.target.packageUrl)
            && (e.target.cfi.None? <==> '#' !in link.href)
            && (e.target.cfi.Some? ==>
                  IsFirstPiece(link.href[|e.target.packageUrl| + 1..], '#', e.target.cfi.value)))
  {
    SplitPieces(link.href, '#');
  }

  /** The entries of a whole page list, one per list item, in document
      order: entry `k` is page `k + 1` (a position, not the label) and is
      labelled with the text of list item `k`. */
  function Entries(links: seq<Link>): (es: seq<Entry>)
    ensures |es| == |links|
    ensures forall k :: 0 <= k < |es| ==> es[k].page == k + 1 && es[k].pageLabel == links[k].text
    ensures forall k :: 0 <= k < |es| ==> es[k] == Item(links[k], k)
  {
    seq(|links|, k requires 0 <= k < |links| => Item(links[k], k))
  }

  /** `parseNav`: one entry per list item, pushed in order. */
  method ParseNav(items: seq<Link>) returns (list: seq<Entry>)
    ensures list == Entries(items)
  {
    list := [];
    if |items| == 0 {
      return;
    }
    var i := 0;
    while i < |items|
      invariant 0 <= i <= |items|
      invariant |list| == i
      invariant forall k :: 0 <= k < i ==> list[k] == Item(items[k], k)
    {
      var item := Item(items[i], i);
      list := list + [item];
      i := i + 1;
    }
  }
}
