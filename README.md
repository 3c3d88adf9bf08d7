# PageList: a verified model of the epub.js page-list index

epub.js reads the `page-list` navigation element of an EPUB navigation
document. That element lists the print-page markers of a book. From it,
epub.js builds a `PageList` index that maps between three things: reading
positions (EPUB CFI strings), page numbers and page labels. This project
models that index in Dafny in three parts, as the JavaScript does.

- **Entry parser** (`entry_parser.dfy`, module `EntryParser`). Each list
  item becomes an entry.
  - List item `i` (counting from 0) gets page `i + 1`. Its label is the
    link text.
  - A link whose href contains `epubcfi` anywhere becomes a CFI link. Its
    `packageUrl` is the text before the first `#`. Its `cfi` is the text
    between the first and second `#`, or absent when there is no `#`.
  - `ParseNav` is the loop that pushes one entry per item.
- **Index builder** (`index.dfy`, module `Index`, and `page_list.dfy`,
  class `PageLists.PageList`).
  - The constructor starts every field at its empty default. It then runs
    `process` when the parsed list is non-empty.
  - `process` is one loop (`Process`, whose body is `Add`). It appends
    every page to `pages`, and every non-empty CFI to `locations`.
  - It also appends every page whose entry has a non-empty href to
    `pagesByAbsolutePath`, under the canonical absolute path of the part
    before `#`.
  - It then takes `firstPage` and `lastPage` from the two ends of `pages`,
    and sets `totalPages` to their difference.
  - Each of these fields is specified by a fold over the entries
    (`PagesOf`, `LocationsOf`, `Group`). The class invariant `Valid` ties
    the fields to those folds. Lemmas relate the folds to independent
    descriptions.
- **Lookups** (`lookup.dfy`, module `Lookup`, over `sorted_search.dfy`). These
  are read-only functions of `pages`, `locations` and the parsed entries:
  - `pageFromCfi`: exact binary search, then the page of the nearest
    preceding marker.
  - `pagesFromLocation`, `cfiFromPage` (a linear first-match search),
    `cfiFromPageLabel`, `pageLabel` and `itemFromCfi`.

`locations` only holds the entries that have a CFI. So it can be shorter
than `pages`, and after the first entry without a CFI, location `k` no
longer belongs to page `k`. The model keeps this drift as the source has it:
- `Index.LocationsAligned` states exactly when the two line up.
- `Lookup.CfiFromPageParsed` shows what `cfiFromPage` then answers.
- `Scenarios.ShiftedLocations` gives a two-item list where page 1 gets
  page 2's CFI.

The CFI order (`EpubCFI.compare`) is a parameter `lt`, required to be a
strict total order. Two CFIs compare equal exactly when they are the same
string. The key function `canonical(path.resolve(href))` is a parameter
`absolute`. JavaScript's `String.prototype.indexOf`, `split`,
`Array.prototype.indexOf` and the `${n}` rendering of an integer are
modelled in `builtins.dfy` (module `Builtins`) by their contracts. `split`
and `${n}` also have round-trip lemmas. `Array.prototype.find` over the
entries is `Lookup.FindByLabel`.

`scenarios.dfy` (module `Scenarios`) works one example through. It is a list
of three items: `chap1.xhtml#epubcfi(/6/2!/4)` labelled "i",
`chap1.xhtml#epubcfi(/6/2!/6)` labelled "1", and `chap2.xhtml` labelled
"2". The paths and CFIs are parameters.
- It shows the entries, the arrays `[1, 2, 3]` and `[cfi1, cfi2]`, and the
  grouping by chapter.
- A reading position in chapter 2 resolves to page 2. Page 3 has no
  location.

Two behaviours of the code are kept as they are:
- `cfiFromPage` answers `undefined`, not the -1 sentinel, when the page's
  position is past the end of `locations` (src/pagelist.js:229). This is
  `Lookup.CfiAnswer.Undefined`.
- With no navigation document, `pageList` is never set. `pageLabel`,
  `cfiFromPageLabel` and `itemFromCfi` then throw a `TypeError`
  (src/pagelist.js:206, 236, 260) rather than report "not found". This is
  `Builtins.Outcome.TypeError`.

## Model

| member | source | states |
|---|---|---|
| Builtins.IndexOf | src/pagelist.js:94 | `href.indexOf("epubcfi")`: -1 exactly when the text does not occur, otherwise the first position where it occurs |
| Builtins.Split | src/pagelist.js:100 | `href.split("#")`: at least one piece, no piece contains `#`, and joining the pieces with `#` gives the href back |
| Builtins.SplitJoin | src/pagelist.js:100 | splitting a join of `#`-free pieces gives the pieces back, so the split is the only such decomposition |
| Builtins.SplitPieces | src/pagelist.js:100-102 | piece 0 is the text before the first `#`, there is a piece 1 exactly when the href has a `#`, and piece 1 is the text between the first and second `#` |
| Builtins.FirstIndex | src/pagelist.js:227 | `pages.indexOf(pg)`: -1 exactly when absent, otherwise an index holding `pg` with no earlier occurrence |
| Builtins.Decimal | src/pagelist.js:208 | `${n}` for a non-negative position: a non-empty string of decimal digits, more than one exactly when `n >= 10`, with no leading zero |
| Builtins.DecimalRoundTrip | src/pagelist.js:208 | reading the digits of `${n}` back gives `n` |
| SortedSearch.IndexOfSortedIn | src/pagelist.js:162 | binary search over a range of a sorted array: an index in the range holding `x`, or -1 exactly when `x` is not in the range |
| SortedSearch.IndexOfSorted | src/pagelist.js:162 | `indexOfSorted(cfi, locations, compare)`: -1 exactly when `cfi` is not a location, otherwise an index holding it |
| SortedSearch.LocationOfIn | src/pagelist.js:169 | lower-bound binary search over a range: everything before the result sorts before `x`, nothing from it on does |
| SortedSearch.LocationOf | src/pagelist.js:169 | `locationOf(cfi, locations, compare)`: the insertion point that keeps `locations` sorted |
| SortedSearch.InsertionPointUnique | src/pagelist.js:169-171 | the insertion point is unique, so the page `pageFromCfi` picks does not depend on how it is found |
| EntryParser.HasLocation | src/pagelist.js:127 | `item.cfi` is truthy: false exactly for a plain entry (`undefined`), a missing fragment (`false`) and an empty CFI |
| EntryParser.Item | src/pagelist.js:88-117 | the entry of list item `i` has page `i + 1`, the link text as label and the link's href |
| EntryParser.ItemTarget | src/pagelist.js:94-116 | an entry carries `cfi` and `packageUrl` exactly when its href contains "epubcfi"; `packageUrl` is the text before the first `#`; `cfi` is absent exactly when there is no `#`, and otherwise is the text between the first and second `#` |
| EntryParser.Entries | src/pagelist.js:74-77 | one entry per list item, in order: entry `k` is item `k`'s entry, with page `k + 1` and item `k`'s text as label |
| EntryParser.ParseNav | src/pagelist.js:64-80 | the loop returns exactly the entries of the items, an empty list for no items |
| Index.PagesOf | src/pagelist.js:126 | `pages` has one element per entry, and element `k` is entry `k`'s page |
| Index.ParsedPages | src/pagelist.js:93 | for a parsed list, `pages` is 1, 2, ..., n |
| Index.ParsedEnds | src/pagelist.js:140-141 | for a parsed non-empty list, the first page is 1 and the last is the number of entries |
| Index.LocationsOf | src/pagelist.js:127-129 | `locations` is never longer than the entries |
| Index.LocationsOfMembers | src/pagelist.js:127-129 | a CFI is a location exactly when some entry has it as its non-empty CFI |
| Index.LocationsAligned | src/pagelist.js:127-129 | `locations` has one element per entry exactly when every entry has a non-empty CFI, and then location `k` is entry `k`'s CFI |
| Index.BuildStep | src/pagelist.js:125-139 | one more entry extends `pages`, `locations` and the grouping by exactly one step of the loop body |
| Index.GroupKey | src/pagelist.js:131-133 | the key is `absolute` of the href's text before the first `#` |
| Index.AddToGroup | src/pagelist.js:130-138 | one loop step: an entry with a non-empty href adds its key if missing and appends its page there; an empty href changes nothing; no other key changes |
| Index.Group | src/pagelist.js:125-139 | the grouping after the loop: every key already present stays, and its pages are only appended to |
| Index.PagesUnder | src/pagelist.js:130-138 | the pages grouped under one key are no more than the entries |
| Index.PagesUnderSnoc | src/pagelist.js:130-138 | the pages under a key of a list extended by an entry are the old ones followed by that entry's page when it resolves to the key |
| Index.PagesUnderNonEmpty | src/pagelist.js:130-138 | some page is grouped under a key exactly when some entry with a non-empty href resolves to it |
| Index.GroupAt | src/pagelist.js:130-138 | building appends to each key exactly the pages of the entries with a non-empty href that resolve to it, in order, duplicates kept |
| Index.GroupKeys | src/pagelist.js:134-136 | a key is present after building exactly when it was before or some entry resolves to it: no other key is added |
| Index.AddToGroupAt | src/pagelist.js:130-138 | one entry changes only its own key, by appending its page (and creating the key when missing) |
| PageLists.PageList.constructor | src/pagelist.js:15-39 | the fields start empty and zero; `pageList` is the parsed entries when there is a navigation document; the index is then valid; an absent or empty list leaves everything empty and zero, and a parsed list has first page 1, last page n and `totalPages` n - 1 |
| PageLists.PageList.Process | src/pagelist.js:124-143 | `pages`, `locations` and `pagesByAbsolutePath` are extended by the folds over the entries; `firstPage` and `lastPage` are the two ends of `pages` and `totalPages` their difference; `pageList` is unchanged |
| PageLists.PageList.Add | src/pagelist.js:125-139 | one loop step: pushes the page, pushes the CFI when it is non-empty, and appends the page under the entry's key when its href is non-empty; `firstPage`, `lastPage`, `totalPages` and `pageList` are unchanged |
| PageLists.PageList.PageFromCfi | src/pagelist.js:150-181 | `pageFromCfi` on a built index in its own CFI order: -1 when no entry has a location, otherwise the page at some location's position, at `cfi`'s own position when it is a location |
| Lookup.PageFromCfi | src/pagelist.js:150-181 | -1 for an empty index; on an exact hit, the page at that location's position; on a miss, the page before the insertion point, or the first page when that point is 0 |
| Lookup.PageFromCfiExact | src/pagelist.js:162-164 | with no duplicate locations, location `k` gives page `k` |
| Lookup.PageFromCfiPreceding | src/pagelist.js:169-171 | a CFI strictly between locations `k` and `k + 1` (or after the last) gives the page of location `k`, never the next one |
| Lookup.PageFromCfiBeforeFirst | src/pagelist.js:171 | a CFI before every location gives the first page |
| Lookup.PageFromCfiIsMarkerPage | src/pagelist.js:150-181 | on a non-empty index, every CFI resolves to `pages[j]` for some position `j` of `locations` (the page of that location's own entry only while the two arrays line up) |
| Lookup.PagesFromLocation | src/pagelist.js:183-203 | no pages for an empty index or an unresolved start; otherwise the start page, followed by the end page exactly when it differs |
| Lookup.PagesFromLocationZeroWidth | src/pagelist.js:196-200 | on a non-empty index with no page -1, a range that starts and ends at the same CFI covers exactly one page (an empty index gives no pages) |
| Lookup.CfiFromPage | src/pagelist.js:218-233 | -1 exactly when the page is not in `pages`; otherwise the location at the page's first position, or `undefined` past the end of `locations` |
| Lookup.CfiFromPageRoundTrip | src/pagelist.js:227-229 | with no duplicate locations, the location found for a page leads `pageFromCfi` back to that page |
| Lookup.FindByLabel | src/pagelist.js:236 | `find` by label: none exactly when no entry has the label, otherwise the first entry that has it |
| Lookup.CfiFromPageLabel | src/pagelist.js:235-241 | throws exactly when there is no list; -1 when no entry has the label; otherwise `cfiFromPage` of the first such entry's page |
| Lookup.CfiFromPageParsed | src/pagelist.js:227-229 | on a parsed list, page `k + 1` gets location `k`, which is entry `k`'s own CFI if every entry has one, and `undefined` past the end of `locations` |
| Lookup.CfiFromPageLabelParsed | src/pagelist.js:235-241 | on a parsed list, a label that no earlier entry has gives the CFI of its own entry's page |
| Lookup.PageLabel | src/pagelist.js:205-211 | throws exactly when there is no list; -1 when no entry is at the position; otherwise a non-empty label: the entry's own label, or, when the label is empty, `#` followed by the decimal digits of the position, without a leading zero |
| Lookup.PageLabelParsed | src/pagelist.js:205-208 | on a parsed list, position `n` is page `n + 1`, not page `n` |
| Lookup.ItemFromCfi | src/pagelist.js:258-261 | throws exactly when there is no list; an item is found exactly when `pageFromCfi` gives a page between 1 and the number of entries, and it is one of the entries; an empty index finds none; when the pages are the positions plus one and the index is not empty, an item is always found and its page is the one `pageFromCfi` gives |
| Lookup.ItemFromCfiParsed | src/pagelist.js:258-261 | on a parsed list, an empty index finds no item, and otherwise the item found is the entry of the page `pageFromCfi` finds |
| Scenarios.CfiHrefItem | src/pagelist.js:99-109 | `doc#cfi` with a CFI fragment is a CFI link into `doc` whose `cfi` is the fragment |
| Scenarios.PlainHrefItem | src/pagelist.js:110-116 | a link to a path that does not mention "epubcfi" is a plain entry |
| Scenarios.SampleEntries | src/pagelist.js:88-117 | the three example items give pages 1, 2, 3, with CFIs on the first two only |
| Scenarios.SampleArrays | src/pagelist.js:124-129 | the example gives `pages` `[1, 2, 3]` and `locations` `[cfi1, cfi2]` |
| Scenarios.GroupOfThree | src/pagelist.js:130-138 | two entries on one key and one on another are grouped under those two keys only, in order |
| Scenarios.SampleGroups | src/pagelist.js:130-138 | the example groups pages 1 and 2 under chapter 1 and page 3 under chapter 2, and has no other key |
| Scenarios.SampleCfiLookups | src/pagelist.js:150-203 | in the example, a CFI before the first marker gives page 1, location 2 gives page 2, and a position in chapter 2 still gives page 2 |
| Scenarios.SamplePageLookups | src/pagelist.js:218-241 | in the example, page 1 gives the first CFI, page 3 gives `undefined`, page 4 gives -1, and label "1" gives the second CFI |
| Scenarios.ShiftedLocations | src/pagelist.js:227-229 | with a first item that has no CFI, page 1 gets page 2's CFI and page 2 gets `undefined` |

## Left out

- Querying the navigation document (`qs`, `qsa`, `querySelectorByType`) and `parse`'s choice between an HTML navigation document and an NCX one. These are DOM library calls. The constructor takes instead the list items, each as its first link's href and text, or nothing when there is no HTML navigation document.
- A list item without a link element makes `item` throw. The model's input always has a link, and the defaulting of a missing href or text to "" happens before the input.
- `EpubCFI.compare` and the CFI grammar. The order is a parameter, required to be a strict total order in which only equal strings compare equal.
- The bodies of `indexOfSorted` and `locationOf`. `utils/core` is not part of this model. They are binary searches specified by what they return on a sorted array.
- Lookup.PageFromCfi: requires `locations` to be sorted in the CFI order, which the source assumes but does not check. It also requires `locations` to be no longer than `pages`, which every built index satisfies (`PageLists.PageList.Valid`). So the source's fallback to -1 for an undefined page is never reached in the model.
- `path.resolve` and `canonical`. They are one key function `absolute`, given to the constructor.
- `pageFromPercentage`, `percentageFromPage`, `percentageFromCfi` and `itemFromPercentage`. They depend on floating-point rounding and on division by `totalPages`, which can be zero.
- The `parseInt` coercion of a non-number argument to `cfiFromPage`. The model takes an integer page.
- The `parseInt` applied to the first and last page in `process`. Pages are integers, where it is the identity.
- Lookup.PageLabel: takes an integer position. JavaScript's lookup of a non-integer or string property of the array is not modelled.
- Lookup.CfiFromPageLabel: compares labels as strings. The loose equality `==` with a non-string argument is not modelled.
- PageLists.PageList.Add: keys are plain strings. A key that names an inherited property of a JavaScript object (such as `constructor`) would behave differently in the source.
- `destroy`, which only clears the fields, and the `toc`, `ncx` and `epubcfi` fields, which no modelled operation reads apart from the comparator.
