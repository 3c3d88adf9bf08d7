/** What the index builder derives from a sequence of entries: the `pages`
    array (every entry), the `locations` array (only entries with a
    non-empty CFI, so it can be shorter than `pages` and lose positional
    correspondence with it) and the grouping of pages by the canonical
    absolute path of the document an entry's href points into. Each is
    defined as a fold over the entries, the way the builder's loop fills
    it, and related by lemmas to an independent description. */
module Index {
  import opened Builtins
  import opened EntryParser

  function Init(list: seq<Entry>): seq<Entry>
    requires |list| > 0
  {
    list[..|list| - 1]
  }

  function Last(list: seq<Entry>): Entry
    requires |list| > 0
  {
    list[|list| - 1]
  }

  lemma InitLast(list: seq<Entry>)
    requires |list| > 0
    ensures list == Init(list) + [Last(list)]
  {
  }

  /** Extending the entries by one extends each derived value by one step
      of the builder. */
  lemma BuildStep(m: map<string, seq<int>>, list: seq<Entry>, i: nat, absolute: string -> string)
    requires i < |list|
    ensures PagesOf(list[..i + 1]) == PagesOf(list[..i]) + [list[i].page]
    ensures LocationsOf(list[..i + 1])
         == LocationsOf(list[..i]) + (if HasLocation(list[i]) then [CfiOf(list[i])] else [])
    ensures Group(m, list[..i + 1], absolute) == AddToGroup(Group(m, list[..i], absolute), list[i], absolute)
  {
    assert Init(list[..i + 1]) == list[..i];
    assert Last(list[..i + 1]) == list[i];
  }

  // ---------------------------------------------------------------------
  // pages

  /** The `pages` array: the page number of every entry, in order. */
  function PagesOf(list: seq<Entry>): (pages: seq<int>)
    ensures |pages| == |list|
    ensures forall k :: 0 <= k < |list| ==> pages[k] == list[k].page
  {
    if list == [] then [] else PagesOf(Init(list)) + [Last(list).page]
  }

  /** For a parsed page list the pages are 1, 2, ..., n. */
  lemma ParsedPages(links: seq<Link>)
    ensures var pages := PagesOf(Entries(links));
      forall k :: 0 <= k < |pages| ==> pages[k] == k + 1
  {
  }

  /** The pages of a parsed, non-empty page list run from 1 to its length. */
  lemma ParsedEnds(links: seq<Link>)
    requires |links| > 0
    ensures var pages := PagesOf(Entries(links));
      pages[0] == 1 && pages[|pages| - 1] == |links|
  {
    ParsedPages(links);
  }

  // ---------------------------------------------------------------------
  // locations

  /** The CFI of an entry that has a location. */
  function CfiOf(e: Entry): string
    requires HasLocation(e)
  {
    e.target.cfi.value
  }

  /** The `locations` array: the CFI of each entry that has one, in order. */
  function LocationsOf(list: seq<Entry>): (locations: seq<string>)
    ensures |locations| <= |list|
  {
    if list == [] then []
    else LocationsOf(Init(list)) + (if HasLocation(Last(list)) then [CfiOf(Last(list))] else [])
  }

  /** A CFI is among the locations exactly when some entry has it as its
      (non-empty) CFI. */
  lemma {:induction false} LocationsOfMembers(list: seq<Entry>, c: string)
    ensures c in LocationsOf(list) <==> exists k :: 0 <= k < |list| && HasLocation(list[k]) && CfiOf(list[k]) == c
  {
    if list != [] {
      LocationsOfMembers(Init(list), c);
      var n := |list| - 1;
      if exists k :: 0 <= k < |list| && HasLocation(list[k]) && CfiOf(list[k]) == c {
        var k :| 0 <= k < |list| && HasLocation(list[k]) && CfiOf(list[k]) == c;
        if k < n {
          assert Init(list)[k] == list[k];
        }
      }
      assert forall k :: 0 <= k < n ==> Init(list)[k] == list[k];
    }
  }

  /** `locations` lines up with `pages` (same length, and location `k`
      belongs to entry `k`) exactly when every entry has a location; one
      entry without a CFI shortens it and shifts every later location. */
  lemma {:induction false} LocationsAligned(list: seq<Entry>)
    ensures |LocationsOf(list)| == |list| <==> forall k :: 0 <= k < |list| ==> HasLocation(list[k])
    ensures (forall k :: 0 <= k < |list| ==> HasLocation(list[k])) ==>
              forall k :: 0 <= k < |list| ==> LocationsOf(list)[k] == CfiOf(list[k])
  {
    if list != [] {
      LocationsAligned(Init(list));
      var n := |list| - 1;
      assert forall k :: 0 <= k < n ==> Init(list)[k] == list[k];
      if !HasLocation(list[n]) {
        assert |LocationsOf(list)| == |LocationsOf(Init(list))| <= n;
      }
    }
  }

  // ---------------------------------------------------------------------
  // pagesByAbsolutePath

  /** The pages grouped under `key`, or none when the key is absent. */
  function PagesAt(m: map<string, seq<int>>, key: string): seq<int> {
    if key in m then m[key] else []
  }

  /** The grouping key of an entry: its href without the fragment (the
      text before the first '#'), resolved and canonicalised by `absolute`. */
  function GroupKey(e: Entry, absolute: string -> string): (key: string)
    ensures exists doc :: IsFirstPiece(e.href, '#', doc) && key == absolute(doc)
  {
    SplitPieces(e.href, '#');
    absolute(Split(e.href, '#')[0])
  }

  /** One step of the builder: an entry with a non-empty href appends its
      page under its key, creating the key when it is missing; no other key
      changes. */
  function AddToGroup(m: map<string, seq<int>>, e: Entry, absolute: string -> string): (r: map<string, seq<int>>)
    ensures r.Keys == if e.href == "" then m.Keys else m.Keys + {GroupKey(e, absolute)}
    ensures e.href != "" ==> r[GroupKey(e, absolute)] == PagesAt(m, GroupKey(e, absolute)) + [e.page]
    ensures forall key :: key in m && (e.href == "" || key != GroupKey(e, absolute)) ==> r[key] == m[key]
  {
    if e.href == "" then m
    else
      var key := GroupKey(e, absolute);
      m[key := PagesAt(m, key) + [e.page]]
  }

  /** `pagesByAbsolutePath` after the builder has gone through `list`: it
      only grows, keeping every key and appending to the pages under it. */
  function Group(m: map<string, seq<int>>, list: seq<Entry>, absolute: string -> string): (r: map<string, seq<int>>)
    ensures forall key :: key in m ==> key in r && |m[key]| <= |r[key]| && r[key][..|m[key]|] == m[key]
  {
    if list == [] then m else AddToGroup(Group(m, Init(list), absolute), Last(list), absolute)
  }

  /** The pages of the entries that have a non-empty href with key `key`,
      in order, duplicates kept. */
  function PagesUnder(list: seq<Entry>, absolute: string -> string, key: string): (pages: seq<int>)
    ensures |pages| <= |list|
  {
    if list == [] then []
    else
      var e := list[0];
      (if e.href != "" && GroupKey(e, absolute) == key then [e.page] else []) + PagesUnder(list[1..], absolute, key)
  }

  lemma {:induction false} PagesUnderSnoc(list: seq<Entry>, e: Entry, absolute: string -> string, key: string)
    ensures PagesUnder(list + [e], absolute, key)
         == PagesUnder(list, absolute, key) + (if e.href != "" && GroupKey(e, absolute) == key then [e.page] else [])
  {
    if list != [] {
      assert (list + [e])[1..] == list[1..] + [e];
      PagesUnderSnoc(list[1..], e, absolute, key);
    }
  }

  /** Some page is grouped under `key` exactly when some entry with a
      non-empty href resolves to it. */
  lemma {:induction false} PagesUnderNonEmpty(list: seq<Entry>, absolute: string -> string, key: string)
    ensures PagesUnder(list, absolute, key) != []
        <==> exists k :: 0 <= k < |list| && list[k].href != "" && GroupKey(list[k], absolute) == key
  {
    if list != [] {
      PagesUnderNonEmpty(list[1..], absolute, key);
      assert forall k :: 1 <= k < |list| ==> list[1..][k - 1] == list[k];
    }
  }

  /** Building appends to each key exactly the pages of the entries that
      resolve to it, in order, duplicates kept. */
  lemma {:induction false} GroupAt(m: map<string, seq<int>>, list: seq<Entry>, absolute: string -> string, key: string)
    ensures PagesAt(Group(m, list, absolute), key) == PagesAt(m, key) + PagesUnder(list, absolute, key)
  {
    if list != [] {
      var init, e := Init(list), Last(list);
      var extra := if e.href != "" && GroupKey(e, absolute) == key then [e.page] else [];
      calc {
        PagesAt(Group(m, list, absolute), key);
        PagesAt(AddToGroup(Group(m, init, absolute), e, absolute), key);
        { AddToGroupAt(Group(m, init, absolute), e, absolute, key); }
        PagesAt(Group(m, init, absolute), key) + extra;
        { GroupAt(m, init, absolute, key); }
        (PagesAt(m, key) + PagesUnder(init, absolute, key)) + extra;
        PagesAt(m, key) + (PagesUnder(init, absolute, key) + extra);
        { InitLast(list); PagesUnderSnoc(init, e, absolute, key); }
        PagesAt(m, key) + PagesUnder(list, absolute, key);
      }
    }
  }

  /** A key is present after building exactly when it was before or some
      entry resolves to it: no other key is added. */
  lemma {:induction false} GroupKeys(m: map<string, seq<int>>, list: seq<Entry>, absolute: string -> string, key: string)
    ensures key in Group(m, list, absolute) <==> key in m || PagesUnder(list, absolute, key) != []
  {
    if list != [] {
      var init, e := Init(list), Last(list);
      var hit := e.href != "" && GroupKey(e, absolute) == key;
      GroupKeys(m, init, absolute, key);
      AddToGroupAt(Group(m, init, absolute), e, absolute, key);
      assert key in Group(m, list, absolute) <==> key in Group(m, init, absolute) || hit;
      InitLast(list);
      PagesUnderSnoc(init, e, absolute, key);
      assert PagesUnder(list, absolute, key) != [] <==> PagesUnder(init, absolute, key) != [] || hit;
    }
  }

  /** One step of the builder changes only the entry's own key, by
      appending the entry's page. */
  lemma AddToGroupAt(m: map<string, seq<int>>, e: Entry, absolute: string -> string, key: string)
    ensures PagesAt(AddToGroup(m, e, absolute), key)
         == PagesAt(m, key) + (if e.href != "" && GroupKey(e, absolute) == key then [e.page] else [])
    ensures key in AddToGroup(m, e, absolute) <==> key in m || (e.href != "" && GroupKey(e, absolute) == key)
  {
  }
}
