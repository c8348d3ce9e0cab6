/**
 * The history page: the download history grouped by folder, newest first
 * within a folder, folders in ascending name order; the merge that imports a
 * history file; and clearing.
 *
 * `Object.entries(history)` is taken as given: a listing of (src, record)
 * pairs in the order the page enumerates them.
 */
module HistoryPage {
  import opened Types
  import opened Text

  /** A card on the history page. */
  datatype Entry = Entry(src: string, filename: string, timestamp: int, folder: string)

  /** A folder group as shown: its title and its cards in order. */
  datatype Section = Section(title: string, cards: seq<Entry>)

  type Listing = seq<(string, Record)>

  /** The card for one history entry, its folder defaulted to "Default Directory". */
  function ToEntry(src: string, info: Record): Entry {
    Entry(src, info.filename, info.timestamp, FolderLabel(info.folder))
  }

  /** The cards of a listing, in listing order. */
  function Entries(listing: Listing): (es: seq<Entry>)
    ensures |es| == |listing|
    ensures forall i :: 0 <= i < |listing| ==> es[i] == ToEntry(listing[i].0, listing[i].1)
  {
    seq(|listing|, i requires 0 <= i < |listing| => ToEntry(listing[i].0, listing[i].1))
  }

  /** The cards of one folder, in listing order. */
  function InGroup(es: seq<Entry>, folder: string): (r: seq<Entry>)
    ensures |r| <= |es|
    ensures forall e :: e in r <==> e in es && e.folder == folder
  {
    if es == [] then []
    else
      var last := es[|es| - 1];
      var init := es[..|es| - 1];
      assert forall e :: e in es <==> e in init || e == last;
      InGroup(init, folder) + if last.folder == folder then [last] else []
  }

  /** The folders that occur among the cards. */
  function Folders(es: seq<Entry>): set<string> {
    set e | e in es :: e.folder
  }

  // ---------------------------------------------------------------------------
  // newest first: sort((a, b) => b.timestamp - a.timestamp)

  ghost predicate NewestFirst(s: seq<Entry>) {
    forall i, j :: 0 <= i < j < |s| ==> s[i].timestamp >= s[j].timestamp
  }

  /** A card no older than every card of a newest-first sequence may go in front of it. */
  lemma PrependNewest(x: Entry, rest: seq<Entry>)
    requires NewestFirst(rest)
    requires forall y :: y in rest ==> y.timestamp <= x.timestamp
    ensures NewestFirst([x] + rest)
  {
    forall i, j | 0 <= i < j < |[x] + rest| ensures ([x] + rest)[i].timestamp >= ([x] + rest)[j].timestamp {
      assert ([x] + rest)[j] == rest[j - 1];
      if i > 0 {
        assert ([x] + rest)[i] == rest[i - 1];
      }
    }
  }

  /** The first card of a newest-first sequence is no older than any of its cards, and the rest stays newest first. */
  lemma HeadIsNewest(s: seq<Entry>)
    requires NewestFirst(s) && s != []
    ensures NewestFirst(s[1..])
    ensures forall y :: y in s ==> y.timestamp <= s[0].timestamp
  {
    var tail := s[1..];
    forall i, j | 0 <= i < j < |tail| ensures tail[i].timestamp >= tail[j].timestamp {
      assert tail[i] == s[i + 1] && tail[j] == s[j + 1];
    }
    forall y | y in s ensures y.timestamp <= s[0].timestamp {
      var j :| 0 <= j < |s| && s[j] == y;
      assert s[0].timestamp >= s[j].timestamp;
    }
  }

  /** Put `e` before the first card that is not newer than it. */
  function InsertNewest(e: Entry, s: seq<Entry>): (r: seq<Entry>)
    requires NewestFirst(s)
    ensures NewestFirst(r)
    ensures forall x :: x in r <==> x == e || x in s
    ensures multiset(r) == multiset(s) + multiset{e}
  {
    if s == [] || s[0].timestamp <= e.timestamp then
      if s != [] then HeadIsNewest(s); PrependNewest(e, s); [e] + s
      else PrependNewest(e, s); [e] + s
    else
      HeadIsNewest(s);
      var rest := InsertNewest(e, s[1..]);
      InsertedBehindHead(e, s, rest);
      [s[0]] + rest
  }

  /** Keeping the newer head in front of the insertion into the tail gives the insertion into the whole list. */
  lemma InsertedBehindHead(e: Entry, s: seq<Entry>, rest: seq<Entry>)
    requires NewestFirst(s) && s != [] && e.timestamp < s[0].timestamp
    requires NewestFirst(rest)
    requires forall x :: x in rest <==> x == e || x in s[1..]
    requires multiset(rest) == multiset(s[1..]) + multiset{e}
    ensures NewestFirst([s[0]] + rest)
    ensures forall x :: x in [s[0]] + rest <==> x == e || x in s
    ensures multiset([s[0]] + rest) == multiset(s) + multiset{e}
  {
    HeadIsNewest(s);
    assert s == [s[0]] + s[1..];
    PrependNewest(s[0], rest);
  }

  /** The cards ordered newest first, a rearrangement of the given ones. */
  function SortNewestFirst(s: seq<Entry>): (r: seq<Entry>)
    ensures NewestFirst(r)
    ensures forall x :: x in r <==> x in s
    ensures multiset(r) == multiset(s)
  {
    if s == [] then []
    else
      assert s == [s[0]] + s[1..];
      InsertNewest(s[0], SortNewestFirst(s[1..]))
  }

  // ---------------------------------------------------------------------------
  // groupImagesByFolder

  /**
   * `groups` is the grouping the history page builds from the listing: one
   * group per folder label that occurs, holding that folder's cards newest
   * first.
   */
  ghost predicate IsGrouping(listing: Listing, groups: map<string, seq<Entry>>) {
    && groups.Keys == Folders(Entries(listing))
    && forall f :: f in groups ==> groups[f] == SortNewestFirst(InGroup(Entries(listing), f))
  }

  /**
   * In a grouping every group is newest first; every entry of the listing
   * is in the group of its folder and in no other group; every card of a
   * group comes from the listing.
   */
  lemma GroupedProperties(listing: Listing, groups: map<string, seq<Entry>>)
    requires IsGrouping(listing, groups)
    ensures forall f :: f in groups ==> NewestFirst(groups[f])
    ensures forall f, e :: f in groups && e in groups[f] ==> e in Entries(listing) && e.folder == f
    ensures forall i :: 0 <= i < |listing| ==>
      var e := ToEntry(listing[i].0, listing[i].1);
      e.folder in groups && e in groups[e.folder]
  {
    var es := Entries(listing);
    forall i | 0 <= i < |listing| ensures es[i].folder in groups && es[i] in groups[es[i].folder] {
      assert es[i] in InGroup(es, es[i].folder);
    }
  }

  /** A folder that no card names has an empty group. */
  lemma {:induction false} NoGroup(es: seq<Entry>, folder: string)
    requires folder !in Folders(es)
    ensures InGroup(es, folder) == []
  {
    if es != [] {
      var init := es[..|es| - 1];
      assert es[|es| - 1] in es;
      assert Folders(init) <= Folders(es) by {
        assert forall x :: x in init ==> x in es;
      }
      NoGroup(init, folder);
    }
  }

  /** Appending a card adds its folder. */
  lemma FoldersAppend(prefix: seq<Entry>, e: Entry)
    ensures Folders(prefix + [e]) == Folders(prefix) + {e.folder}
  {
    assert forall x :: x in prefix + [e] <==> x in prefix || x == e;
  }

  /** Appending a card extends its own folder's group by it and leaves the other groups alone. */
  lemma InGroupAppend(prefix: seq<Entry>, e: Entry, folder: string)
    ensures InGroup(prefix + [e], folder) == InGroup(prefix, folder) + if e.folder == folder then [e] else []
  {
    assert (prefix + [e])[..|prefix|] == prefix;
  }

  /** Appending a card to its folder's group keeps the groups those of the longer listing. */
  lemma {:induction false} AppendToGroup(prefix: seq<Entry>, e: Entry, groups: map<string, seq<Entry>>)
    requires groups.Keys == Folders(prefix)
    requires forall f :: f in groups ==> groups[f] == InGroup(prefix, f)
    ensures var added := groups[e.folder := (if e.folder in groups then groups[e.folder] else []) + [e]];
      added.Keys == Folders(prefix + [e]) &&
      forall f :: f in added ==> added[f] == InGroup(prefix + [e], f)
  {
    FoldersAppend(prefix, e);
    var added := groups[e.folder := (if e.folder in groups then groups[e.folder] else []) + [e]];
    forall f | f in added ensures added[f] == InGroup(prefix + [e], f) {
      InGroupAppend(prefix, e, f);
      if f == e.folder && e.folder !in groups {
        NoGroup(prefix, e.folder);
      }
    }
  }

  /**
   * The first pass of `groupImagesByFolder`: each card appended to its
   * folder's group, a group created on the folder's first card; the groups
   * are the listing's folders, each holding its cards in listing order.
   */
  method CollectByFolder(listing: Listing) returns (groups: map<string, seq<Entry>>)
    ensures groups.Keys == Folders(Entries(listing))
    ensures forall f :: f in groups ==> groups[f] == InGroup(Entries(listing), f)
  {
    ghost var es := Entries(listing);
    ghost var seen: seq<Entry> := [];
    groups := map[];
    var i := 0;
    while i < |listing|
      invariant 0 <= i <= |listing|
      invariant seen == es[..i]
      invariant groups.Keys == Folders(seen)
      invariant forall f :: f in groups ==> groups[f] == InGroup(seen, f)
    {
      var (src, info) := listing[i];
      var entry := Entry(src, info.filename, info.timestamp, FolderLabel(info.folder));
      assert es[i] == entry;
      assert es[..i + 1] == seen + [entry];
      AppendToGroup(seen, entry, groups);
      var group := if entry.folder in groups then groups[entry.folder] else [];
      groups := groups[entry.folder := group + [entry]];
      seen := seen + [entry];
      i := i + 1;
    }
    assert seen == es;
  }

  /** The second pass of `groupImagesByFolder`: every group sorted newest first, in place of the unsorted one. */
  method SortEachGroup(collected: map<string, seq<Entry>>) returns (groups: map<string, seq<Entry>>)
    ensures groups.Keys == collected.Keys
    ensures forall f :: f in groups ==> NewestFirst(groups[f]) && multiset(groups[f]) == multiset(collected[f])
    ensures forall f :: f in groups ==> groups[f] == SortNewestFirst(collected[f])
  {
    groups := collected;
    var unsorted := groups.Keys;
    while unsorted != {}
      invariant unsorted <= groups.Keys == collected.Keys
      invariant forall f :: f in unsorted ==> groups[f] == collected[f]
      invariant forall f :: f in groups && f !in unsorted ==> groups[f] == SortNewestFirst(collected[f])
      decreases unsorted
    {
      var folder :| folder in unsorted;
      groups := groups[folder := SortNewestFirst(groups[folder])];
      unsorted := unsorted - {folder};
    }
  }

  /**
   * `groupImagesByFolder`: the cards collected by folder, then every group
   * sorted newest first.
   */
  method GroupImagesByFolder(listing: Listing) returns (groups: map<string, seq<Entry>>)
    ensures IsGrouping(listing, groups)
  {
    var collected := CollectByFolder(listing);
    groups := SortEachGroup(collected);
  }

  // ---------------------------------------------------------------------------
  // displayFolderGroups: folders in ascending name order

  ghost predicate Ascending(titles: seq<string>) {
    forall i, j :: 0 <= i < j < |titles| ==> StrLt(titles[i], titles[j])
  }

  /** `Object.keys(groups).sort()`: the folder names, each once, in ascending order. */
  ghost function SortedFolders(keys: set<string>): (order: seq<string>)
    ensures forall f :: f in order <==> f in keys
    ensures Ascending(order)
    decreases keys
  {
    if keys == {} then []
    else
      LeastExists(keys);
      var m :| IsLeast(m, keys);
      var rest := SortedFolders(keys - {m});
      assert forall j :: 0 <= j < |rest| ==> StrLt(m, rest[j]) by {
        forall j | 0 <= j < |rest| ensures StrLt(m, rest[j]) {
          assert rest[j] in keys - {m};
        }
      }
      [m] + rest
  }

  /** The sections shown for the given folders, each with its group's cards. */
  function Sections(groups: map<string, seq<Entry>>, titles: seq<string>): (sections: seq<Section>)
    requires forall t :: t in titles ==> t in groups
    ensures |sections| == |titles|
    ensures forall i :: 0 <= i < |titles| ==> sections[i] == Section(titles[i], groups[titles[i]])
  {
    if titles == [] then [] else [Section(titles[0], groups[titles[0]])] + Sections(groups, titles[1..])
  }

  /**
   * `displayFolderGroups`: one section per group, titled by its folder, in
   * ascending folder order, showing that group's cards.
   */
  ghost function Display(groups: map<string, seq<Entry>>): (sections: seq<Section>)
    ensures forall t :: t in groups <==> exists i :: 0 <= i < |sections| && sections[i].title == t
    ensures forall i, j :: 0 <= i < j < |sections| ==> StrLt(sections[i].title, sections[j].title)
    ensures forall i :: 0 <= i < |sections| ==> sections[i].cards == groups[sections[i].title]
  {
    var titles := SortedFolders(groups.Keys);
    var sections := Sections(groups, titles);
    forall t ensures t in groups <==> exists i :: 0 <= i < |sections| && sections[i].title == t {
      if t in groups {
        var i :| 0 <= i < |titles| && titles[i] == t;
        assert sections[i].title == t;
      }
      if i :| 0 <= i < |sections| && sections[i].title == t {
        assert titles[i] == t;
      }
    }
    forall i, j | 0 <= i < j < |sections| ensures StrLt(sections[i].title, sections[j].title) {
      assert sections[i].title == titles[i] && sections[j].title == titles[j];
    }
    sections
  }

  /** Every card the page shows, section by section. */
  function AllCards(sections: seq<Section>): seq<Entry> {
    if sections == [] then [] else sections[0].cards + AllCards(sections[1..])
  }

  /** The cards of the given folders' groups before sorting, folder after folder. */
  function Unsorted(es: seq<Entry>, titles: seq<string>): seq<Entry> {
    if titles == [] then [] else InGroup(es, titles[0]) + Unsorted(es, titles[1..])
  }

  ghost predicate Distinct(titles: seq<string>) {
    forall i, j :: 0 <= i < j < |titles| ==> titles[i] != titles[j]
  }

  lemma {:induction false} UnsortedOfNone(titles: seq<string>)
    ensures Unsorted([], titles) == []
  {
    if titles != [] {
      UnsortedOfNone(titles[1..]);
    }
  }

  /** Appending a card adds it once to the folder-after-folder cards, when its folder is listed once. */
  lemma {:induction false} UnsortedAppend(es: seq<Entry>, e: Entry, titles: seq<string>)
    requires Distinct(titles)
    ensures multiset(Unsorted(es + [e], titles)) ==
      multiset(Unsorted(es, titles)) + if e.folder in titles then multiset{e} else multiset{}
  {
    if titles != [] {
      var t, tail := titles[0], titles[1..];
      assert Distinct(tail) && (e.folder == t ==> e.folder !in tail) by {
        forall i, j | 0 <= i < j < |tail| ensures tail[i] != tail[j] {
          assert tail[i] == titles[i + 1] && tail[j] == titles[j + 1];
        }
        forall j | 0 <= j < |tail| ensures tail[j] != t {
          assert tail[j] == titles[j + 1];
        }
      }
      UnsortedAppend(es, e, tail);
      assert multiset(InGroup(es + [e], t)) == multiset(InGroup(es, t)) + if e.folder == t then multiset{e} else multiset{} by {
        assert (es + [e])[..|es|] == es;
      }
      assert e.folder in titles <==> e.folder == t || e.folder in tail by {
        assert titles == [t] + tail;
      }
      OneMore(multiset(InGroup(es, t)), multiset(Unsorted(es, tail)), multiset(Unsorted(es + [e], tail)),
        e, e.folder == t, e.folder in tail);
    }
  }

  /** Adding `e` to at most one of two parts adds it once to the whole, if at all. */
  lemma OneMore(head: multiset<Entry>, rest: multiset<Entry>, rest': multiset<Entry>, e: Entry, inHead: bool, inRest: bool)
    requires !(inHead && inRest)
    requires rest' == rest + if inRest then multiset{e} else multiset{}
    ensures (head + if inHead then multiset{e} else multiset{}) + rest' ==
      (head + rest) + if inHead || inRest then multiset{e} else multiset{}
  {
  }

  /** Listing every folder once, folder after folder, shows every card exactly once. */
  lemma {:induction false} UnsortedIsPermutation(es: seq<Entry>, titles: seq<string>)
    requires Distinct(titles)
    requires forall e :: e in es ==> e.folder in titles
    ensures multiset(Unsorted(es, titles)) == multiset(es)
    decreases |es|
  {
    if es == [] {
      UnsortedOfNone(titles);
    } else {
      var init := es[..|es| - 1];
      var last := es[|es| - 1];
      assert es == init + [last];
      UnsortedIsPermutation(init, titles);
      UnsortedAppend(init, last, titles);
    }
  }

  lemma {:induction false} SectionCards(es: seq<Entry>, groups: map<string, seq<Entry>>, titles: seq<string>)
    requires forall t :: t in titles ==> t in groups && multiset(groups[t]) == multiset(InGroup(es, t))
    ensures multiset(AllCards(Sections(groups, titles))) == multiset(Unsorted(es, titles))
  {
    if titles != [] {
      SectionCards(es, groups, titles[1..]);
      assert Sections(groups, titles)[1..] == Sections(groups, titles[1..]);
    }
  }

  /**
   * The history page shows every history entry exactly once: the cards of
   * all sections, taken together, are the listing's cards, so their number
   * is the number of entries.
   */
  lemma ShownOnce(listing: Listing, groups: map<string, seq<Entry>>)
    requires IsGrouping(listing, groups)
    ensures multiset(AllCards(Display(groups))) == multiset(Entries(listing))
    ensures |AllCards(Display(groups))| == |listing|
  {
    var es := Entries(listing);
    var titles := SortedFolders(groups.Keys);
    assert groups.Keys == Folders(es);
    assert Distinct(titles);
    assert forall e :: e in es ==> e.folder in titles;
    UnsortedIsPermutation(es, titles);
    SectionCards(es, groups, titles);
    assert |multiset(AllCards(Display(groups)))| == |multiset(es)|;
  }

  // ---------------------------------------------------------------------------
  // initHistoryPage

  /** `listing` is `Object.entries(history)`: each key once, with its record, and every key listed. */
  ghost predicate Enumerates(listing: Listing, history: History) {
    (forall i :: 0 <= i < |listing| ==> listing[i].0 in history && history[listing[i].0] == listing[i].1) &&
    (forall src :: src in history ==> exists i :: 0 <= i < |listing| && listing[i].0 == src) &&
    (forall i, j :: 0 <= i < j < |listing| ==> listing[i].0 != listing[j].0)
  }

  lemma SameMembers(a: seq<Entry>, b: seq<Entry>)
    requires multiset(a) == multiset(b)
    ensures forall x :: x in a <==> x in b
  {
    forall x ensures x in a <==> x in b {
      assert x in a <==> x in multiset(a);
      assert x in b <==> x in multiset(b);
    }
  }

  /** A card is shown exactly when it is one of the listing's cards. */
  lemma ShownCards(listing: Listing, groups: map<string, seq<Entry>>)
    requires IsGrouping(listing, groups)
    ensures forall c :: c in AllCards(Display(groups)) <==> c in Entries(listing)
  {
    ShownOnce(listing, groups);
    SameMembers(AllCards(Display(groups)), Entries(listing));
  }

  /** Every stored image has its card among the listing's cards. */
  lemma EntriesOfHistory(listing: Listing, history: History)
    requires Enumerates(listing, history)
    ensures forall src :: src in history ==> ToEntry(src, history[src]) in Entries(listing)
    ensures forall c :: c in Entries(listing) ==> c.src in history && c == ToEntry(c.src, history[c.src])
  {
    var es := Entries(listing);
    forall c | c in es ensures c.src in history && c == ToEntry(c.src, history[c.src]) {
      var i :| 0 <= i < |es| && es[i] == c;
      assert c == ToEntry(listing[i].0, listing[i].1);
    }
    forall src | src in history ensures ToEntry(src, history[src]) in es {
      var i :| 0 <= i < |listing| && listing[i].0 == src;
      assert es[i] == ToEntry(src, history[src]);
    }
  }

  /**
   * The cards the page shows for a history are exactly its entries: every
   * stored image has its card, and every card is a stored image's.
   */
  lemma ShowsHistory(listing: Listing, history: History, groups: map<string, seq<Entry>>)
    requires Enumerates(listing, history) && IsGrouping(listing, groups)
    ensures forall src :: src in history ==> ToEntry(src, history[src]) in AllCards(Display(groups))
    ensures forall c :: c in AllCards(Display(groups)) ==> c.src in history && c == ToEntry(c.src, history[c.src])
  {
    ShownCards(listing, groups);
    EntriesOfHistory(listing, history);
  }

  /** What the history page shows: a message when there is no history, otherwise the folder sections. */
  datatype View = NoImages | Shown(sections: seq<Section>)

  /**
   * `initHistoryPage`: no stored history, or an empty one, shows the
   * message; otherwise the folder sections of its grouping are shown, at
   * least one of them.
   */
  ghost function InitialView(stored: Option<History>, listing: Listing, groups: map<string, seq<Entry>>): (view: View)
    requires stored.Some? ==> Enumerates(listing, stored.value)
    requires IsGrouping(listing, groups)
    ensures view.NoImages? <==> stored.None? || stored.value == map[]
    ensures view.Shown? ==> view.sections == Display(groups) && |view.sections| > 0
  {
    if stored.None? || stored.value == map[] then NoImages
    else
      var src :| src in stored.value;
      var i :| 0 <= i < |listing| && listing[i].0 == src;
      var sections := Display(groups);
      GroupedProperties(listing, groups);
      var e := ToEntry(listing[i].0, listing[i].1);
      assert e.folder in groups;
      Shown(sections)
  }

  // ---------------------------------------------------------------------------
  // import and clear

  /**
   * `{ ...current, ...imported }`: every key of either history; an imported
   * record wins on a shared key, and the other current records stay.
   */
  function MergeHistory(current: History, imported: History): (merged: History)
    ensures merged.Keys == current.Keys + imported.Keys
    ensures forall src :: src in imported ==> merged[src] == imported[src]
    ensures forall src :: src in current && src !in imported ==> merged[src] == current[src]
  {
    current + imported
  }

  /** Importing the same file twice gives the same history as importing it once. */
  lemma MergeIdempotent(current: History, imported: History)
    ensures MergeHistory(MergeHistory(current, imported), imported) == MergeHistory(current, imported)
  {
  }

  /**
   * `importHistory`: a file that does not parse stores nothing; otherwise the
   * stored history (none counts as empty) merged with the file is stored.
   */
  function ImportHistory(stored: Option<History>, parsed: Option<History>): (result: Option<History>)
    ensures parsed.None? ==> result.None?
    ensures parsed.Some? ==> result.Some? && result.value.Keys == stored.GetOr(map[]).Keys + parsed.value.Keys
    ensures parsed.Some? ==> forall src :: src in parsed.value ==> result.value[src] == parsed.value[src]
    ensures parsed.Some? ==> forall src :: src in stored.GetOr(map[]) && src !in parsed.value ==>
      result.value[src] == stored.GetOr(map[])[src]
  {
    match parsed
    case None => None
    case Some(imported) => Some(MergeHistory(stored.GetOr(map[]), imported))
  }

  /** `clearHistory`: once confirmed, the stored history is empty; otherwise it stays. */
  function ClearHistory(confirmed: bool, stored: History): (result: History)
    ensures confirmed ==> result == map[]
    ensures !confirmed ==> result == stored
  {
    if confirmed then map[] else stored
  }
}
