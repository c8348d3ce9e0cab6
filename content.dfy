/**
 * The page script: choosing the URL to download for an `<img>` element,
 * deriving its ".png" file name, and the selection list that clicks,
 * select-all, clear and replace change.
 *
 * An element is reduced to the attributes the script reads; an absent
 * attribute reads as "".
 */
module Content {
  import opened Types
  import opened Text
  import Background

  /** An `<img>` element: `src`, `dataset.src`, `data-original`, `srcset`, rendered and natural size. */
  datatype ImageElement = ImageElement(
    src: string,
    dataSrc: string,
    dataOriginal: string,
    srcset: string,
    width: int,
    height: int,
    naturalWidth: int,
    naturalHeight: int)

  // ---------------------------------------------------------------------------
  // srcset

  /** A URL read from a `srcset` entry: never empty. */
  type Url = s: string | s != [] witness "/"

  /** One usable `srcset` entry: a URL and its `<digits>w` width. */
  datatype Candidate = Candidate(url: Url, width: nat)

  /**
   * A `srcset` entry, trimmed and split on single spaces, is usable when it
   * has at least two parts and the second is a width descriptor; the URL is
   * then the first part, which is never empty.
   */
  function ParseEntry(entry: string): (c: Option<Candidate>)
  {
    var t := Trim(entry);
    var parts := Split(t, ' ');
    if |parts| >= 2 then
      match ParseWidth(parts[1])
      case Some(w) =>
        assert t != [];
        Some(Candidate(parts[0], w))
      case None => None
    else None
  }

  /**
   * Which entries are usable: exactly those whose trimmed text has at least
   * two space-separated parts, the second a `<digits>w` descriptor; the
   * candidate is the first part with that width.
   */
  lemma UsableEntry(entry: string)
    ensures var parts := Split(Trim(entry), ' '); var c := ParseEntry(entry);
      && (c.Some? <==> |parts| >= 2 && ParseWidth(parts[1]).Some?)
      && (c.Some? ==> c.value == Candidate(parts[0], ParseWidth(parts[1]).value))
  {
  }

  /** The values `f` gives over `xs`, in order, skipping the elements it gives none for. */
  function FilterMap<A, B>(f: A -> Option<B>, xs: seq<A>): (ys: seq<B>)
    ensures |ys| <= |xs|
  {
    if xs == [] then []
    else (match f(xs[0]) case Some(y) => [y] case None => []) + FilterMap(f, xs[1..])
  }

  lemma {:induction false} FilterMapAppend<A, B>(f: A -> Option<B>, a: seq<A>, b: seq<A>)
    ensures FilterMap(f, a + b) == FilterMap(f, a) + FilterMap(f, b)
  {
    if a == [] {
      assert a + b == b;
    } else {
      assert (a + b)[0] == a[0];
      assert (a + b)[1..] == a[1..] + b;
      FilterMapAppend(f, a[1..], b);
    }
  }

  /** The usable entries, in order. */
  function Candidates(entries: seq<string>): (cs: seq<Candidate>)
    ensures |cs| <= |entries|
  {
    FilterMap(ParseEntry, entries)
  }

  /**
   * Each entry contributes, at its own place, its parsed candidate when it
   * is usable and nothing otherwise: the candidates are the usable entries,
   * in `srcset` order.
   */
  lemma CandidatesInOrder(a: seq<string>, entry: string, b: seq<string>)
    ensures Candidates(a + [entry] + b) ==
      Candidates(a) + (if ParseEntry(entry).Some? then [ParseEntry(entry).value] else []) + Candidates(b)
  {
    FilterMapInOrder(ParseEntry, a, entry, b);
  }

  /** An element contributes its value, if any, at its own place. */
  lemma FilterMapInOrder<A, B>(f: A -> Option<B>, a: seq<A>, x: A, b: seq<A>)
    ensures FilterMap(f, a + [x] + b) ==
      FilterMap(f, a) + (if f(x).Some? then [f(x).value] else []) + FilterMap(f, b)
  {
    FilterMapAppend(f, a + [x], b);
    FilterMapAppend(f, a, [x]);
    assert [x][1..] == [];
  }

  /**
   * The scan over the candidates that keeps the URL of the widest one seen so
   * far, replacing it only on a strictly larger width.
   */
  function Widest(cs: seq<Candidate>, best: string, maxWidth: nat): string {
    if cs == [] then best
    else if cs[0].width > maxWidth then Widest(cs[1..], cs[0].url, cs[0].width)
    else Widest(cs[1..], best, maxWidth)
  }

  /** `k` is the first candidate of greatest width. */
  ghost predicate FirstWidest(cs: seq<Candidate>, k: int) {
    && 0 <= k < |cs|
    && (forall j :: 0 <= j < |cs| ==> cs[j].width <= cs[k].width)
    && (forall j :: 0 <= j < k ==> cs[j].width < cs[k].width)
  }

  /** No candidate wider than `maxWidth`: the scan keeps what it had. */
  lemma {:induction false} WidestKeepsBest(cs: seq<Candidate>, best: string, maxWidth: nat)
    requires forall j :: 0 <= j < |cs| ==> cs[j].width <= maxWidth
    ensures Widest(cs, best, maxWidth) == best
  {
    if cs != [] {
      WidestKeepsBest(cs[1..], best, maxWidth);
    }
  }

  /**
   * A candidate wider than `maxWidth`: the scan ends with the URL of the first
   * candidate of greatest width (ties go to the earliest).
   */
  lemma {:induction false} WidestPicksFirstWidest(cs: seq<Candidate>, best: string, maxWidth: nat, k: int)
    requires FirstWidest(cs, k) && cs[k].width > maxWidth
    ensures Widest(cs, best, maxWidth) == cs[k].url
  {
    if k == 0 {
      WidestKeepsBest(cs[1..], cs[0].url, cs[0].width);
    } else if cs[0].width > maxWidth {
      WidestPicksFirstWidest(cs[1..], cs[0].url, cs[0].width, k - 1);
    } else {
      WidestPicksFirstWidest(cs[1..], best, maxWidth, k - 1);
    }
  }

  /** The scan returns a non-empty URL when it starts from one and every candidate URL is non-empty. */
  lemma {:induction false} WidestNonEmpty(cs: seq<Candidate>, best: string, maxWidth: nat)
    requires best != []
    requires forall j :: 0 <= j < |cs| ==> cs[j].url != []
    ensures Widest(cs, best, maxWidth) != []
  {
    if cs != [] {
      if cs[0].width > maxWidth {
        WidestNonEmpty(cs[1..], cs[0].url, cs[0].width);
      } else {
        WidestNonEmpty(cs[1..], best, maxWidth);
      }
    }
  }

  // ---------------------------------------------------------------------------
  // the URL to download

  /**
   * The URL the page script downloads for an element: a `data:` src as it
   * is; else `data-src`, else `data-original`, else the widest `srcset`
   * candidate (the src when none is usable); else the src. It is never empty
   * when the src is not.
   */
  function FullResolutionUrl(el: ImageElement): (url: string)
    ensures StartsWith(el.src, "data:") ==> url == el.src
    ensures !StartsWith(el.src, "data:") && el.dataSrc != "" ==> url == el.dataSrc
    ensures !StartsWith(el.src, "data:") && el.dataSrc == "" && el.dataOriginal != "" ==> url == el.dataOriginal
    ensures el.src != "" ==> url != ""
  {
    if StartsWith(el.src, "data:") then el.src
    else if el.dataSrc != "" then el.dataSrc
    else if el.dataOriginal != "" then el.dataOriginal
    else if el.srcset != "" then SrcsetChoice(el.srcset, el.src)
    else el.src
  }

  /** The widest-candidate scan over a non-empty `srcset`, started from the src and width 0. */
  function SrcsetChoice(srcset: string, src: string): (url: string)
    ensures src != "" ==> url != ""
  {
    var cs := Candidates(Split(srcset, ','));
    if src != "" then WidestNonEmpty(cs, src, 0); Widest(cs, src, 0)
    else Widest(cs, src, 0)
  }

  /** Some candidate is of greatest width, and a first one of them exists. */
  lemma {:induction false} FirstWidestExists(cs: seq<Candidate>) returns (k: int)
    requires cs != []
    ensures FirstWidest(cs, k)
  {
    if |cs| == 1 {
      k := 0;
    } else {
      var j := FirstWidestExists(cs[1..]);
      if cs[0].width >= cs[j + 1].width {
        k := 0;
      } else {
        k := j + 1;
        forall i | 0 <= i < k ensures cs[i].width < cs[k].width {
          if i > 0 {
            assert cs[i] == cs[1..][i - 1];
          }
        }
      }
    }
  }

  /**
   * The `srcset` choice, starting from the src and width 0: the URL of the
   * first widest candidate when some candidate has a width above 0, the src
   * otherwise.
   */
  lemma WidestChoice(cs: seq<Candidate>, src: string)
    ensures forall k :: FirstWidest(cs, k) && cs[k].width > 0 ==> Widest(cs, src, 0) == cs[k].url
    ensures (exists j :: 0 <= j < |cs| && cs[j].width > 0) ==>
      exists k :: FirstWidest(cs, k) && Widest(cs, src, 0) == cs[k].url
    ensures (forall j :: 0 <= j < |cs| ==> cs[j].width == 0) ==> Widest(cs, src, 0) == src
  {
    forall k | FirstWidest(cs, k) && cs[k].width > 0 ensures Widest(cs, src, 0) == cs[k].url {
      WidestPicksFirstWidest(cs, src, 0, k);
    }
    if exists j :: 0 <= j < |cs| && cs[j].width > 0 {
      var j :| 0 <= j < |cs| && cs[j].width > 0;
      var k := FirstWidestExists(cs);
      assert cs[k].width >= cs[j].width;
      WidestPicksFirstWidest(cs, src, 0, k);
    }
    if forall j :: 0 <= j < |cs| ==> cs[j].width == 0 {
      WidestKeepsBest(cs, src, 0);
    }
  }

  /**
   * Without a `data:` src, `data-src` or `data-original`: an empty `srcset`
   * gives the src, and any other the result of the widest-candidate scan
   * started from the src and width 0 (see `WidestChoice`).
   */
  lemma SrcsetUrl(el: ImageElement)
    requires !StartsWith(el.src, "data:") && el.dataSrc == "" && el.dataOriginal == ""
    ensures el.srcset == "" ==> FullResolutionUrl(el) == el.src
    ensures el.srcset != "" ==> FullResolutionUrl(el) == Widest(Candidates(Split(el.srcset, ',')), el.src, 0)
  {
  }

  /**
   * One entry of the scan, as `getFullResolutionImageUrl` reads it: trimmed,
   * split on spaces, at least two parts, a width descriptor in the second,
   * and a width larger than the best so far replaces the best.
   */
  lemma ScanStep(entries: seq<string>, i: int, best: string, maxWidth: nat)
    requires 0 <= i < |entries|
    ensures var parts := Split(Trim(entries[i]), ' ');
      var rest := Candidates(entries[i + 1..]);
      Widest(Candidates(entries[i..]), best, maxWidth) ==
        if |parts| >= 2 && ParseWidth(parts[1]).Some? && ParseWidth(parts[1]).value > maxWidth
        then Widest(rest, parts[0], ParseWidth(parts[1]).value)
        else Widest(rest, best, maxWidth)
  {
    assert entries[i..][1..] == entries[i + 1..];
    var rest := Candidates(entries[i + 1..]);
    match ParseEntry(entries[i])
    case Some(c) =>
      assert Candidates(entries[i..]) == [c] + rest;
      assert ([c] + rest)[1..] == rest;
    case None =>
      assert Candidates(entries[i..]) == rest;
  }

  /**
   * The `srcset` scan of `getFullResolutionImageUrl`: over the comma-separated
   * entries, keep the URL of the strictly widest usable entry, starting from
   * the element's src and width 0.
   */
  method ScanSrcset(srcset: string, src: string) returns (bestSrc: string)
    ensures bestSrc == Widest(Candidates(Split(srcset, ',')), src, 0)
  {
    var entries := Split(srcset, ',');
    var maxWidth: nat := 0;
    bestSrc := src;
    var i := 0;
    assert entries[i..] == entries;
    while i < |entries|
      invariant 0 <= i <= |entries|
      invariant Widest(Candidates(entries[i..]), bestSrc, maxWidth) == Widest(Candidates(entries), src, 0)
    {
      ScanStep(entries, i, bestSrc, maxWidth);
      ghost var rest := Candidates(entries[i + 1..]);
      var parts := Split(Trim(entries[i]), ' ');
      if |parts| >= 2 {
        var url := parts[0];
        var widthMatch := ParseWidth(parts[1]);
        if widthMatch.Some? {
          var width := widthMatch.value;
          if width > maxWidth {
            maxWidth := width;
            bestSrc := url;
          }
        }
      }
      assert Widest(rest, bestSrc, maxWidth) == Widest(Candidates(entries), src, 0);
      i := i + 1;
    }
  }

  /** `getFullResolutionImageUrl` without its Google Images branch. */
  method GetFullResolutionImageUrl(el: ImageElement) returns (imageUrl: string)
    ensures imageUrl == FullResolutionUrl(el)
  {
    imageUrl := el.src;
    if StartsWith(imageUrl, "data:") {
      return imageUrl;
    }
    if el.dataSrc != "" {
      imageUrl := el.dataSrc;
    } else if el.dataOriginal != "" {
      imageUrl := el.dataOriginal;
    } else if el.srcset != "" {
      var bestSrc := ScanSrcset(el.srcset, imageUrl);
      if bestSrc != imageUrl {
        imageUrl := bestSrc;
      }
    }
  }

  // ---------------------------------------------------------------------------
  // file name

  /**
   * The base name of a URL: the text after its last '/', cut at the first
   * '?', or "image" when that is empty. It holds neither '/' nor '?'.
   */
  function BaseName(src: string): (base: string)
    ensures base != []
    ensures '/' !in base && '?' !in base
  {
    var segments := Split(src, '/');
    var last := segments[|segments| - 1];
    var beforeQuery := Split(last, '?')[0];
    if beforeQuery == "" then "image" else beforeQuery
  }

  /** The base name is the text after the last '/' up to the first '?', or "image" when that is empty. */
  lemma BaseNameValue(src: string)
    ensures var cut := BeforeFirst(AfterLast(src, '/'), '?');
      BaseName(src) == if cut == "" then "image" else cut
  {
    var segments := Split(src, '/');
    var last := segments[|segments| - 1];
    assert last == AfterLast(src, '/') by {
      SplitLast(src, '/');
    }
    assert Split(last, '?')[0] == BeforeFirst(last, '?') by {
      SplitFirst(last, '?');
    }
  }

  /**
   * The file name given to a selected image: its base name with the last
   * extension replaced by ".png". It always ends in ".png" and holds no '/'
   * and no '?'; `DerivedStem` says what precedes ".png".
   */
  function DeriveFilename(src: string): (name: string)
    ensures EndsWith(name, ".png")
    ensures '/' !in name && '?' !in name
  {
    var base := BaseName(src);
    var stem := StripExtension(base);
    PngAppended(stem, base);
    stem + ".png"
  }

  /**
   * What precedes ".png" in a derived file name: the base name up to the
   * dot of its last extension, or the whole base name when it has none.
   */
  lemma DerivedStem(src: string)
    ensures var name := DeriveFilename(src); var base := BaseName(src); var stem := name[..|name| - 4];
      && |stem| <= |base| && stem == base[..|stem|]
      && (ExtensionAt(base, |stem|) || (stem == base && forall i :: !ExtensionAt(base, i)))
  {
    var base := BaseName(src);
    PngAppended(StripExtension(base), base);
  }

  /** ".png" after a prefix of a name without '/' and '?' gives a name without them, ending in ".png". */
  lemma PngAppended(stem: string, base: string)
    requires |stem| <= |base| && stem == base[..|stem|]
    requires '/' !in base && '?' !in base
    ensures var name := stem + ".png";
      EndsWith(name, ".png") && name[..|name| - 4] == stem && '/' !in name && '?' !in name
  {
    var name := stem + ".png";
    assert name[..|name| - 4] == stem;
    assert name[|name| - 4..] == ".png";
    forall i | 0 <= i < |name| ensures name[i] != '/' && name[i] != '?' {
      if i < |stem| {
        assert name[i] == base[i];
      }
    }
  }

  /** Putting a name under a folder keeps its ending. */
  lemma InFolderKeepsSuffix(folder: string, name: string, suffix: string)
    requires EndsWith(name, suffix)
    ensures EndsWith(Background.InFolder(folder, name), suffix)
  {
    var joined := Background.InFolder(folder, name);
    assert joined[|joined| - |name|..] == name;
    assert joined[|joined| - |suffix|..] == name[|name| - |suffix|..];
  }

  /** A derived file name passes the background's path rule unchanged: it is saved under the folder as it is. */
  lemma DerivedNameKeptByPath(folder: string, src: string)
    ensures Background.DestinationPath(folder, DeriveFilename(src)) == Background.InFolder(folder, DeriveFilename(src))
  {
    var name := DeriveFilename(src);
    InFolderKeepsSuffix(folder, name, ".png");
    PngSuffixLowered(Background.InFolder(folder, name));
  }

  // ---------------------------------------------------------------------------
  // the selection list

  /** Some item of the list has exactly this src (`some(img => img.src === src)`). */
  function HasSrc(items: seq<Item>, src: string): (b: bool)
    ensures b <==> exists i :: 0 <= i < |items| && items[i].src == src
  {
    if items == [] then false
    else if items[0].src == src then true
    else
      var b := HasSrc(items[1..], src);
      assert b ==> exists i :: 0 <= i < |items| && items[i].src == src by {
        if b {
          var i :| 0 <= i < |items[1..]| && items[1..][i].src == src;
          assert items[i + 1].src == src;
        }
      }
      b
  }

  /** No two items of the list share a src. */
  ghost predicate UniqueSrcs(items: seq<Item>) {
    forall i, j :: 0 <= i < j < |items| ==> items[i].src != items[j].src
  }

  /** `items.filter(image => image.src !== src)`: the list without the items of that src, order kept. */
  function WithoutSrc(items: seq<Item>, src: string): (r: seq<Item>)
    ensures |r| <= |items|
    ensures forall x :: x in r <==> x in items && x.src != src
  {
    if items == [] then []
    else (if items[0].src != src then [items[0]] else []) + WithoutSrc(items[1..], src)
  }

  /**
   * Each item is kept, at its own place, exactly when its src differs: the
   * filter keeps the other items in order.
   */
  lemma WithoutSrcInOrder(a: seq<Item>, item: Item, b: seq<Item>, src: string)
    ensures WithoutSrc(a + [item] + b, src) ==
      WithoutSrc(a, src) + (if item.src != src then [item] else []) + WithoutSrc(b, src)
  {
    var one := if item.src != src then [item] else [];
    assert WithoutSrc([item], src) == one by {
      assert [item][1..] == [];
    }
    WithoutSrcAppend(a, [item], src);
    WithoutSrcAppend(a + [item], b, src);
  }

  /** Filtering out a src no item has leaves the list as it is. */
  lemma {:induction false} WithoutAbsentSrc(items: seq<Item>, src: string)
    requires !HasSrc(items, src)
    ensures WithoutSrc(items, src) == items
  {
    if items != [] {
      assert !HasSrc(items[1..], src) && items[0].src != src;
      WithoutAbsentSrc(items[1..], src);
    }
  }

  lemma {:induction false} WithoutSrcAppend(a: seq<Item>, b: seq<Item>, src: string)
    ensures WithoutSrc(a + b, src) == WithoutSrc(a, src) + WithoutSrc(b, src)
  {
    if a != [] {
      assert (a + b)[1..] == a[1..] + b;
      WithoutSrcAppend(a[1..], b, src);
    } else {
      assert a + b == b;
    }
  }

  lemma {:induction false} WithoutSrcUnique(items: seq<Item>, src: string)
    requires UniqueSrcs(items)
    ensures UniqueSrcs(WithoutSrc(items, src))
  {
    if items != [] {
      WithoutSrcUnique(items[1..], src);
      var rest := WithoutSrc(items[1..], src);
      forall x | x in rest ensures x.src != items[0].src {
        var j :| 0 <= j < |items[1..]| && items[1..][j] == x;
        assert items[j + 1] == x;
      }
    }
  }

  /** The item a click adds for an element whose URL is `src`. */
  function NewItem(src: string, el: ImageElement, isDownloaded: Option<bool>): Item {
    Item(src, DeriveFilename(src), el.naturalWidth, el.naturalHeight, el.src, isDownloaded)
  }

  /**
   * A click on an image: if its src is selected, every item of that src
   * goes and nothing else changes; otherwise exactly the new item is
   * appended at the end.
   */
  function Toggle(items: seq<Item>, item: Item): (r: seq<Item>)
    ensures HasSrc(items, item.src) ==>
      && r == WithoutSrc(items, item.src)
      && !HasSrc(r, item.src)
      && forall x :: x in r <==> x in items && x.src != item.src
    ensures !HasSrc(items, item.src) ==> r == items + [item]
  {
    if HasSrc(items, item.src) then WithoutSrc(items, item.src) else items + [item]
  }

  /** Clicking an unselected image twice gives back the original list. */
  lemma ToggleTwice(items: seq<Item>, item: Item)
    requires !HasSrc(items, item.src)
    ensures Toggle(Toggle(items, item), item) == items
  {
    assert HasSrc(items + [item], item.src) by {
      assert (items + [item])[|items|].src == item.src;
    }
    WithoutSrcAppend(items, [item], item.src);
    WithoutAbsentSrc(items, item.src);
    assert WithoutSrc([item], item.src) == [];
  }

  /** A click never makes two selected items share a src. */
  lemma ToggleKeepsUnique(items: seq<Item>, item: Item)
    requires UniqueSrcs(items)
    ensures UniqueSrcs(Toggle(items, item))
  {
    if HasSrc(items, item.src) {
      WithoutSrcUnique(items, item.src);
    }
  }

  /** An element select-all considers: rendered at least 50 by 50. */
  predicate LargeEnough(el: ImageElement) {
    el.width >= 50 && el.height >= 50
  }

  /** The item select-all would add for an element: the new item of its URL, for a large enough element only. */
  function Selectable(el: ImageElement): (x: Option<Item>)
    ensures x.Some? <==> LargeEnough(el)
    ensures x.Some? ==> x.value == NewItem(FullResolutionUrl(el), el, None)
  {
    if LargeEnough(el) then Some(NewItem(FullResolutionUrl(el), el, None)) else None
  }

  /**
   * Select-all on one element, for a rule `pick` saying what an element
   * would add: add that item unless there is none or its URL is already
   * selected.
   */
  function AddIfNew(pick: ImageElement -> Option<Item>, items: seq<Item>, el: ImageElement): seq<Item> {
    match pick(el)
    case None => items
    case Some(x) => if HasSrc(items, x.src) then items else items + [x]
  }

  /** Select-all over the elements in document order, for a rule `pick`. */
  function SelectAllWith(pick: ImageElement -> Option<Item>, items: seq<Item>, els: seq<ImageElement>): seq<Item>
    decreases |els|
  {
    if els == [] then items
    else SelectAllWith(pick, AddIfNew(pick, items, els[0]), els[1..])
  }

  /** Select-all over the page's elements, with the page script's rule `Selectable`. */
  function SelectAllFrom(items: seq<Item>, els: seq<ImageElement>): seq<Item> {
    SelectAllWith(Selectable, items, els)
  }

  /** Select-all only appends: the items selected before stay, in place. */
  lemma {:induction false} SelectAllExtends(pick: ImageElement -> Option<Item>, items: seq<Item>, els: seq<ImageElement>)
    ensures var r := SelectAllWith(pick, items, els); |items| <= |r| && r[..|items|] == items
    decreases |els|
  {
    if els != [] {
      var next := AddIfNew(pick, items, els[0]);
      SelectAllExtends(pick, next, els[1..]);
      var r := SelectAllWith(pick, next, els[1..]);
      assert r[..|items|] == r[..|next|][..|items|];
    }
  }

  /** Select-all never introduces a duplicate src. */
  lemma {:induction false} SelectAllUnique(pick: ImageElement -> Option<Item>, items: seq<Item>, els: seq<ImageElement>)
    requires UniqueSrcs(items)
    ensures UniqueSrcs(SelectAllWith(pick, items, els))
    decreases |els|
  {
    if els != [] {
      var next := AddIfNew(pick, items, els[0]);
      assert UniqueSrcs(next);
      SelectAllUnique(pick, next, els[1..]);
    }
  }

  /** A src present in a list stays present in any extension of it. */
  lemma HasSrcExtended(items: seq<Item>, longer: seq<Item>, src: string)
    requires |items| <= |longer| && longer[..|items|] == items
    requires HasSrc(items, src)
    ensures HasSrc(longer, src)
  {
    var i :| 0 <= i < |items| && items[i].src == src;
    assert longer[i] == longer[..|items|][i];
  }

  /** After select-all, the src of every element that has an item to add is selected. */
  lemma {:induction false} SelectAllCovers(pick: ImageElement -> Option<Item>, items: seq<Item>, els: seq<ImageElement>, k: int)
    requires 0 <= k < |els| && pick(els[k]).Some?
    ensures HasSrc(SelectAllWith(pick, items, els), pick(els[k]).value.src)
    decreases |els|
  {
    var next := AddIfNew(pick, items, els[0]);
    if k == 0 {
      var x := pick(els[0]).value;
      assert HasSrc(next, x.src) by {
        if !HasSrc(items, x.src) {
          assert next == items + [x];
          assert next[|items|].src == x.src;
        }
      }
      SelectAllExtends(pick, next, els[1..]);
      HasSrcExtended(next, SelectAllWith(pick, next, els[1..]), x.src);
    } else {
      assert els[1..][k - 1] == els[k];
      SelectAllCovers(pick, next, els[1..], k - 1);
    }
  }

  /**
   * Select-all adds nothing else: every item after the old selection is
   * the item of some element, and no item before it has its src.
   */
  lemma {:induction false} SelectAllAddsOnlyNew(pick: ImageElement -> Option<Item>, items: seq<Item>, els: seq<ImageElement>, k: int)
    requires |items| <= k < |SelectAllWith(pick, items, els)|
    ensures var r := SelectAllWith(pick, items, els);
      && (exists j :: 0 <= j < |els| && pick(els[j]) == Some(r[k]))
      && !HasSrc(r[..k], r[k].src)
    decreases |els|
  {
    assert els != [];
    var r := SelectAllWith(pick, items, els);
    var next := AddIfNew(pick, items, els[0]);
    assert r == SelectAllWith(pick, next, els[1..]);
    if k < |next| {
      SelectAllExtends(pick, next, els[1..]);
      var x := pick(els[0]).value;
      assert next == items + [x] && k == |items| && !HasSrc(items, x.src);
      assert r[k] == r[..|next|][k] == x;
      assert r[..k] == r[..|next|][..k] == items;
    } else {
      SelectAllAddsOnlyNew(pick, next, els[1..], k);
      var j :| 0 <= j < |els[1..]| && pick(els[1..][j]) == Some(r[k]);
      assert els[1..][j] == els[j + 1];
    }
  }

  /**
   * The page script's select-all: the old selection stays in place; no
   * src is then selected twice; every element at least 50 by 50 has its
   * URL selected; and every item added is the new item of such an element,
   * with a URL not selected before it.
   */
  lemma SelectAllProperties(items: seq<Item>, els: seq<ImageElement>)
    ensures var r := SelectAllFrom(items, els);
      && |items| <= |r| && r[..|items|] == items
      && (UniqueSrcs(items) ==> UniqueSrcs(r))
      && (forall k :: 0 <= k < |els| && LargeEnough(els[k]) ==> HasSrc(r, FullResolutionUrl(els[k])))
      && (forall k :: |items| <= k < |r| ==>
            && (exists j :: 0 <= j < |els| && LargeEnough(els[j]) && r[k] == NewItem(FullResolutionUrl(els[j]), els[j], None))
            && !HasSrc(r[..k], r[k].src))
  {
    var r := SelectAllFrom(items, els);
    SelectAllExtends(Selectable, items, els);
    if UniqueSrcs(items) {
      SelectAllUnique(Selectable, items, els);
    }
    forall k | 0 <= k < |els| && LargeEnough(els[k]) ensures HasSrc(r, FullResolutionUrl(els[k])) {
      SelectAllCovers(Selectable, items, els, k);
    }
    forall k | |items| <= k < |r|
      ensures exists j :: 0 <= j < |els| && LargeEnough(els[j]) && r[k] == NewItem(FullResolutionUrl(els[j]), els[j], None)
      ensures !HasSrc(r[..k], r[k].src)
    {
      SelectAllAddsOnlyNew(Selectable, items, els, k);
    }
  }

  // ---------------------------------------------------------------------------
  // the page script's state

  class Page {
    var selected: seq<Item>
    var enabled: bool
    var downloaded: History

    constructor ()
      ensures selected == [] && enabled && downloaded == map[]
    {
      selected := [];
      enabled := true;
      downloaded := map[];
    }

    /** Start-up: take the stored selection, enabled flag and history, each when stored. */
    method Initialize(storedSelected: Option<seq<Item>>, storedEnabled: Option<bool>, storedHistory: Option<History>)
      modifies this
      ensures selected == storedSelected.GetOr(old(selected))
      ensures enabled == storedEnabled.GetOr(old(enabled))
      ensures downloaded == storedHistory.GetOr(map[])
    {
      if storedSelected.Some? {
        selected := storedSelected.value;
      }
      if storedEnabled.Some? {
        enabled := storedEnabled.value;
      }
      downloaded := storedHistory.GetOr(map[]);
    }

    /**
     * The background's reply to the start-up `getDownloadedImages` request:
     * a history in the reply (an empty one included) replaces the page's;
     * a missing reply or one without a history leaves it as it was.
     */
    method DownloadedImagesReceived(response: Option<History>)
      modifies this`downloaded
      ensures downloaded == response.GetOr(old(downloaded))
      ensures response.Some? ==> forall src :: IsImageDownloaded(src) <==> src in response.value
    {
      if response.Some? {
        downloaded := response.value;
      }
    }

    /** `isImageDownloaded`: the src is a key of the history. */
    predicate IsImageDownloaded(src: string)
      reads this
      ensures IsImageDownloaded(src) <==> src in downloaded
    {
      src in downloaded
    }

    /** `isImageSelected`: some selected item has exactly this src. */
    predicate IsImageSelected(src: string)
      reads this
      ensures IsImageSelected(src) <==> exists i :: 0 <= i < |selected| && selected[i].src == src
    {
      HasSrc(selected, src)
    }

    /** `getSelectedImages`. */
    function SelectedImages(): (items: seq<Item>)
      reads this
      ensures items == selected
    {
      selected
    }

    /**
     * A click on an image's overlay: ignored while the extension is disabled;
     * otherwise the image's URL is toggled in the selection. Only elements at
     * least 50 by 50 get an overlay, which the precondition records; the
     * proof does not depend on it. `el` is the element as it was when its
     * overlay was attached: the overlay fixes the URL then, and the model
     * reads the natural size and the `src` from the same element.
     */
    method Click(el: ImageElement)
      requires LargeEnough(el)
      modifies this`selected
      ensures !enabled ==> selected == old(selected)
      ensures enabled ==>
        var src := FullResolutionUrl(el);
        selected == Toggle(old(selected), NewItem(src, el, Some(src in downloaded)))
    {
      if !enabled {
        return;
      }
      var imgSrc := GetFullResolutionImageUrl(el);
      if IsImageSelected(imgSrc) {
        selected := WithoutSrc(selected, imgSrc);
      } else {
        var filename := DeriveFilename(imgSrc);
        selected := selected + [Item(imgSrc, filename, el.naturalWidth, el.naturalHeight, el.src, Some(IsImageDownloaded(imgSrc)))];
      }
    }

    /**
     * `selectAllImages`: refused while disabled, with nothing changed;
     * otherwise every large enough element whose URL is not yet selected is
     * appended, and the reply counts the whole selection (see
     * `SelectAllProperties` for what this adds and keeps).
     */
    method SelectAll(els: seq<ImageElement>) returns (reply: Reply)
      modifies this`selected
      ensures !enabled ==> selected == old(selected) && reply == Refused("Extension is disabled")
      ensures enabled ==> selected == SelectAllFrom(old(selected), els) && reply == Accepted(|selected|)
    {
      if !enabled {
        return Refused("Extension is disabled");
      }
      var i := 0;
      while i < |els|
        invariant 0 <= i <= |els|
        invariant SelectAllFrom(selected, els[i..]) == SelectAllFrom(old(selected), els)
      {
        assert els[i..][1..] == els[i + 1..];
        var el := els[i];
        if LargeEnough(el) {
          var imgSrc := GetFullResolutionImageUrl(el);
          if !IsImageSelected(imgSrc) {
            var filename := DeriveFilename(imgSrc);
            selected := selected + [Item(imgSrc, filename, el.naturalWidth, el.naturalHeight, el.src, None)];
          }
        }
        i := i + 1;
      }
      return Accepted(|selected|);
    }

    /** `clearSelectedImages`. */
    method ClearSelected()
      modifies this`selected
      ensures selected == []
    {
      selected := [];
    }

    /** `updateSelectedImages`: the supplied list replaces the selection; none supplied clears it. */
    method UpdateSelected(images: Option<seq<Item>>)
      modifies this`selected
      ensures selected == images.GetOr([])
    {
      selected := images.GetOr([]);
    }

    /** `setExtensionState`. */
    method SetExtensionState(on: bool)
      modifies this`enabled
      ensures enabled == on
    {
      enabled := on;
    }

    /** `historyCleared`. */
    method HistoryCleared()
      modifies this`downloaded
      ensures downloaded == map[]
    {
      downloaded := map[];
    }

    /** `historyImported`. */
    method HistoryImported(history: History)
      modifies this`downloaded
      ensures downloaded == history
    {
      downloaded := history;
    }
  }
}
