/**
 * The JavaScript string operations the extension relies on, written out by
 * hand: `startsWith`, `endsWith`, ASCII `toLowerCase`, `trim`, `split` on one
 * character, the extension-stripping replacement `/\.[^/.]+$/`, the
 * `/^(\d+)w$/` width descriptor of a `srcset` entry, and the default
 * (code-unit) string order used by `Array.prototype.sort`.
 */
module Text {
  import opened Types

  predicate StartsWith(s: string, prefix: string) {
    |prefix| <= |s| && s[..|prefix|] == prefix
  }

  predicate EndsWith(s: string, suffix: string) {
    |suffix| <= |s| && s[|s| - |suffix|..] == suffix
  }

  /** `toLowerCase` on one character, for the ASCII letters. */
  function LowerChar(c: char): char {
    if 'A' <= c <= 'Z' then (c as int - 'A' as int + 'a' as int) as char else c
  }

  function Lower(s: string): (r: string)
    ensures |r| == |s|
    ensures forall i :: 0 <= i < |s| ==> r[i] == LowerChar(s[i])
  {
    seq(|s|, i requires 0 <= i < |s| => LowerChar(s[i]))
  }

  /** `s.toLowerCase().endsWith('.png')`. */
  predicate EndsWithPng(s: string) {
    EndsWith(Lower(s), ".png")
  }

  /** A string ending in lower-case ".png" still ends in ".png" once lower-cased. */
  lemma PngSuffixLowered(s: string)
    requires EndsWith(s, ".png")
    ensures EndsWithPng(s)
  {
    var tail := Lower(s)[|s| - 4..];
    assert forall i :: 0 <= i < 4 ==> tail[i] == LowerChar(s[|s| - 4 + i]) == s[|s| - 4 + i];
    assert tail == s[|s| - 4..];
  }

  // ---------------------------------------------------------------------------
  // s.replace(/\.[^/.]+$/, "")

  /** Length of the longest suffix of `s` that holds neither '.' nor '/'. */
  function PlainTail(s: string): (n: nat)
    ensures n <= |s|
    ensures forall j :: |s| - n <= j < |s| ==> s[j] != '.' && s[j] != '/'
    ensures n < |s| ==> s[|s| - n - 1] == '.' || s[|s| - n - 1] == '/'
  {
    if s == [] || s[|s| - 1] == '.' || s[|s| - 1] == '/' then 0
    else PlainTail(s[..|s| - 1]) + 1
  }

  /**
   * The pattern `/\.[^/.]+$/` matches `s` from index `i`: a dot, then at least
   * one character, none of them a dot or a slash, up to the end.
   */
  ghost predicate ExtensionAt(s: string, i: int) {
    0 <= i < |s| - 1 && s[i] == '.' &&
    forall j :: i < j < |s| ==> s[j] != '.' && s[j] != '/'
  }

  /**
   * `s.replace(/\.[^/.]+$/, "")`: the result is a prefix of `s`; either the
   * pattern matches exactly where the result stops (so the match is removed),
   * or the pattern matches nowhere and `s` is returned unchanged.
   */
  function StripExtension(s: string): (r: string)
    ensures |r| <= |s| && r == s[..|r|]
    ensures ExtensionAt(s, |r|) || (r == s && forall i :: !ExtensionAt(s, i))
  {
    var n := PlainTail(s);
    if 0 < n < |s| && s[|s| - n - 1] == '.' then s[..|s| - n - 1]
    else
      assert forall i :: !ExtensionAt(s, i);
      s
  }

  // ---------------------------------------------------------------------------
  // split and join on one separator character

  /** `parts.join(sep)`. */
  function Join(parts: seq<string>, sep: char): string {
    if |parts| == 0 then ""
    else if |parts| == 1 then parts[0]
    else parts[0] + [sep] + Join(parts[1..], sep)
  }

  /**
   * `s.split(sep)`: at least one part, no part holds the separator, and
   * joining the parts with the separator gives `s` back.
   */
  function Split(s: string, sep: char): (parts: seq<string>)
    ensures |parts| >= 1
    ensures forall k :: 0 <= k < |parts| ==> sep !in parts[k]
    ensures Join(parts, sep) == s
    ensures s != [] && s[0] != sep ==> parts[0] != [] && parts[0][0] == s[0]
  {
    if s == [] then [""]
    else
      var rest := Split(s[1..], sep);
      if s[0] == sep then
        assert Join([""] + rest, sep) == [sep] + Join(rest, sep) by {
          assert ([""] + rest)[1..] == rest;
        }
        [""] + rest
      else
        var parts := [[s[0]] + rest[0]] + rest[1..];
        assert Join(parts, sep) == [s[0]] + Join(rest, sep) by {
          if |rest| > 1 {
            assert parts[1..] == rest[1..];
          }
        }
        parts
  }

  /**
   * The text before the first `sep` of `s` (all of `s` when there is none):
   * a prefix of `s` without `sep`, followed by `sep` unless it is all of `s`.
   */
  function BeforeFirst(s: string, sep: char): (t: string)
    ensures |t| <= |s| && t == s[..|t|] && sep !in t
    ensures t == s || s[|t|] == sep
  {
    if s == [] || s[0] == sep then [] else [s[0]] + BeforeFirst(s[1..], sep)
  }

  /**
   * The text after the last `sep` of `s` (all of `s` when there is none):
   * a suffix of `s` without `sep`, preceded by `sep` unless it is all of `s`.
   */
  function AfterLast(s: string, sep: char): (t: string)
    ensures |t| <= |s| && t == s[|s| - |t|..] && sep !in t
    ensures t == s || (|t| < |s| && s[|s| - |t| - 1] == sep)
  {
    if s == [] || s[|s| - 1] == sep then []
    else
      var t := AfterLast(s[..|s| - 1], sep);
      assert s[..|s| - 1][|s| - 1 - |t|..] + [s[|s| - 1]] == s[|s| - |t| - 1..];
      t + [s[|s| - 1]]
  }

  /** The first part of `s.split(sep)` is the text before the first `sep`. */
  lemma SplitFirst(s: string, sep: char)
    ensures Split(s, sep)[0] == BeforeFirst(s, sep)
  {
    FirstPartOfJoin(Split(s, sep), sep);
  }

  /** Of parts without the separator, the first is the text before the first separator of their join. */
  lemma FirstPartOfJoin(parts: seq<string>, sep: char)
    requires |parts| >= 1 && forall k :: 0 <= k < |parts| ==> sep !in parts[k]
    ensures parts[0] == BeforeFirst(Join(parts, sep), sep)
  {
    var s := Join(parts, sep);
    var p := parts[0];
    assert |p| <= |s| && p == s[..|p|] && (p == s || s[|p|] == sep) by {
      if |parts| > 1 {
        assert s == p + [sep] + Join(parts[1..], sep);
        assert s[..|p|] == p;
      }
    }
  }

  /** The last part of `s.split(sep)` is the text after the last `sep`. */
  lemma SplitLast(s: string, sep: char)
    ensures var parts := Split(s, sep); parts[|parts| - 1] == AfterLast(s, sep)
  {
    LastPartOfJoin(Split(s, sep), sep);
  }

  /** Of parts without the separator, the last is the text after the last separator of their join. */
  lemma LastPartOfJoin(parts: seq<string>, sep: char)
    requires |parts| >= 1 && forall k :: 0 <= k < |parts| ==> sep !in parts[k]
    ensures parts[|parts| - 1] == AfterLast(Join(parts, sep), sep)
  {
    var s := Join(parts, sep);
    var t := AfterLast(s, sep);
    var p := parts[|parts| - 1];
    JoinLast(parts, sep);
    NoLongerThanLast(s, sep, p, t);
    NoLongerThanLast(s, sep, t, p);
    assert p == s[|s| - |p|..] == t;
  }

  /**
   * A suffix of `s` without `sep` is no longer than a suffix that is all of
   * `s` or that `sep` precedes.
   */
  lemma NoLongerThanLast(s: string, sep: char, p: string, t: string)
    requires |p| <= |s| && p == s[|s| - |p|..] && sep !in p
    requires |t| <= |s| && t == s[|s| - |t|..]
    requires t == s || (|t| < |s| && s[|s| - |t| - 1] == sep)
    ensures |p| <= |t|
  {
    if t != s {
      forall k | |s| - |p| <= k < |s| ensures s[k] != sep {
        assert s[k] == p[k - (|s| - |p|)];
      }
    }
  }

  /** A join ends with its last part, preceded by the separator when there are several parts. */
  lemma {:induction false} JoinLast(parts: seq<string>, sep: char)
    requires |parts| >= 1
    ensures var s := Join(parts, sep); var p := parts[|parts| - 1];
      && |p| <= |s| && s[|s| - |p|..] == p
      && (|parts| > 1 ==> |p| < |s| && s[|s| - |p| - 1] == sep)
  {
    if |parts| > 1 {
      JoinLast(parts[1..], sep);
      var rest := Join(parts[1..], sep);
      assert Join(parts, sep) == parts[0] + [sep] + rest;
      if |parts| == 2 {
        assert rest == parts[1];
      }
    }
  }

  // ---------------------------------------------------------------------------
  // trim

  /** The characters `trim` removes (the ASCII whitespace characters). */
  predicate IsSpace(c: char) {
    c == ' ' || c == '\t' || c == '\n' || c == '\r' || c == '\U{000B}' || c == '\U{000C}'
  }

  function TrimStart(s: string): (r: string)
    ensures |r| <= |s| && r == s[|s| - |r|..]
    ensures forall j :: 0 <= j < |s| - |r| ==> IsSpace(s[j])
    ensures r != [] ==> !IsSpace(r[0])
  {
    if s != [] && IsSpace(s[0]) then TrimStart(s[1..]) else s
  }

  function TrimEnd(s: string): (r: string)
    ensures |r| <= |s| && r == s[..|r|]
    ensures forall j :: |r| <= j < |s| ==> IsSpace(s[j])
    ensures r != [] ==> !IsSpace(r[|r| - 1])
  {
    if s != [] && IsSpace(s[|s| - 1]) then TrimEnd(s[..|s| - 1]) else s
  }

  /** `r` is the slice of `s` from `a` on, with only whitespace before and after it. */
  ghost predicate CutAround(s: string, a: int, r: string) {
    && 0 <= a <= |s| - |r| && r == s[a..a + |r|]
    && (forall j :: 0 <= j < a ==> IsSpace(s[j]))
    && (forall j :: a + |r| <= j < |s| ==> IsSpace(s[j]))
  }

  /**
   * `s.trim()`: a slice of `s` with only whitespace cut away before and
   * after it, that neither starts nor ends with whitespace.
   */
  function Trim(s: string): (r: string)
    ensures |r| <= |s|
    ensures exists a :: CutAround(s, a, r)
    ensures r != [] ==> !IsSpace(r[0]) && !IsSpace(r[|r| - 1])
  {
    TrimCut(s);
    TrimEnd(TrimStart(s))
  }

  /** Trimming the end of what trimming the start left is a slice of `s` with only whitespace around it. */
  lemma TrimCut(s: string)
    ensures CutAround(s, |s| - |TrimStart(s)|, TrimEnd(TrimStart(s)))
  {
    var t := TrimStart(s);
    var r := TrimEnd(t);
    SliceCut(s, |s| - |t|, t, r);
  }

  /**
   * A prefix `r` of the suffix `t` of `s` from `a` on, with only whitespace
   * before `a` and after `r` in `t`, is a slice of `s` with only whitespace
   * around it.
   */
  lemma SliceCut(s: string, a: int, t: string, r: string)
    requires 0 <= a <= |s| && t == s[a..]
    requires forall j :: 0 <= j < a ==> IsSpace(s[j])
    requires |r| <= |t| && r == t[..|r|]
    requires forall j :: |r| <= j < |t| ==> IsSpace(t[j])
    ensures CutAround(s, a, r)
  {
    assert r == s[a..a + |r|];
    forall j | a + |r| <= j < |s| ensures IsSpace(s[j]) {
      assert s[j] == t[j - a];
    }
  }

  // ---------------------------------------------------------------------------
  // /^(\d+)w$/ and parseInt(digits, 10)

  predicate IsDigit(c: char) {
    '0' <= c <= '9'
  }

  predicate AllDigits(s: string) {
    forall i :: 0 <= i < |s| ==> IsDigit(s[i])
  }

  /** The decimal value of a string of digits. */
  function DecimalValue(d: string): nat
    requires AllDigits(d)
  {
    if d == [] then 0
    else DecimalValue(d[..|d| - 1]) * 10 + (d[|d| - 1] as int - '0' as int)
  }

  /**
   * A `srcset` width descriptor: one or more digits followed by 'w', read as
   * a decimal number; anything else is no descriptor.
   */
  function ParseWidth(t: string): (w: Option<nat>)
    ensures w.Some? <==> |t| >= 2 && t[|t| - 1] == 'w' && AllDigits(t[..|t| - 1])
    ensures w.Some? ==> w.value == DecimalValue(t[..|t| - 1])
  {
    if |t| >= 2 && t[|t| - 1] == 'w' && AllDigits(t[..|t| - 1]) then Some(DecimalValue(t[..|t| - 1]))
    else None
  }

  // ---------------------------------------------------------------------------
  // the default order of Array.prototype.sort on strings

  /** `a` sorts no later than `b`: `a` is a prefix of `b`, or is smaller at the first difference. */
  predicate StrLe(a: string, b: string) {
    a == [] || (b != [] && (a[0] < b[0] || (a[0] == b[0] && StrLe(a[1..], b[1..]))))
  }

  predicate StrLt(a: string, b: string) {
    StrLe(a, b) && a != b
  }

  lemma {:induction false} StrLeTotal(a: string, b: string)
    ensures StrLe(a, b) || StrLe(b, a)
  {
    if a != [] && b != [] && a[0] == b[0] {
      StrLeTotal(a[1..], b[1..]);
    }
  }

  lemma {:induction false} StrLeTransitive(a: string, b: string, c: string)
    requires StrLe(a, b) && StrLe(b, c)
    ensures StrLe(a, c)
  {
    if a != [] && b != [] && c != [] && a[0] == b[0] == c[0] {
      StrLeTransitive(a[1..], b[1..], c[1..]);
    }
  }

  /** `m` is the first of `s` in sort order. */
  ghost predicate IsLeast(m: string, s: set<string>) {
    m in s && forall x :: x in s ==> StrLe(m, x)
  }

  /** Every finite non-empty set of strings has a least element. */
  lemma {:induction false} LeastExists(s: set<string>)
    requires s != {}
    ensures exists m :: IsLeast(m, s)
  {
    var y :| y in s;
    var rest := s - {y};
    StrLeTotal(y, y);
    if rest == {} {
      assert s == {y};
      assert IsLeast(y, s);
    } else {
      LeastExists(rest);
      var m :| IsLeast(m, rest);
      StrLeTotal(m, y);
      if StrLe(m, y) {
        assert IsLeast(m, s);
      } else {
        forall x | x in s ensures StrLe(y, x) {
          if x != y {
            StrLeTransitive(y, m, x);
          }
        }
        assert IsLeast(y, s);
      }
    }
  }
}
