/**
 * The save path of the sports-management page (src/pages/sports_management.py): the guard against
 * empty names, then strip, drop exact duplicates keeping the first, and sort by name.
 */
module SportsList {
  import opened Wrappers
  import opened Lexicographic

  /** The characters Python's `str.strip()` removes: those for which `str.isspace()` holds. */
  predicate IsSpace(c: char) {
    || ('\t' <= c <= '\r') || ('\U{1c}' <= c <= '\U{1f}') || c == ' ' || c == '\U{85}' || c == '\U{a0}'
    || c == '\U{1680}' || ('\U{2000}' <= c <= '\U{200a}') || c == '\U{2028}' || c == '\U{2029}'
    || c == '\U{202f}' || c == '\U{205f}' || c == '\U{3000}'
  }

  /** Every character of `s` in positions [lo, hi) is whitespace. */
  predicate SpaceBetween(s: string, lo: int, hi: int)
    requires 0 <= lo <= hi <= |s|
  {
    forall k :: lo <= k < hi ==> IsSpace(s[k])
  }

  predicate AllSpace(s: string) {
    SpaceBetween(s, 0, |s|)
  }

  /** Neither the first nor the last character is whitespace. */
  predicate Trimmed(s: string) {
    s == [] || (!IsSpace(s[0]) && !IsSpace(s[|s| - 1]))
  }

  /** The first position at or after `i` that does not hold whitespace, or |s|. */
  function SkipSpace(s: string, i: nat): (j: nat)
    requires i <= |s|
    ensures i <= j <= |s| && SpaceBetween(s, i, j) && (j == |s| || !IsSpace(s[j]))
    decreases |s| - i
  {
    if i == |s| || !IsSpace(s[i]) then i else SkipSpace(s, i + 1)
  }

  /** The last position at or before `j`, down to `lo`, with no whitespace just before it. */
  function SkipSpaceBack(s: string, lo: nat, j: nat): (i: nat)
    requires lo <= j <= |s|
    ensures lo <= i <= j && SpaceBetween(s, i, j) && (i == lo || !IsSpace(s[i - 1]))
    decreases j - lo
  {
    if j == lo || !IsSpace(s[j - 1]) then j else SkipSpaceBack(s, lo, j - 1)
  }

  /** `str.strip()`: the slice left once leading and trailing whitespace is removed. */
  function Strip(s: string): (r: string)
    ensures Trimmed(r)
    ensures exists a, b :: 0 <= a <= b <= |s| && r == s[a..b] && SpaceBetween(s, 0, a) && SpaceBetween(s, b, |s|)
  {
    var a := SkipSpace(s, 0);
    var b := SkipSpaceBack(s, a, |s|);
    s[a..b]
  }

  lemma StripTrimmed(s: string)
    requires Trimmed(s)
    ensures Strip(s) == s
  {
  }

  lemma StripAllSpace(s: string)
    requires AllSpace(s)
    ensures Strip(s) == ""
  {
  }

  predicate NoDuplicates(s: seq<string>) {
    forall i, j :: 0 <= i < j < |s| ==> s[i] != s[j]
  }

  /** Position of the first occurrence of `x` in `s`. */
  function FirstIndex(s: seq<string>, x: string): (n: nat)
    requires x in s
    ensures n < |s| && s[n] == x && x !in s[..n]
  {
    if s[0] == x then 0
    else
      var n := FirstIndex(s[1..], x);
      assert s[..n + 1] == [s[0]] + s[1..][..n];
      n + 1
  }

  lemma FirstIndexOfPrefix(s: seq<string>, p: nat, x: string)
    requires p <= |s| && x in s[..p]
    ensures x in s && FirstIndex(s, x) == FirstIndex(s[..p], x)
  {
    var n := FirstIndex(s[..p], x);
    var m := FirstIndex(s, x);
    assert s[..p][..n] == s[..n];
  }

  /** `drop_duplicates(keep="first")` on exact string equality: each name is kept at its first
      occurrence, later copies are dropped. */
  function DropDuplicates(s: seq<string>): (r: seq<string>)
    ensures NoDuplicates(r) && |r| <= |s|
    ensures forall x :: x in r <==> x in s
  {
    if s == [] then []
    else
      var init := s[..|s| - 1];
      var x := s[|s| - 1];
      var d := DropDuplicates(init);
      assert forall y :: y in s <==> y in init || y == x by { assert s == init + [x]; }
      if x in d then d else d + [x]
  }

  /** The kept names appear in the order of their first occurrences in the input. */
  lemma {:induction false} DropDuplicatesKeepsFirst(s: seq<string>)
    ensures forall i, j :: 0 <= i < j < |DropDuplicates(s)| ==>
              FirstIndex(s, DropDuplicates(s)[i]) < FirstIndex(s, DropDuplicates(s)[j])
  {
    if s != [] {
      var init := s[..|s| - 1];
      var x := s[|s| - 1];
      var d := DropDuplicates(init);
      DropDuplicatesKeepsFirst(init);
      assert s == init + [x];
      forall i | 0 <= i < |d| ensures d[i] in init && d[i] in s && FirstIndex(s, d[i]) == FirstIndex(init, d[i]) {
        FirstIndexOfPrefix(s, |s| - 1, d[i]);
      }
      if x !in d {
        assert x !in init;
        assert FirstIndex(s, x) == |s| - 1;
        var r := d + [x];
        forall i, j | 0 <= i < j < |r| ensures FirstIndex(s, r[i]) < FirstIndex(s, r[j]) {
          if j < |d| { assert r[i] == d[i] && r[j] == d[j]; }
          else { assert r[i] == d[i]; }
        }
      }
    }
  }

  /** The outcome of pressing Save: rejected, or the name list written back. */
  datatype SaveOutcome = Rejected | Saved(names: seq<string>)

  /** Some name is null or the empty string (checked before any trimming). */
  predicate HasEmptyName(names: seq<Option<string>>) {
    exists i :: 0 <= i < |names| && (names[i].None? || names[i].value == "")
  }

  function StripAll(names: seq<Option<string>>): (r: seq<string>)
    requires forall i :: 0 <= i < |names| ==> names[i].Some?
    ensures |r| == |names| && forall i :: 0 <= i < |names| ==> r[i] == Strip(names[i].value)
  {
    seq(|names|, i requires 0 <= i < |names| => Strip(names[i].value))
  }

  /** The save path: reject an empty table or one with a null or "" name; otherwise strip every name,
      drop exact duplicates keeping the first, and sort by name. */
  function SaveSports(names: seq<Option<string>>): (r: SaveOutcome)
    ensures r.Rejected? <==> |names| == 0 || HasEmptyName(names)
    ensures r.Saved? ==>
      && 0 < |r.names| <= |names|
      && (forall i :: 0 <= i < |r.names| ==> Trimmed(r.names[i]))
      && NoDuplicates(r.names) && Sorted(r.names)
      && (forall x :: x in r.names <==> exists i :: 0 <= i < |names| && names[i].Some? && x == Strip(names[i].value))
  {
    if |names| == 0 || HasEmptyName(names) then Rejected
    else
      var stripped := StripAll(names);
      var unique := DropDuplicates(stripped);
      var sorted := Sort(unique);
      SortKeepsDistinct(unique);
      assert stripped[0] in sorted;
      assert forall x :: x in sorted <==> x in stripped;
      forall x | x in sorted ensures Trimmed(x) && exists i :: 0 <= i < |names| && names[i].Some? && x == Strip(names[i].value) {
        var i :| 0 <= i < |stripped| && stripped[i] == x;
      }
      forall i | 0 <= i < |names| && names[i].Some? ensures Strip(names[i].value) in sorted {
        assert stripped[i] == Strip(names[i].value);
      }
      assert forall i :: 0 <= i < |sorted| ==> Trimmed(sorted[i]) by {
        forall i | 0 <= i < |sorted| ensures Trimmed(sorted[i]) { assert sorted[i] in sorted; }
      }
      Saved(sorted)
  }

  /** Sorting keeps the length and the members. */
  lemma SortKeepsMembers(u: seq<string>)
    ensures |Sort(u)| == |u|
    ensures forall x :: x in Sort(u) <==> x in u
  {
    var r := Sort(u);
    assert |r| == |u| by { assert |multiset(r)| == |multiset(u)|; }
    assert forall x :: x in r <==> x in multiset(r);
    assert forall x :: x in u <==> x in multiset(u);
  }

  /** Sorting a list without duplicates keeps its length, its members and their distinctness. */
  lemma SortKeepsDistinct(u: seq<string>)
    requires NoDuplicates(u)
    ensures |Sort(u)| == |u| && NoDuplicates(Sort(u))
    ensures forall x :: x in Sort(u) <==> x in u
  {
    SortKeepsMembers(u);
    var r := Sort(u);
    forall i, j | 0 <= i < j < |r| ensures r[i] != r[j] {
      NoDuplicatesCountsOne(u, r[i]);
      if r[i] == r[j] {
        TwiceCounted(r, i, j);
      }
    }
  }

  lemma TwiceCounted(r: seq<string>, i: int, j: int)
    requires 0 <= i < j < |r| && r[i] == r[j]
    ensures multiset(r)[r[i]] >= 2
  {
    assert r == r[..i] + [r[i]] + r[i + 1..];
    assert r[j] in r[i + 1..] by { assert r[i + 1..][j - i - 1] == r[j]; }
  }

  lemma NoDuplicatesCountsOne(s: seq<string>, x: string)
    requires NoDuplicates(s)
    ensures multiset(s)[x] <= 1
  {
    if s != [] {
      assert s == [s[0]] + s[1..];
      assert NoDuplicates(s[1..]) by {
        forall i, j | 0 <= i < j < |s| - 1 ensures s[1..][i] != s[1..][j] { assert s[i + 1] != s[j + 1]; }
      }
      NoDuplicatesCountsOne(s[1..], x);
      if s[0] == x { assert x !in s[1..]; }
    }
  }

  // ---- What the save path guarantees ----

  /** The guard looks at the names before trimming: a whitespace-only name passes it and is saved as "". */
  lemma WhitespaceNameSavedEmpty(names: seq<Option<string>>, i: int)
    requires !HasEmptyName(names)
    requires 0 <= i < |names| && names[i].Some? && AllSpace(names[i].value)
    ensures SaveSports(names).Saved? && "" in SaveSports(names).names
  {
    StripAllSpace(names[i].value);
  }

  /** Duplicates are exact and case-sensitive: two names that differ after trimming, such as "Rugby" and
      "rugby", are both kept, the smaller one in code-point order first. */
  lemma CaseSensitiveDuplicates(names: seq<Option<string>>, i: int, j: int)
    requires SaveSports(names).Saved?
    requires 0 <= i < |names| && 0 <= j < |names| && names[i].Some? && names[j].Some?
    requires Strip(names[i].value) != Strip(names[j].value) && LessEq(Strip(names[i].value), Strip(names[j].value))
    ensures var out := SaveSports(names).names;
      exists p, q :: 0 <= p < q < |out| && out[p] == Strip(names[i].value) && out[q] == Strip(names[j].value)
  {
    var r := SaveSports(names);
    var out := r.names;
    var a, b := Strip(names[i].value), Strip(names[j].value);
    assert a in out by { assert 0 <= i < |names| && names[i].Some? && a == Strip(names[i].value); }
    assert b in out by { assert 0 <= j < |names| && names[j].Some? && b == Strip(names[j].value); }
    var p :| 0 <= p < |out| && out[p] == a;
    var q :| 0 <= q < |out| && out[q] == b;
    if q < p {
      assert Sorted(out);
      assert LessEq(out[q], out[p]);
      LessEqAntisymmetric(a, b);
    }
    assert p < q;
  }

  /** Saving a list that holds a whitespace-only name writes "", and saving that result again is rejected. */
  lemma ResaveOfBlankRejected(names: seq<Option<string>>, i: int)
    requires !HasEmptyName(names)
    requires 0 <= i < |names| && names[i].Some? && AllSpace(names[i].value)
    ensures SaveSports(AsCells(SaveSports(names).names)) == Rejected
  {
    WhitespaceNameSavedEmpty(names, i);
    var out := SaveSports(names).names;
    var p :| 0 <= p < |out| && out[p] == "";
    assert AsCells(out)[p] == Some("");
  }

  /** A list with no duplicates is left as it is by `drop_duplicates`. */
  lemma {:induction false} DropDuplicatesOfDistinct(s: seq<string>)
    requires NoDuplicates(s)
    ensures DropDuplicates(s) == s
  {
    if s != [] {
      var init := s[..|s| - 1];
      assert NoDuplicates(init);
      DropDuplicatesOfDistinct(init);
      assert s[|s| - 1] !in init;
      assert s == init + [s[|s| - 1]];
    }
  }

  /** The saved names fed back as the next table (the CSV round trip is not modelled). */
  function AsCells(names: seq<string>): (cells: seq<Option<string>>)
    ensures |cells| == |names| && forall i :: 0 <= i < |names| ==> cells[i] == Some(names[i])
  {
    seq(|names|, i requires 0 <= i < |names| => Some(names[i]))
  }

  /** Saving a saved list again changes nothing, as long as it holds no "" (see ResaveOfBlankRejected). */
  lemma SaveIdempotent(names: seq<Option<string>>)
    requires SaveSports(names).Saved? && "" !in SaveSports(names).names
    ensures SaveSports(AsCells(SaveSports(names).names)) == SaveSports(names)
  {
    var out := SaveSports(names).names;
    var cells := AsCells(out);
    assert !HasEmptyName(cells);
    assert |cells| > 0;
    var stripped := StripAll(cells);
    assert stripped == out by {
      forall i | 0 <= i < |out| ensures stripped[i] == out[i] {
        assert Trimmed(out[i]);
        StripTrimmed(out[i]);
      }
    }
    DropDuplicatesOfDistinct(out);
    SortedUnique(Sort(out), out);
  }
}
