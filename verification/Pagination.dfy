/** Pages of a list. */
module Pagination {
  import opened Common

  datatype PageParams = PageParams(page: Positive, size: Positive)

  function Offset(p: PageParams): nat {
    (p.page - 1) * p.size
  }

  /** `total_pages` of `PageResponse.create`. */
  function TotalPages(total: nat, size: Positive): nat {
    if total == 0 then 0 else (total + size - 1) / size
  }

  function Min(a: nat, b: nat): nat {
    if a < b then a else b
  }

  /** `items[offset : offset + limit]`; a slice stops at the end of the list. */
  function Page<T>(s: seq<T>, p: PageParams): seq<T> {
    s[Min(Offset(p), |s|)..Min(Offset(p) + p.size, |s|)]
  }

  /** The first `n` pages, one after another. */
  function Pages<T>(s: seq<T>, size: Positive, n: nat): seq<T> {
    if n == 0 then [] else Pages(s, size, n - 1) + Page(s, PageParams(n, size))
  }

  /** Where page `n + 1` starts. */
  function Start(n: nat, size: Positive): nat {
    if n == 0 then 0 else Start(n - 1, size) + size
  }

  lemma {:induction false} StartIsProduct(n: nat, size: Positive)
    ensures Start(n, size) == n * size == Offset(PageParams(n + 1, size))
  {
    if n == 0 {
    } else {
      StartIsProduct(n - 1, size);
      assert n * size == (n - 1) * size + size;
    }
  }

  lemma PageIsSlice<T>(s: seq<T>, size: Positive, n: nat)
    ensures Page(s, PageParams(n + 1, size)) == s[Min(Start(n, size), |s|)..Min(Start(n, size) + size, |s|)]
  {
    StartIsProduct(n, size);
  }

  lemma PrefixGrows<T>(s: seq<T>, from: nat, size: nat)
    ensures s[..Min(from, |s|)] + s[Min(from, |s|)..Min(from + size, |s|)] == s[..Min(from + size, |s|)]
  {
  }

  lemma OneMorePage<T>(s: seq<T>, size: Positive, n: nat, before: seq<T>)
    requires before == s[..Min(Start(n, size), |s|)]
    ensures before + Page(s, PageParams(n + 1, size)) == s[..Min(Start(n + 1, size), |s|)]
  {
    PageIsSlice(s, size, n);
    PrefixGrows(s, Start(n, size), size);
  }

  lemma {:induction false} PagesArePrefix<T>(s: seq<T>, size: Positive, n: nat)
    ensures Pages(s, size, n) == s[..Min(Start(n, size), |s|)]
  {
    if n == 0 {
    } else {
      PagesArePrefix(s, size, n - 1);
      OneMorePage(s, size, n - 1, Pages(s, size, n - 1));
    }
  }

  lemma {:induction false} StartGrows(a: nat, b: nat, size: Positive)
    requires a <= b
    ensures Start(a, size) <= Start(b, size)
    decreases b
  {
    if a < b {
      StartGrows(a, b - 1, size);
    }
  }

  /** Enough pages for everything, and not one page more. */
  lemma TotalPagesIsCeiling(total: nat, size: Positive)
    ensures
      var n := TotalPages(total, size);
      total <= Start(n, size) && (n > 0 ==> Start(n - 1, size) < total)
  {
    if total > 0 {
      var n := (total + size - 1) / size;
      assert n * size + (total + size - 1) % size == total + size - 1;
      StartIsProduct(n, size);
    }
  }

  /** Pages 1 to `total_pages` give the whole list once, none of them is empty, and
      every later page is. */
  lemma PagesCoverOnce<T>(s: seq<T>, size: Positive, page: Positive)
    ensures Pages(s, size, TotalPages(|s|, size)) == s
    ensures Page(s, PageParams(page, size)) == [] <==> TotalPages(|s|, size) < page
    ensures |Page(s, PageParams(page, size))| <= size
  {
    var n := TotalPages(|s|, size);
    TotalPagesIsCeiling(|s|, size);
    PagesArePrefix(s, size, n);
    PageIsSlice(s, size, page - 1);
    if page <= n {
      StartGrows(page - 1, n - 1, size);
    } else {
      StartGrows(n, page - 1, size);
    }
  }

  /** Page p holds the items from position (p - 1) * size on: `size` of them, or what is
      left of the list. */
  lemma PageHolds<T>(s: seq<T>, size: Positive, page: Positive)
    ensures
      var from, items := (page - 1) * size, Page(s, PageParams(page, size));
      && |items| == (if |s| < from then 0 else if |s| - from < size then |s| - from else size)
      && forall i :: 0 <= i < |items| ==> from + i < |s| && items[i] == s[from + i]
  {
    PageIsSlice(s, size, page - 1);
    StartIsProduct(page - 1, size);
  }

  /** Where in the list an item of a page stands. */
  lemma OnPage<T>(s: seq<T>, size: Positive, page: Positive, x: T) returns (k: nat)
    requires x in Page(s, PageParams(page, size))
    ensures Start(page - 1, size) <= k < Start(page - 1, size) + size && k < |s| && s[k] == x
  {
    PageIsSlice(s, size, page - 1);
    var items := Page(s, PageParams(page, size));
    var i :| 0 <= i < |items| && items[i] == x;
    k := Start(page - 1, size) + i;
  }

  /** What stands on an earlier page stands earlier in the list. */
  lemma PagesInOrder<T>(s: seq<T>, size: Positive, earlier: Positive, later: Positive, a: T, b: T) returns (i: nat, j: nat)
    requires earlier < later
    requires a in Page(s, PageParams(earlier, size)) && b in Page(s, PageParams(later, size))
    ensures i < j < |s| && s[i] == a && s[j] == b
  {
    i := OnPage(s, size, earlier, a);
    j := OnPage(s, size, later, b);
    StartGrows(earlier, later - 1, size);
    assert Start(earlier, size) == Start(earlier - 1, size) + size;
  }
}
