/**
 * The range resolver of the chapter splitter (`calculate_page_ranges`).
 *
 * It sorts the caller's bookmark list in place by page index (a stable sort),
 * then gives each bookmark the pages from its own start up to just before the
 * next bookmark's start; the last bookmark runs to the end of the document.
 * A non-last bookmark whose range would be empty is dropped; the last one is
 * always kept. Page numbers in a section are 1-based and inclusive.
 */
module Ranges {
  import opened Seqs

  /** A bookmark that survived the page-index filter. */
  datatype Bookmark = Bookmark(title: string, pageIndex: int, fullPath: string)

  /** A resolved section: 1-based, inclusive page numbers. */
  datatype Section = Section(name: string, fullPath: string, startPage: int, endPage: int)

  predicate SortedByPage(s: seq<Bookmark>)
  {
    forall i, j :: 0 <= i < j < |s| ==> s[i].pageIndex <= s[j].pageIndex
  }

  /** The bookmarks of `s` that point at page `p`, in their order in `s`. */
  function AtPage(s: seq<Bookmark>, p: int): seq<Bookmark>
  {
    if s == [] then []
    else AtPage(s[..|s| - 1], p) + (if s[|s| - 1].pageIndex == p then [s[|s| - 1]] else [])
  }

  /** The page indices that occur in `s`. */
  function PageSet(s: seq<Bookmark>): set<int>
  {
    set b | b in s :: b.pageIndex
  }

  // ---------------------------------------------------------------------------
  // The stable sort
  // ---------------------------------------------------------------------------

  /** One insertion step: `b` goes after the last element of `s`, searching
      from the right, whose page index does not exceed its own. */
  function Insert(s: seq<Bookmark>, b: Bookmark): seq<Bookmark>
  {
    if s == [] || s[|s| - 1].pageIndex <= b.pageIndex then s + [b]
    else Insert(s[..|s| - 1], b) + [s[|s| - 1]]
  }

  /** `s` sorted by page index, bookmarks on the same page kept in their order. */
  function SortByPage(s: seq<Bookmark>): seq<Bookmark>
  {
    if s == [] then [] else Insert(SortByPage(s[..|s| - 1]), s[|s| - 1])
  }

  lemma {:induction false} InsertPermutes(s: seq<Bookmark>, b: Bookmark)
    ensures multiset(Insert(s, b)) == multiset(s) + multiset{b}
  {
    if s == [] || s[|s| - 1].pageIndex <= b.pageIndex {
    } else {
      InsertPermutes(s[..|s| - 1], b);
      assert s == s[..|s| - 1] + [s[|s| - 1]];
    }
  }

  lemma {:induction false} InsertSorted(s: seq<Bookmark>, b: Bookmark)
    requires SortedByPage(s)
    ensures SortedByPage(Insert(s, b))
  {
    if s == [] || s[|s| - 1].pageIndex <= b.pageIndex {
    } else {
      var init, last := s[..|s| - 1], s[|s| - 1];
      InsertSorted(init, b);
      InsertPermutes(init, b);
      var t := Insert(init, b);
      forall k | 0 <= k < |t|
        ensures t[k].pageIndex <= last.pageIndex
      {
        assert t[k] in multiset(t);
        assert t[k] in multiset(init) || t[k] == b;
      }
    }
  }

  lemma {:induction false} AtPageInsert(s: seq<Bookmark>, b: Bookmark, p: int)
    ensures AtPage(Insert(s, b), p) == AtPage(s, p) + (if b.pageIndex == p then [b] else [])
  {
    if s == [] || s[|s| - 1].pageIndex <= b.pageIndex {
      AtPageSnoc(s, b, p);
    } else {
      var init, last := s[..|s| - 1], s[|s| - 1];
      var inserted := Insert(init, b);
      AtPageInsert(init, b, p);
      InsertStep(s, b);
      AtPageSnoc(inserted, last, p);
      var before := AtPage(init, p);
      assert AtPage(s, p) == before + (if last.pageIndex == p then [last] else []);
      if b.pageIndex == p {
        assert last.pageIndex != p;
        AppendEmpty(before);
        AppendEmpty(before + [b]);
      } else {
        AppendEmpty(before);
      }
    }
  }

  lemma InsertStep(s: seq<Bookmark>, b: Bookmark)
    requires s != [] && s[|s| - 1].pageIndex > b.pageIndex
    ensures Insert(s, b) == Insert(s[..|s| - 1], b) + [s[|s| - 1]]
  {
  }

  /** The result of the sort is ordered by page index. */
  lemma {:induction false} SortByPageSorted(s: seq<Bookmark>)
    ensures SortedByPage(SortByPage(s))
  {
    if s != [] {
      SortByPageSorted(s[..|s| - 1]);
      InsertSorted(SortByPage(s[..|s| - 1]), s[|s| - 1]);
    }
  }

  /** The result of the sort is a permutation of its input. */
  lemma {:induction false} SortByPagePermutes(s: seq<Bookmark>)
    ensures multiset(SortByPage(s)) == multiset(s)
  {
    if s != [] {
      var init, last := s[..|s| - 1], s[|s| - 1];
      var sorted := SortByPage(init);
      SortByPagePermutes(init);
      InsertPermutes(sorted, last);
      MultisetDropLast(s);
    }
  }

  /** The sort is stable: the bookmarks on any one page keep their relative order. */
  lemma {:induction false} SortByPageStable(s: seq<Bookmark>, p: int)
    ensures AtPage(SortByPage(s), p) == AtPage(s, p)
  {
    if s != [] {
      SortByPageStable(s[..|s| - 1], p);
      AtPageInsert(SortByPage(s[..|s| - 1]), s[|s| - 1], p);
    }
  }

  lemma {:induction false} AtPageMembers(s: seq<Bookmark>, p: int)
    ensures forall b :: b in AtPage(s, p) ==> b in s && b.pageIndex == p
  {
    if s != [] {
      AtPageMembers(s[..|s| - 1], p);
    }
  }

  lemma AtPageSnoc(s: seq<Bookmark>, x: Bookmark, p: int)
    ensures AtPage(s + [x], p) == AtPage(s, p) + (if x.pageIndex == p then [x] else [])
  {
    assert (s + [x])[..|s|] == s;
  }

  /** A bookmark on page `p` that `t` holds is no later in page order than the
      last element of a page-ordered `u` that agrees with `t` on page `p`. */
  lemma NotAfterLast(t: seq<Bookmark>, u: seq<Bookmark>, x: Bookmark)
    requires u != [] && SortedByPage(u)
    requires x in t && AtPage(t, x.pageIndex) == AtPage(u, x.pageIndex)
    ensures x.pageIndex <= u[|u| - 1].pageIndex
  {
    AtPageHas(t, x);
    AtPageMembers(u, x.pageIndex);
    var w :| w in AtPage(u, x.pageIndex);
    var k :| 0 <= k < |u| && u[k] == w;
    if k < |u| - 1 {
      assert u[k].pageIndex <= u[|u| - 1].pageIndex;
    }
  }

  lemma {:induction false} AtPageHas(s: seq<Bookmark>, x: Bookmark)
    requires x in s
    ensures AtPage(s, x.pageIndex) != []
  {
    var init := s[..|s| - 1];
    assert s == init + [s[|s| - 1]];
    if s[|s| - 1] != x {
      assert x in init;
      AtPageHas(init, x);
    }
  }

  /** The last element of a page-ordered list is the last bookmark of the
      largest page, so two lists that agree page by page end alike. */
  lemma SameLast(t: seq<Bookmark>, u: seq<Bookmark>)
    requires t != [] && u != []
    requires SortedByPage(t) && SortedByPage(u)
    requires forall p :: AtPage(t, p) == AtPage(u, p)
    ensures t[|t| - 1] == u[|u| - 1]
  {
    var x, y := t[|t| - 1], u[|u| - 1];
    assert x in t && y in u;
    assert AtPage(t, x.pageIndex) == AtPage(u, x.pageIndex);
    assert AtPage(u, y.pageIndex) == AtPage(t, y.pageIndex);
    NotAfterLast(t, u, x);
    NotAfterLast(u, t, y);
    var p := x.pageIndex;
    assert y.pageIndex == p;
    SnocLast(AtPage(t[..|t| - 1], p), x, AtPage(u[..|u| - 1], p), y);
  }

  lemma SnocLast(a: seq<Bookmark>, x: Bookmark, b: seq<Bookmark>, y: Bookmark)
    requires a + [x] == b + [y]
    ensures x == y
  {
    assert |a| == |b|;
    assert (a + [x])[|a|] == x && (b + [y])[|b|] == y;
  }

  /** Two page-ordered lists that agree on the order of the bookmarks of every
      page are the same list. */
  lemma {:induction false} SortedUnique(t: seq<Bookmark>, u: seq<Bookmark>)
    requires SortedByPage(t) && SortedByPage(u)
    requires forall p :: AtPage(t, p) == AtPage(u, p)
    ensures t == u
    decreases |t| + |u|
  {
    if t == [] && u == [] {
    } else if t == [] {
      AtPageHas(u, u[|u| - 1]);
      assert false;
    } else if u == [] {
      AtPageHas(t, t[|t| - 1]);
      assert false;
    } else {
      SameLast(t, u);
      var x := t[|t| - 1];
      var t', u' := t[..|t| - 1], u[..|u| - 1];
      assert t == t' + [x] && u == u' + [x];
      forall p
        ensures AtPage(t', p) == AtPage(u', p)
      {
        var ex := if x.pageIndex == p then [x] else [];
        AtPageSnoc(t', x, p);
        AtPageSnoc(u', x, p);
        assert (AtPage(t', p) + ex)[..|AtPage(t', p)|] == AtPage(t', p);
        assert (AtPage(u', p) + ex)[..|AtPage(u', p)|] == AtPage(u', p);
      }
      SortedUnique(t', u');
    }
  }

  /** Any stable sort by page index gives the same list as `SortByPage`: a
      result that is page-ordered and keeps the order within every page is it. */
  lemma StableSortIsSortByPage(s: seq<Bookmark>, t: seq<Bookmark>)
    requires SortedByPage(t)
    requires forall p :: AtPage(t, p) == AtPage(s, p)
    ensures t == SortByPage(s)
  {
    SortByPageSorted(s);
    forall p
      ensures AtPage(SortByPage(s), p) == AtPage(t, p)
    {
      SortByPageStable(s, p);
    }
    SortedUnique(t, SortByPage(s));
  }

  /** Inserting `b` into a list puts it after the last element on a page not
      above its own, that is, before the run of elements on later pages that
      ends the list. */
  lemma {:induction false} InsertSplit(s: seq<Bookmark>, j: int, b: Bookmark)
    requires 0 <= j <= |s|
    requires j == 0 || s[j - 1].pageIndex <= b.pageIndex
    requires forall k :: j <= k < |s| ==> s[k].pageIndex > b.pageIndex
    ensures Insert(s, b) == s[..j] + [b] + s[j..]
    decreases |s|
  {
    if j < |s| {
      var init, last := s[..|s| - 1], s[|s| - 1];
      assert init[..j] == s[..j];
      assert forall k :: j <= k < |init| ==> init[k] == s[k];
      if j > 0 {
        assert init[j - 1] == s[j - 1];
      }
      InsertSplit(init, j, b);
      InsertStep(s, b);
      assert s[j..] == init[j..] + [last];
      AppendAssoc(s[..j] + [b], init[j..], [last]);
    } else {
      assert s[..j] == s && s[j..] == [];
      assert Insert(s, b) == s + [b];
    }
  }

  /** The outcome of one insertion pass, stated on the array's contents
      before (`orig`) and after (`cur`) the pass: the prefix before `j` is
      unchanged, the element from `i` sits at `j`, the elements between moved
      up by one, and the elements after `i` are untouched. */
  lemma InsertPassResult(orig: seq<Bookmark>, cur: seq<Bookmark>, i: int, j: int)
    requires 0 <= j <= i < |orig| == |cur|
    requires j == 0 || orig[j - 1].pageIndex <= orig[i].pageIndex
    requires forall k :: j <= k < i ==> orig[k].pageIndex > orig[i].pageIndex
    requires forall k :: 0 <= k < j ==> cur[k] == orig[k]
    requires cur[j] == orig[i]
    requires forall k :: j < k <= i ==> cur[k] == orig[k - 1]
    requires forall k :: i < k < |cur| ==> cur[k] == orig[k]
    ensures cur[..i + 1] == Insert(orig[..i], orig[i])
    ensures cur[i + 1..] == orig[i + 1..]
  {
    var sorted, x := orig[..i], orig[i];
    InsertSplit(sorted, j, x);
    var r := sorted[..j] + [x] + sorted[j..];
    forall k | 0 <= k <= i
      ensures cur[k] == r[k]
    {
      if k < j {
        assert r[k] == sorted[k];
      } else if k > j {
        assert r[k] == sorted[k - 1];
      }
    }
    assert cur[..i + 1] == r;
  }

  /** One pass of the insertion sort: the element at `i` moves left past every
      element of the sorted prefix with a greater page index. */
  method InsertAt(a: array<Bookmark>, i: int)
    requires 0 <= i < a.Length
    modifies a
    ensures a[..i + 1] == Insert(old(a[..i]), old(a[i]))
    ensures a[i + 1..] == old(a[i + 1..])
  {
    ghost var orig := a[..];
    var x := a[i];
    var j := i;
    while j > 0 && a[j - 1].pageIndex > x.pageIndex
      invariant 0 <= j <= i
      invariant forall k :: 0 <= k < j ==> a[k] == orig[k]
      invariant forall k :: j < k <= i ==> a[k] == orig[k - 1]
      invariant forall k :: i < k < a.Length ==> a[k] == orig[k]
      invariant forall k :: j <= k < i ==> orig[k].pageIndex > x.pageIndex
    {
      a[j] := a[j - 1];
      j := j - 1;
    }
    a[j] := x;
    InsertPassResult(orig, a[..], i, j);
    assert a[..][..i + 1] == a[..i + 1] && a[..][i + 1..] == a[i + 1..];
    assert orig[..i] == old(a[..i]) && orig[i + 1..] == old(a[i + 1..]);
  }

  /** The in-place sort of the caller's list (`outline_info.sort(key=...)`),
      done as a stable insertion sort. */
  method SortInPlace(a: array<Bookmark>)
    modifies a
    ensures a[..] == SortByPage(old(a[..]))
  {
    ghost var orig := a[..];
    var i := 0;
    while i < a.Length
      invariant 0 <= i <= a.Length
      invariant a[..i] == SortByPage(orig[..i])
      invariant a[i..] == orig[i..]
    {
      ghost var pre := a[..];
      assert pre[..i] == SortByPage(orig[..i]);
      assert pre[i] == orig[i] && pre[i + 1..] == orig[i + 1..] by {
        assert pre[i..][0] == pre[i] && pre[i..][1..] == pre[i + 1..];
        assert orig[i..][0] == orig[i] && orig[i..][1..] == orig[i + 1..];
      }
      assert orig[..i + 1][..i] == orig[..i];
      assert SortByPage(orig[..i + 1]) == Insert(SortByPage(orig[..i]), orig[i]);
      InsertAt(a, i);
      assert a[..i + 1] == SortByPage(orig[..i + 1]);
      assert a[i + 1..] == orig[i + 1..];
      i := i + 1;
    }
    assert a[..] == a[..a.Length] && orig == orig[..a.Length];
  }

  // ---------------------------------------------------------------------------
  // The ranges
  // ---------------------------------------------------------------------------

  /** The sections the resolver derives from a list already in page order. */
  function PageRanges(s: seq<Bookmark>, totalPages: int): seq<Section>
  {
    if s == [] then []
    else
      var startIndex := s[0].pageIndex;
      var endIndex := if |s| > 1 then s[1].pageIndex - 1 else totalPages - 1;
      (if startIndex <= endIndex then [Section(s[0].title, s[0].fullPath, startIndex + 1, endIndex + 1)]
       else if |s| == 1 then [Section(s[0].title, s[0].fullPath, startIndex + 1, totalPages)]
       else [])
      + PageRanges(s[1..], totalPages)
  }

  /** What the resolver produces from the suffix at `i`, in the three
      branches of its loop: a section up to the page before the next bookmark
      (or to the last page), the last bookmark's section whatever its range,
      or nothing. */
  lemma RangesAt(info: seq<Bookmark>, i: int, totalPages: int)
    requires 0 <= i < |info|
    ensures var b := info[i];
            var endIndex := if i + 1 < |info| then info[i + 1].pageIndex - 1 else totalPages - 1;
            && (b.pageIndex <= endIndex ==>
                  PageRanges(info[i..], totalPages)
                  == [Section(b.title, b.fullPath, b.pageIndex + 1, endIndex + 1)] + PageRanges(info[i + 1..], totalPages))
            && (b.pageIndex > endIndex && i == |info| - 1 ==>
                  PageRanges(info[i..], totalPages)
                  == [Section(b.title, b.fullPath, b.pageIndex + 1, totalPages)] + PageRanges(info[i + 1..], totalPages))
            && (b.pageIndex > endIndex && i < |info| - 1 ==>
                  PageRanges(info[i..], totalPages) == PageRanges(info[i + 1..], totalPages))
  {
    var t := info[i..];
    assert t[0] == info[i] && t[1..] == info[i + 1..];
    if i + 1 < |info| {
      assert t[1] == info[i + 1];
    }
  }

  /** The loop of the resolver over the sorted list. */
  method SectionsOf(info: seq<Bookmark>, totalPages: int) returns (sections: seq<Section>)
    ensures sections == PageRanges(info, totalPages)
  {
    sections := [];
    for i := 0 to |info|
      invariant sections + PageRanges(info[i..], totalPages) == PageRanges(info, totalPages)
    {
      var item := info[i];
      var startIndex := item.pageIndex;
      var endIndex := totalPages - 1;
      if i + 1 < |info| {
        endIndex := info[i + 1].pageIndex - 1;
      }
      RangesAt(info, i, totalPages);
      if startIndex <= endIndex {
        var section := Section(item.title, item.fullPath, startIndex + 1, endIndex + 1);
        AppendAssoc(sections, [section], PageRanges(info[i + 1..], totalPages));
        sections := sections + [section];
      } else if i == |info| - 1 {
        var section := Section(item.title, item.fullPath, startIndex + 1, totalPages);
        AppendAssoc(sections, [section], PageRanges(info[i + 1..], totalPages));
        sections := sections + [section];
      }
    }
    assert info[|info|..] == [];
  }

  /** `calculate_page_ranges`: sorts the caller's list in place, then resolves it. */
  method CalculatePageRanges(info: array<Bookmark>, totalPages: int) returns (sections: seq<Section>)
    modifies info
    ensures info[..] == SortByPage(old(info[..]))
    ensures sections == PageRanges(info[..], totalPages)
  {
    SortInPlace(info);
    sections := SectionsOf(info[..], totalPages);
  }

  // ---------------------------------------------------------------------------
  // What the resolver guarantees
  // ---------------------------------------------------------------------------

  /** Non-empty input gives non-empty output, and the last section always ends
      at the document's last page. It starts on the last bookmark's page, so it
      is empty (start after end) exactly when that page lies past the end. */
  lemma {:induction false} LastSection(s: seq<Bookmark>, totalPages: int)
    requires s != []
    ensures var r := PageRanges(s, totalPages);
            r != []
            && r[|r| - 1].endPage == totalPages
            && r[|r| - 1].startPage == s[|s| - 1].pageIndex + 1
            && r[|r| - 1].name == s[|s| - 1].title
            && (r[|r| - 1].startPage <= r[|r| - 1].endPage <==> s[|s| - 1].pageIndex < totalPages)
  {
    if |s| > 1 {
      LastSection(s[1..], totalPages);
    }
  }

  /** On a sorted list the first section starts on the first bookmark's page:
      the bookmarks dropped before it share that page. */
  lemma {:induction false} FirstSectionStart(s: seq<Bookmark>, totalPages: int)
    requires s != [] && SortedByPage(s)
    ensures PageRanges(s, totalPages) != [] && PageRanges(s, totalPages)[0].startPage == s[0].pageIndex + 1
  {
    LastSection(s, totalPages);
    if |s| > 1 && s[0].pageIndex > s[1].pageIndex - 1 {
      FirstSectionStart(s[1..], totalPages);
    }
  }

  /** On a sorted list every section starts after the first bookmark's page. */
  lemma {:induction false} StartsFromFirstPage(s: seq<Bookmark>, totalPages: int)
    requires s != [] && SortedByPage(s)
    ensures forall sec :: sec in PageRanges(s, totalPages) ==> sec.startPage >= s[0].pageIndex + 1
  {
    if |s| > 1 {
      StartsFromFirstPage(s[1..], totalPages);
    }
  }

  /** On a sorted list the start pages are strictly increasing. */
  predicate StartsIncreasing(r: seq<Section>)
  {
    forall k, m :: 0 <= k < m < |r| ==> r[k].startPage < r[m].startPage
  }

  predicate EachEndsBeforeNext(r: seq<Section>)
  {
    forall k :: 0 <= k < |r| - 1 ==> r[k].endPage + 1 == r[k + 1].startPage
  }

  lemma {:induction false} StartsIncrease(s: seq<Bookmark>, totalPages: int)
    requires SortedByPage(s)
    ensures StartsIncreasing(PageRanges(s, totalPages))
  {
    if |s| > 1 {
      StartsIncrease(s[1..], totalPages);
      StartsFromFirstPage(s[1..], totalPages);
      var tail := PageRanges(s[1..], totalPages);
      var r := PageRanges(s, totalPages);
      assert s[1..][0] == s[1];
      if s[0].pageIndex <= s[1].pageIndex - 1 {
        var head := Section(s[0].title, s[0].fullPath, s[0].pageIndex + 1, s[1].pageIndex);
        assert r == [head] + tail;
        forall k, m | 0 <= k < m < |r|
          ensures r[k].startPage < r[m].startPage
        {
          assert r[m] == tail[m - 1];
          assert tail[m - 1] in tail;
          if k > 0 { assert r[k] == tail[k - 1]; }
        }
      } else {
        assert r == tail;
      }
    }
  }

  /** On a sorted list each section ends on the page just before the next one
      starts. */
  lemma {:induction false} Contiguous(s: seq<Bookmark>, totalPages: int)
    requires SortedByPage(s)
    ensures EachEndsBeforeNext(PageRanges(s, totalPages))
  {
    if |s| > 1 {
      Contiguous(s[1..], totalPages);
      FirstSectionStart(s[1..], totalPages);
    }
  }

  /** When every page index lies in the document, every section is a
      non-empty range inside it (so the special case for the last bookmark
      never fires). */
  lemma {:induction false} SectionsInBounds(s: seq<Bookmark>, totalPages: int)
    requires forall b :: b in s ==> 0 <= b.pageIndex < totalPages
    ensures forall sec :: sec in PageRanges(s, totalPages) ==> 1 <= sec.startPage <= sec.endPage <= totalPages
  {
    if s != [] {
      assert s[0] in s;
      if |s| > 1 {
        assert s[1] in s;
        assert forall b :: b in s[1..] ==> b in s;
        SectionsInBounds(s[1..], totalPages);
      }
    }
  }

  /** The bookmarks that no later bookmark shares a page with: on a sorted
      list, the last of each page. */
  function LastPerPage(s: seq<Bookmark>): seq<Bookmark>
  {
    if s == [] then []
    else (if s[0].pageIndex in PageSet(s[1..]) then [] else [s[0]]) + LastPerPage(s[1..])
  }

  lemma PageSetCons(s: seq<Bookmark>)
    requires s != []
    ensures PageSet(s) == {s[0].pageIndex} + PageSet(s[1..])
  {
    assert s == [s[0]] + s[1..];
    forall q | q in PageSet(s)
      ensures q in {s[0].pageIndex} + PageSet(s[1..])
    {
      var b :| b in s && b.pageIndex == q;
      if b != s[0] { assert b in s[1..]; }
    }
  }

  /** One bookmark survives per distinct page index. */
  lemma {:induction false} LastPerPageCount(s: seq<Bookmark>)
    ensures |LastPerPage(s)| == |PageSet(s)|
  {
    if s != [] {
      LastPerPageCount(s[1..]);
      PageSetCons(s);
    }
  }

  lemma SharesPageWithNext(s: seq<Bookmark>)
    requires |s| > 1 && SortedByPage(s)
    ensures s[0].pageIndex in PageSet(s[1..]) <==> s[0].pageIndex == s[1].pageIndex
  {
    assert s[1..][0] == s[1];
    if s[0].pageIndex in PageSet(s[1..]) {
      var b :| b in s[1..] && b.pageIndex == s[0].pageIndex;
      var j :| 0 <= j < |s[1..]| && s[1..][j] == b;
      assert s[1 + j] == b;
    }
  }

  /** A section stands for a bookmark: same name and path, starting on its page. */
  predicate StandsFor(sec: Section, b: Bookmark)
  {
    sec.name == b.title && sec.fullPath == b.fullPath && sec.startPage == b.pageIndex + 1
  }

  predicate AllStandFor(r: seq<Section>, keep: seq<Bookmark>)
  {
    |r| == |keep| && forall k :: 0 <= k < |r| ==> StandsFor(r[k], keep[k])
  }

  lemma AllStandForCons(sec: Section, r: seq<Section>, b: Bookmark, keep: seq<Bookmark>)
    requires StandsFor(sec, b) && AllStandFor(r, keep)
    ensures AllStandFor([sec] + r, [b] + keep)
  {
    forall k | 0 <= k < |r| + 1
      ensures StandsFor(([sec] + r)[k], ([b] + keep)[k])
    {
      if k > 0 {
        assert ([sec] + r)[k] == r[k - 1] && ([b] + keep)[k] == keep[k - 1];
      }
    }
  }

  lemma SortedTail(s: seq<Bookmark>)
    requires s != [] && SortedByPage(s)
    ensures SortedByPage(s[1..])
  {
  }

  /** How the per-page filter treats the first of two or more bookmarks. */
  lemma LastPerPageStep(s: seq<Bookmark>)
    requires |s| > 1 && SortedByPage(s)
    ensures s[0].pageIndex != s[1].pageIndex ==> LastPerPage(s) == [s[0]] + LastPerPage(s[1..])
    ensures s[0].pageIndex == s[1].pageIndex ==> LastPerPage(s) == LastPerPage(s[1..])
  {
    SharesPageWithNext(s);
  }

  /** On a sorted list the resolver keeps exactly the last bookmark of each
      page, in order, each starting on its own page. */
  lemma {:induction false} SectionsAreLastPerPage(s: seq<Bookmark>, totalPages: int)
    requires SortedByPage(s)
    ensures AllStandFor(PageRanges(s, totalPages), LastPerPage(s))
  {
    if |s| == 1 {
      assert PageRanges(s, totalPages)
             == [Section(s[0].title, s[0].fullPath, s[0].pageIndex + 1, totalPages)];
      assert LastPerPage(s) == [s[0]];
    } else if |s| > 1 {
      SortedTail(s);
      SectionsAreLastPerPage(s[1..], totalPages);
      RangesStep(s, totalPages);
      LastPerPageStep(s);
      if s[0].pageIndex != s[1].pageIndex {
        assert s[0].pageIndex < s[1].pageIndex;
        AllStandForCons(Section(s[0].title, s[0].fullPath, s[0].pageIndex + 1, s[1].pageIndex),
                        PageRanges(s[1..], totalPages), s[0], LastPerPage(s[1..]));
      }
    }
  }

  /** The number of sections after sorting is the number of distinct page indices. */
  lemma SectionCount(s: seq<Bookmark>, totalPages: int)
    ensures |PageRanges(SortByPage(s), totalPages)| == |PageSet(s)|
  {
    var t := SortByPage(s);
    SortByPageSorted(s);
    SortByPagePermutes(s);
    SectionsAreLastPerPage(t, totalPages);
    LastPerPageCount(t);
    assert PageSet(t) == PageSet(s) by {
      forall b
        ensures b in t <==> b in s
      {
        assert b in t <==> b in multiset(t);
        assert b in s <==> b in multiset(s);
      }
    }
  }

  // ---------------------------------------------------------------------------
  // Pages
  // ---------------------------------------------------------------------------

  /** The page indices lo, lo + 1, ..., hi - 1 (`range(lo, hi)`). */
  function Span(lo: int, hi: int): (r: seq<int>)
    ensures |r| == if lo < hi then hi - lo else 0
    ensures forall k :: 0 <= k < |r| ==> r[k] == lo + k
  {
    seq(if lo < hi then hi - lo else 0, k => lo + k)
  }

  lemma SpanSplit(lo: int, mid: int, hi: int)
    requires lo <= mid <= hi
    ensures Span(lo, mid) + Span(mid, hi) == Span(lo, hi)
  {
  }

  /** The 0-based page indices a section covers, in order. */
  function SectionPages(sec: Section): seq<int>
  {
    Span(sec.startPage - 1, sec.endPage)
  }

  /** The pages of a list of sections, one section after another. */
  function PagesOf(secs: seq<Section>): seq<int>
  {
    if secs == [] then [] else SectionPages(secs[0]) + PagesOf(secs[1..])
  }

  /** How the resolver treats the first of two or more bookmarks: it keeps a
      section when the next bookmark is on a later page and emits nothing
      otherwise. */
  lemma RangesStep(s: seq<Bookmark>, totalPages: int)
    requires |s| > 1
    ensures s[0].pageIndex < s[1].pageIndex ==>
              PageRanges(s, totalPages)
              == [Section(s[0].title, s[0].fullPath, s[0].pageIndex + 1, s[1].pageIndex)] + PageRanges(s[1..], totalPages)
    ensures s[0].pageIndex >= s[1].pageIndex ==> PageRanges(s, totalPages) == PageRanges(s[1..], totalPages)
  {
  }

  lemma PagesOfCons(head: Section, rest: seq<Section>)
    ensures PagesOf([head] + rest) == SectionPages(head) + PagesOf(rest)
  {
    assert ([head] + rest)[0] == head && ([head] + rest)[1..] == rest;
  }

  /** On a sorted list whose page indices lie in the document, the sections
      together cover every page from the first bookmark's page to the end,
      each exactly once and in order. */
  lemma {:induction false} SectionsPartitionPages(s: seq<Bookmark>, totalPages: int)
    requires s != [] && SortedByPage(s)
    requires forall b :: b in s ==> 0 <= b.pageIndex < totalPages
    ensures PagesOf(PageRanges(s, totalPages)) == Span(s[0].pageIndex, totalPages)
  {
    assert s[0] in s;
    if |s| > 1 {
      assert s[1] in s;
      assert forall b :: b in s[1..] ==> b in s;
      assert s[1..][0] == s[1];
      SortedTail(s);
      SectionsPartitionPages(s[1..], totalPages);
      RangesStep(s, totalPages);
      if s[0].pageIndex < s[1].pageIndex {
        var head := Section(s[0].title, s[0].fullPath, s[0].pageIndex + 1, s[1].pageIndex);
        PagesOfCons(head, PageRanges(s[1..], totalPages));
        SpanSplit(s[0].pageIndex, s[1].pageIndex, totalPages);
      } else {
        assert s[0].pageIndex == s[1].pageIndex;
      }
    } else {
      var head := Section(s[0].title, s[0].fullPath, s[0].pageIndex + 1, totalPages);
      assert PageRanges(s, totalPages) == [head];
      PagesOfCons(head, []);
    }
  }
}
