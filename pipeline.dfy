/**
 * The bookmark-driven part of `split_pdf_by_chapters`: flatten the outline
 * from the root (level 2, empty parent path), drop the bookmarks without a
 * page, resolve the page ranges and plan the split, stopping early with a
 * message when there is nothing to work on.
 *
 * Opening the document, counting its pages and reading its outline are
 * replaced by the parameters `outline` and `totalPages`.
 */
module Pipeline {
  import Outline
  import opened Ranges
  import opened Split

  /** The bookmarks the later stages see: the records whose page index is not
      None, in their order. */
  function DropUnresolved(records: seq<Outline.Record>): (r: seq<Bookmark>)
    ensures |r| <= |records|
    ensures forall b :: b in r <==> Outline.Record(b.title, Outline.Some(b.pageIndex), b.fullPath) in records
  {
    if records == [] then []
    else
      var rec := records[0];
      assert records == [rec] + records[1..];
      (if rec.pageIndex.Some? then [Bookmark(rec.title, rec.pageIndex.value, rec.fullPath)] else [])
      + DropUnresolved(records[1..])
  }

  /** The filter keeps the order: it distributes over concatenation. */
  lemma {:induction false} DropUnresolvedConcat(a: seq<Outline.Record>, b: seq<Outline.Record>)
    ensures DropUnresolved(a + b) == DropUnresolved(a) + DropUnresolved(b)
  {
    if a != [] {
      assert (a + b)[0] == a[0] && (a + b)[1..] == a[1..] + b;
      DropUnresolvedConcat(a[1..], b);
    } else {
      assert a + b == b;
    }
  }

  /** Why the pipeline stops without splitting. */
  datatype Failure = NoOutline | NoResolvableBookmarks | NoSections

  datatype Outcome = Planned(steps: seq<Step>) | Stopped(reason: Failure)

  /** The bookmarks of an outline that reach the range resolver. */
  function Resolved(outline: seq<Outline.Item>, maxLevel: int): seq<Bookmark>
  {
    DropUnresolved(Outline.Flatten(outline, 2, maxLevel, ""))
  }

  /** The sections resolved from an outline. */
  function SectionsOfOutline(outline: seq<Outline.Item>, totalPages: int, maxLevel: int): seq<Section>
  {
    PageRanges(SortByPage(Resolved(outline, maxLevel)), totalPages)
  }

  /** `split_pdf_by_chapters` once the document is open. */
  method SplitByChapters(outline: seq<Outline.Item>, totalPages: nat, addSequence: bool, maxLevel: int)
    returns (result: Outcome)
    ensures result == Stopped(NoOutline) <==> outline == []
    ensures outline != [] ==> (result == Stopped(NoResolvableBookmarks) <==> Resolved(outline, maxLevel) == [])
    ensures result != Stopped(NoSections)
    ensures result.Planned? ==>
              IsPlan(result.steps, SectionsOfOutline(outline, totalPages, maxLevel), totalPages, addSequence, maxLevel)
  {
    if outline == [] {
      return Stopped(NoOutline);
    }
    var outlineInfo := Outline.GetOutlineInfo(outline, 2, maxLevel, "");
    var kept := DropUnresolved(outlineInfo);
    if kept == [] {
      return Stopped(NoResolvableBookmarks);
    }
    var info := new Bookmark[|kept|](k requires 0 <= k < |kept| => kept[k]);
    assert info[..] == kept;
    var sections := CalculatePageRanges(info, totalPages);
    LastSection(info[..], totalPages);
    if sections == [] {
      assert false;
    }
    var steps := PlanSplit(sections, totalPages, addSequence, maxLevel);
    return Planned(steps);
  }

  // ---------------------------------------------------------------------------
  // End to end
  // ---------------------------------------------------------------------------

  /** The pages handed to the writer over a whole plan, file after file. */
  function WrittenPages(steps: seq<Step>): seq<int>
  {
    if steps == [] then []
    else (if steps[0].Write? then steps[0].pages else []) + WrittenPages(steps[1..])
  }

  lemma {:induction false} WrittenIsPagesOf(steps: seq<Step>, sections: seq<Section>)
    requires |steps| == |sections|
    requires forall k :: 0 <= k < |steps| ==> steps[k].Write? && steps[k].pages == SectionPages(sections[k])
    ensures WrittenPages(steps) == PagesOf(sections)
  {
    if steps != [] {
      WrittenIsPagesOf(steps[1..], sections[1..]);
    }
  }

  /** After the sort the first bookmark is on the lowest page of all. */
  lemma FirstIsLowest(s: seq<Bookmark>)
    requires s != []
    ensures SortByPage(s) != []
    ensures SortByPage(s)[0] in s
    ensures forall b :: b in s ==> SortByPage(s)[0].pageIndex <= b.pageIndex
  {
    var t := SortByPage(s);
    SortByPageSorted(s);
    SortByPagePermutes(s);
    assert multiset(t) == multiset(s);
    assert s[0] in multiset(t);
    assert t != [];
    assert t[0] in multiset(s);
    forall b | b in s
      ensures t[0].pageIndex <= b.pageIndex
    {
      assert b in multiset(t);
      var k :| 0 <= k < |t| && t[k] == b;
    }
  }

  /** When every bookmark that survives the filter points inside the
      document, every section is written, and the files together hold every
      page from the lowest bookmarked page to the last page of the document,
      each page once and in order. */
  lemma WholeTailWritten(bookmarks: seq<Bookmark>, totalPages: int, addSequence: bool, maxLevel: int,
                         steps: seq<Step>)
    requires bookmarks != []
    requires forall b :: b in bookmarks ==> 0 <= b.pageIndex < totalPages
    requires IsPlan(steps, PageRanges(SortByPage(bookmarks), totalPages), totalPages, addSequence, maxLevel)
    ensures forall k :: 0 <= k < |steps| ==> steps[k].Write?
    ensures exists b :: b in bookmarks && WrittenPages(steps) == Span(b.pageIndex, totalPages)
    ensures forall b :: b in bookmarks ==> |WrittenPages(steps)| >= totalPages - b.pageIndex
  {
    var t := SortByPage(bookmarks);
    var sections := PageRanges(t, totalPages);
    SortByPageSorted(bookmarks);
    SortByPagePermutes(bookmarks);
    FirstIsLowest(bookmarks);
    forall b | b in t
      ensures 0 <= b.pageIndex < totalPages
    {
      assert b in multiset(t);
    }
    SectionsInBounds(t, totalPages);
    SectionsPartitionPages(t, totalPages);
    forall k | 0 <= k < |steps|
      ensures steps[k].Write? && steps[k].pages == SectionPages(sections[k])
    {
      assert StepFor(steps[k], k, sections, totalPages, addSequence, maxLevel);
      assert sections[k] in sections;
    }
    WrittenIsPagesOf(steps, sections);
    assert t[0] in bookmarks;
  }
}
