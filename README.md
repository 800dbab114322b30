# pdf-chapter-splitter, modelled in Dafny

The chapter splitter cuts a PDF into one file per bookmark. It works in four
steps:

1. **Flatten the outline** (`get_pdf_outline_info`). The outline arrives as
   a flat list in which a nested list holds the children of the bookmark just
   before it. The result is a pre-order list of records: title, page index
   (possibly none) and full path name. Titles on a path are joined with
   `" - "`. A depth limit decides whether the traversal enters a child list.
2. **Drop the records without a page.**
3. **Resolve page ranges** (`calculate_page_ranges`). The list is sorted in
   place by page index, and each bookmark gets the pages up to the next
   bookmark's page.
4. **Plan the split** (`perform_pdf_split`). Each range is re-checked, and a
   valid one becomes a file whose name is cleaned of forbidden characters.
   The file name may carry a zero-padded sequence number.

The model has four modules, one per file:

- `Outline` (`outline.dfy`)
  - The flattener is a method that keeps the source's index loop, including
    the second bump of `i` over a child list.
  - It is proved equal to the function `Flatten`, which reads the list the
    way the loop does.
  - `Flatten` is in turn proved equal to an independent reference: parse the
    flat encoding into a tree, cut the tree to the levels the limit shows, and
    list it in pre-order.
  - The document reader's page lookup is replaced by a `Lookup` stored in each
    bookmark. It can give a page, give no page, or raise.
- `Ranges` (`ranges.dfy`)
  - The in-place sort is a stable insertion sort on an array. It is proved to
    give `SortByPage` of the old contents.
  - `SortByPage` is proved sorted, a permutation and stable. It is also proved
    to be the only list with those three properties, so any stable sort,
    Python's included, gives the same list.
  - The resolver loop is proved equal to the function `PageRanges`. The
    ordering, contiguity, count, bounds and coverage properties are lemmas
    about `PageRanges`.
- `Split` (`split.dfy`)
  - Name cleaning, decimal rendering, zero padding and the file name are
    functions.
  - The planning loop returns one `Step` per section. A step is either a
    file to write, with its name and page indices, or a skip with the label
    and range the warning prints.
- `Pipeline` (`pipeline.dfy`)
  - The `None` filter.
  - The body of `split_pdf_by_chapters` once the document is open: its three
    early stops, one of which is proved unreachable.
  - An end-to-end lemma about the pages that get written.

Where the comments and the code disagree, the model follows the code:

- The depth counter is documented as 1-based, but the root call starts at
  level 2 and descends only while `current_level < max_level`.
  - A limit of 1 and a limit of 2 therefore both keep only the top level.
  - A limit L >= 3 keeps L - 1 levels.
  - `Outline.RootDepth` and `Outline.LevelOneEqualsLevelTwo` state this as
    the code does it.
- The comment on the last-bookmark branch of the resolver says it covers a
  single bookmark or a bookmark on the last page.
  - In fact that branch fires only when the last bookmark's page index is at
    least the page count.
  - When it fires it yields a section whose start lies after its end. See
    `Ranges.LastSection`.
  - When every page index lies in the document, the branch never fires. See
    `Ranges.SectionsInBounds`.
- Sections always carry a full path name, so the name choice's fallback to
  the plain title happens only when the limit is 1.

## Model

| member | source | states |
|---|---|---|
| Outline.GetOutlineInfo | pdf_chapter_splitter.py:6-65 | The index loop returns exactly `Flatten`. A bookmark is emitted unless its lookup raises. A nested list right after an emitted bookmark is its child list: it is entered only when the depth test allows and is stepped over either way. Anything else is passed over. |
| Outline.FlattenIsPreOrder | pdf_chapter_splitter.py:18-63 | Parse the flat encoding into a tree and cut it to the levels the limit shows. The positional traversal equals the pre-order listing of that tree, with paths built from the parent path. |
| Outline.RootDepth | pdf_chapter_splitter.py:41-47 | From the root (level 2), limit 0 lists the whole tree in pre-order. Any other limit L lists the tree cut to 1 level when L <= 2 and to L - 1 levels otherwise. A cut parent is still listed. |
| Outline.LevelOneEqualsLevelTwo | pdf_chapter_splitter.py:41 | Depth limits 1 and 2 select the same records. |
| Outline.JoinPathShape | pdf_chapter_splitter.py:24-26 | A joined path starts with the parent path and " - " when the parent is non-empty, and always ends with the title. |
| Outline.PathsUnderParent | pdf_chapter_splitter.py:24-49 | Every record's full path ends with its title and lies below the parent path the traversal started from, at every depth. |
| Outline.TopLevelPathsAreTitles | pdf_chapter_splitter.py:24-26 | When the limit keeps the root from descending, every full path equals the record's title. |
| Outline.FlattenConcat | pdf_chapter_splitter.py:18-63 | Cutting the outline anywhere except between a bookmark and its child list cuts the records at the same place. |
| Outline.EntryInPlace | pdf_chapter_splitter.py:27-54 | A bookmark whose lookup gives a page or no page is emitted where it stands, with its page or None. Its child records follow at once when the depth test allows, then its later siblings. Its child list is never read as a sibling. |
| Outline.FailedLookupSkipped | pdf_chapter_splitter.py:56-63 | A bookmark whose lookup raises yields no record. The child list after it is passed over as a non-bookmark. The records before and after it are unchanged. |
| Ranges.InsertAt | pdf_chapter_splitter.py:76 | One pass of the in-place sort: the prefix up to `i` becomes `Insert` of the old sorted prefix and the old element, and the rest of the array is unchanged. |
| Ranges.SortInPlace | pdf_chapter_splitter.py:76 | Sorting in place leaves the array holding `SortByPage` of its old contents. |
| Ranges.SortByPageSorted | pdf_chapter_splitter.py:76 | The sorted list is in ascending page order. |
| Ranges.SortByPagePermutes | pdf_chapter_splitter.py:76 | The sorted list is a permutation of the input (equal multisets). |
| Ranges.SortByPageStable | pdf_chapter_splitter.py:76 | For every page, the bookmarks on that page keep their relative order. |
| Ranges.StableSortIsSortByPage | pdf_chapter_splitter.py:76 | Any page-ordered list that keeps every page's bookmarks in their input order equals `SortByPage`, so every stable sort gives the modelled result. |
| Ranges.SectionsOf | pdf_chapter_splitter.py:78-104 | The resolver's loop over the sorted list returns exactly `PageRanges`. |
| Ranges.CalculatePageRanges | pdf_chapter_splitter.py:67-106 | The caller's array ends up holding `SortByPage` of its old contents, and the sections are `PageRanges` of the sorted list. |
| Ranges.LastSection | pdf_chapter_splitter.py:83-104 | A non-empty list gives at least one section. The last section is named after the last bookmark, starts at its page + 1 and ends at the page count. Its start is at most its end exactly when the last bookmark's page index is below the page count. |
| Ranges.FirstSectionStart | pdf_chapter_splitter.py:79-95 | On a sorted list the first section starts at the first bookmark's page + 1. |
| Ranges.StartsFromFirstPage | pdf_chapter_splitter.py:79-95 | On a sorted list no section starts before the first bookmark's page + 1. |
| Ranges.StartsIncrease | pdf_chapter_splitter.py:78-104 | On a sorted list section start pages are strictly increasing. |
| Ranges.Contiguous | pdf_chapter_splitter.py:84-95 | On a sorted list each section ends on the page just before the next section starts. |
| Ranges.SectionsInBounds | pdf_chapter_splitter.py:89-104 | If every page index lies in [0, page count), every section satisfies 1 <= start <= end <= page count, so the last-bookmark branch never fires. |
| Ranges.SectionsAreLastPerPage | pdf_chapter_splitter.py:84-95 | On a sorted list the sections correspond, in order, to the last bookmark of each page: same name, same full path, start = page index + 1. |
| Ranges.LastPerPageCount | pdf_chapter_splitter.py:84-95 | One bookmark per distinct page index is the last of its page. |
| Ranges.SectionCount | pdf_chapter_splitter.py:76-104 | After the sort the number of sections equals the number of distinct page indices. |
| Ranges.SectionsPartitionPages | pdf_chapter_splitter.py:78-104 | On a sorted list with every page inside the document, the sections' pages, laid end to end, are exactly the pages from the first bookmark's page to the last page, each once and in order. |
| Split.Sanitize | pdf_chapter_splitter.py:151 | The cleaned name is never longer than the input. |
| Split.SanitizeLeavesClean | pdf_chapter_splitter.py:151 | The cleaned name has none of the nine forbidden characters: backslash, slash, colon, star, question mark, double quote, less-than, greater-than and vertical bar. |
| Split.SanitizeKeepsOthers | pdf_chapter_splitter.py:151 | Every character that is not forbidden occurs in the cleaned name exactly as often as in the input. |
| Split.SanitizeConcat | pdf_chapter_splitter.py:151 | Cleaning distributes over concatenation, so it works character by character and keeps the order. |
| Split.SanitizeChar | pdf_chapter_splitter.py:151 | A single character is deleted exactly when it is one of the nine forbidden characters. |
| Split.SanitizeClean | pdf_chapter_splitter.py:151 | A name without forbidden characters is left unchanged. |
| Split.SanitizeIdempotent | pdf_chapter_splitter.py:151 | Cleaning twice equals cleaning once. |
| Split.Decimal | pdf_chapter_splitter.py:117 | `str(n)` is a non-empty string of digits with a leading zero only for zero. |
| Split.DecimalRoundTrip | pdf_chapter_splitter.py:117 | The digits of `str(n)` denote n. |
| Split.DecimalWidthMonotone | pdf_chapter_splitter.py:117 | A larger number never has fewer digits. |
| Split.PaddedValue | pdf_chapter_splitter.py:154 | Zero padding keeps the value. The result has exactly the requested width when the digits fit, and is otherwise unchanged. |
| Split.SequencePrefixShape | pdf_chapter_splitter.py:154 | For section i of n, the prefix is the digit count of n plus one characters long and ends with "_". Its digits denote i + 1. |
| Split.FileNameShape | pdf_chapter_splitter.py:140-157 | A file name never contains a forbidden character, so it contains no path separator, and it ends with ".pdf". Without numbering it is the cleaned chosen name followed by ".pdf". |
| Split.DistinctFileNames | pdf_chapter_splitter.py:153-155 | With numbering on, sections at different positions get different file names, whatever their titles. |
| Split.CollectPages | pdf_chapter_splitter.py:137-138 | The writer receives the page indices from the first to the last of the range, ascending. |
| Split.PlanSplit | pdf_chapter_splitter.py:116-157 | One step per section, in order. A section with a valid range becomes a write of its pages under `FileName`: the full path unless the limit is 1, cleaned, numbered by position. Any other section becomes a skip labelled with its full path and range. |
| Split.PlanWritesValidPages | pdf_chapter_splitter.py:124-138 | A section is written exactly when its range passes the re-check. A written file has end - start + 1 pages, all inside the document. |
| Split.PlanNamesDistinct | pdf_chapter_splitter.py:119-155 | With numbering on, no two written files of one plan share a name. |
| Split.SameNameWithoutNumbering | pdf_chapter_splitter.py:140-162 | With numbering off, two valid sections whose chosen names clean to the same string are both planned as writes under one file name. |
| Split.SlashNamesCollide | pdf_chapter_splitter.py:140-157 | With numbering off, sections titled "A/B" and "AB" get the same file name at any positions and any depth limit. |
| Split.CleanedSlash | pdf_chapter_splitter.py:151 | Cleaning "A/B" gives "AB", and cleaning leaves "AB" unchanged. |
| Pipeline.DropUnresolved | pdf_chapter_splitter.py:212-215 | The filter keeps exactly the records with a page index, and never grows the list. |
| Pipeline.DropUnresolvedConcat | pdf_chapter_splitter.py:212-215 | The filter distributes over concatenation, so it keeps the order. |
| Pipeline.SplitByChapters | pdf_chapter_splitter.py:198-236 | It stops for a missing outline exactly when the outline is empty. It stops for no usable bookmarks exactly when the filter leaves nothing. It never stops for no sections, because that branch is unreachable. Otherwise its steps are the plan for the resolved sections. |
| Pipeline.FirstIsLowest | pdf_chapter_splitter.py:224 | After the sort, the first bookmark is one of the input's and lies on the lowest page. |
| Pipeline.WholeTailWritten | pdf_chapter_splitter.py:224-236 | If every surviving bookmark points inside the document, every step of the plan is a write. The pages handed to the writer, step after step, are exactly those from the lowest bookmarked page to the last page. |

## Left out

- The PDF library is not part of this model: opening the document, reading
  its outline and page count, resolving a destination to a page, and writing
  output files.
  - The outline, the page count and the lookup results are parameters.
  - Each file write is a `Write` step of the plan.
- Output-directory derivation, directory creation, the existence check of
  the input path, and command-line parsing are left out. They are operating
  system and argument plumbing with nothing to state about bookmarks.
- The printed messages are left out, and so is the catch-all exception
  handler around the pipeline.
  - The flattener's warning for a failed lookup is not modelled; the skipped
    bookmark is.
  - A skipped section is a `Skip` step that carries the label and range the
    warning prints.
  - The pipeline's early stops are `Stopped` outcomes.
- An exception raised while reading a bookmark's title is not modelled. Only
  the page lookup can raise here, and reading a title is assumed to succeed.
- Ranges.SortInPlace: it models Python's list sort by a stable insertion
  sort, not Timsort. `Ranges.StableSortIsSortByPage` shows that every stable
  sort yields the same list.
- The plan does not model the file system. With numbering off, two sections
  whose cleaned names agree get `Write` steps under the same name, and the
  plan lists both. On disk the second write opens the file for writing again
  and replaces the first, so fewer files remain than `Write` steps.
  `Split.SameNameWithoutNumbering` states this, and `Split.SlashNamesCollide`
  gives such a pair of titles. With numbering on,
  `Split.PlanNamesDistinct` rules it out.
- Page indices are unbounded integers. Python integers have no width, so
  nothing wraps.
