/**
 * Split planning and output naming of the chapter splitter (`perform_pdf_split`).
 *
 * For every resolved section, in order, the splitter re-checks the page range
 * against the document: an invalid range is reported and skipped, a valid one
 * becomes one output file holding the section's pages. The file is named after
 * the section's full path (or its own title when only the first level is
 * processed), with the characters \ / : * ? " < > | deleted, ".pdf" appended,
 * and, when numbering is on, a zero-padded sequence number and "_" in front.
 *
 * Writing the files is replaced by the list of steps the splitter takes.
 */
module Split {
  import opened Ranges

  // ---------------------------------------------------------------------------
  // Cleaning a name
  // ---------------------------------------------------------------------------

  /** The characters the splitter deletes from a name: \ / : * ? " < > | */
  predicate Forbidden(c: char)
  {
    c == '\\' || c == '/' || c == ':' || c == '*' || c == '?'
    || c == '\"' || c == '<' || c == '>' || c == '|'
  }

  predicate Clean(s: string)
  {
    forall k :: 0 <= k < |s| ==> !Forbidden(s[k])
  }

  /** The name with every forbidden character deleted. */
  function Sanitize(s: string): (r: string)
    ensures |r| <= |s|
  {
    if s == [] then []
    else (if Forbidden(s[0]) then [] else [s[0]]) + Sanitize(s[1..])
  }

  lemma SanitizeCons(s: string)
    requires s != []
    ensures Sanitize(s) == (if Forbidden(s[0]) then [] else [s[0]]) + Sanitize(s[1..])
  {
  }

  /** No forbidden character survives cleaning. */
  lemma {:induction false} SanitizeLeavesClean(s: string)
    ensures Clean(Sanitize(s))
  {
    if s != [] {
      var head := if Forbidden(s[0]) then [] else [s[0]];
      var rest := Sanitize(s[1..]);
      SanitizeLeavesClean(s[1..]);
      SanitizeCons(s);
      forall k | 0 <= k < |head + rest|
        ensures !Forbidden((head + rest)[k])
      {
        if k >= |head| {
          assert (head + rest)[k] == rest[k - |head|];
        }
      }
    }
  }

  /** Every character that is not forbidden occurs in the cleaned name as
      often as in the input. */
  lemma {:induction false} SanitizeKeepsOthers(s: string, c: char)
    requires !Forbidden(c)
    ensures multiset(Sanitize(s))[c] == multiset(s)[c]
  {
    if s != [] {
      var head := if Forbidden(s[0]) then [] else [s[0]];
      SanitizeKeepsOthers(s[1..], c);
      SanitizeCons(s);
      assert s == [s[0]] + s[1..];
      assert multiset(s) == multiset([s[0]]) + multiset(s[1..]);
      assert multiset(Sanitize(s)) == multiset(head) + multiset(Sanitize(s[1..]));
    }
  }

  /** Cleaning works character by character and keeps the order: it
      distributes over concatenation. */
  lemma {:induction false} SanitizeConcat(a: string, b: string)
    ensures Sanitize(a + b) == Sanitize(a) + Sanitize(b)
  {
    if a != [] {
      var ab := a + b;
      assert ab[0] == a[0] && ab[1..] == a[1..] + b;
      SanitizeConcat(a[1..], b);
      var head := if Forbidden(a[0]) then [] else [a[0]];
      assert Sanitize(ab) == head + Sanitize(a[1..] + b);
      assert Sanitize(a) == head + Sanitize(a[1..]);
    } else {
      assert a + b == b;
    }
  }

  /** A single character is deleted exactly when it is forbidden. */
  lemma SanitizeChar(c: char)
    ensures Sanitize([c]) == if Forbidden(c) then [] else [c]
  {
    assert [c][1..] == [];
  }

  /** A name without forbidden characters is left as it is. */
  lemma {:induction false} SanitizeClean(s: string)
    requires Clean(s)
    ensures Sanitize(s) == s
  {
    if s != [] {
      SanitizeClean(s[1..]);
      assert s == [s[0]] + s[1..];
    }
  }

  /** Cleaning twice is cleaning once. */
  lemma SanitizeIdempotent(s: string)
    ensures Sanitize(Sanitize(s)) == Sanitize(s)
  {
    SanitizeLeavesClean(s);
    SanitizeClean(Sanitize(s));
  }

  // ---------------------------------------------------------------------------
  // Sequence numbers
  // ---------------------------------------------------------------------------

  predicate IsDigit(c: char)
  {
    '0' <= c <= '9'
  }

  predicate AllDigits(s: string)
  {
    forall k :: 0 <= k < |s| ==> IsDigit(s[k])
  }

  function DigitChar(d: int): (c: char)
    requires 0 <= d <= 9
    ensures IsDigit(c)
  {
    (('0' as int) + d) as char
  }

  /** The number a string of decimal digits denotes. */
  function ValueOf(s: string): int
    requires AllDigits(s)
  {
    if s == [] then 0
    else ValueOf(s[..|s| - 1]) * 10 + ((s[|s| - 1] as int) - ('0' as int))
  }

  /** `str(n)` for a non-negative integer: its decimal digits, with a leading
      zero only for zero itself. */
  function Decimal(n: nat): (s: string)
    ensures |s| >= 1 && AllDigits(s)
    ensures s[0] == '0' <==> n == 0
  {
    if n < 10 then [DigitChar(n)] else Decimal(n / 10) + [DigitChar(n % 10)]
  }

  lemma {:induction false} DecimalRoundTrip(n: nat)
    ensures ValueOf(Decimal(n)) == n
  {
    var s := Decimal(n);
    if n >= 10 {
      DecimalRoundTrip(n / 10);
      assert s[..|s| - 1] == Decimal(n / 10);
    } else {
      assert s[..0] == [];
    }
  }

  /** A larger number never has fewer digits. */
  lemma {:induction false} DecimalWidthMonotone(a: nat, b: nat)
    requires a <= b
    ensures |Decimal(a)| <= |Decimal(b)|
  {
    if a >= 10 {
      DecimalWidthMonotone(a / 10, b / 10);
    }
  }

  function Zeros(k: nat): (z: string)
    ensures |z| == k && AllDigits(z)
  {
    seq(k, _ => '0')
  }

  /** `format(v, "0<width>d")` for the digit string `s` of `v`: zeros in front
      up to the given width; a longer string is left as it is. */
  function ZeroPad(s: string, width: int): string
  {
    if |s| >= width then s else Zeros(width - |s|) + s
  }

  lemma {:induction false} LeadingZeros(k: nat, s: string)
    requires AllDigits(s)
    ensures AllDigits(Zeros(k) + s) && ValueOf(Zeros(k) + s) == ValueOf(s)
    decreases |s|
  {
    var z := Zeros(k);
    if s == [] {
      assert z + s == z;
      ZerosValue(k);
    } else {
      LeadingZeros(k, s[..|s| - 1]);
      assert (z + s)[..|z + s| - 1] == z + s[..|s| - 1];
    }
  }

  lemma {:induction false} ZerosValue(k: nat)
    ensures ValueOf(Zeros(k)) == 0
  {
    if k > 0 {
      ZerosValue(k - 1);
      assert Zeros(k)[..k - 1] == Zeros(k - 1);
    }
  }

  /** Padding keeps the digits' value and gives exactly the requested width
      when the digits fit. */
  lemma PaddedValue(s: string, width: int)
    requires AllDigits(s)
    ensures AllDigits(ZeroPad(s, width))
    ensures ValueOf(ZeroPad(s, width)) == ValueOf(s)
    ensures |ZeroPad(s, width)| == if |s| >= width then |s| else width
  {
    if |s| < width {
      LeadingZeros(width - |s|, s);
    }
  }

  /** The number in front of the `i`-th (0-based) of `total` sections:
      `i + 1` padded to the digit count of `total`, then "_". */
  function SequencePrefix(i: nat, total: nat): string
  {
    ZeroPad(Decimal(i + 1), |Decimal(total)|) + "_"
  }

  /** Every prefix of a run has the same width, the digit count of the number
      of sections plus one, and its digits spell `i + 1`. */
  lemma SequencePrefixShape(i: nat, total: nat)
    requires i < total
    ensures var p := SequencePrefix(i, total);
            |p| == |Decimal(total)| + 1
            && p[|p| - 1] == '_'
            && AllDigits(p[..|p| - 1])
            && ValueOf(p[..|p| - 1]) == i + 1
  {
    var p := SequencePrefix(i, total);
    DecimalWidthMonotone(i + 1, total);
    DecimalRoundTrip(i + 1);
    PaddedValue(Decimal(i + 1), |Decimal(total)|);
    assert p[..|p| - 1] == ZeroPad(Decimal(i + 1), |Decimal(total)|);
  }

  // ---------------------------------------------------------------------------
  // File names
  // ---------------------------------------------------------------------------

  /** The name the file is built from: the full path unless only the first
      level is processed. */
  function ChosenName(sec: Section, maxLevel: int): string
  {
    if maxLevel != 1 then sec.fullPath else sec.name
  }

  /** The output file name of the `i`-th of `total` sections. */
  function FileName(i: nat, total: nat, sec: Section, addSequence: bool, maxLevel: int): string
  {
    (if addSequence then SequencePrefix(i, total) else "") + Sanitize(ChosenName(sec, maxLevel)) + ".pdf"
  }

  lemma CleanConcat(a: string, b: string)
    requires Clean(a) && Clean(b)
    ensures Clean(a + b)
  {
    forall k | 0 <= k < |a + b|
      ensures !Forbidden((a + b)[k])
    {
      if k < |a| {
        assert (a + b)[k] == a[k];
      } else {
        assert (a + b)[k] == b[k - |a|];
      }
    }
  }

  lemma ExtensionClean()
    ensures Clean(".pdf")
  {
    var e := ".pdf";
    assert e[0] == '.' && e[1] == 'p' && e[2] == 'd' && e[3] == 'f';
  }

  lemma PrefixClean(i: nat, total: nat)
    requires i < total
    ensures Clean(SequencePrefix(i, total))
  {
    var p := SequencePrefix(i, total);
    SequencePrefixShape(i, total);
    forall k | 0 <= k < |p|
      ensures !Forbidden(p[k])
    {
      if k < |p| - 1 {
        assert p[k] == p[..|p| - 1][k];
      }
    }
  }

  /** An output file name never holds a forbidden character, so in particular
      no path separator: the file lands in the output directory. It ends in
      ".pdf", and without numbering it is the cleaned name and ".pdf". */
  lemma FileNameShape(i: nat, total: nat, sec: Section, addSequence: bool, maxLevel: int)
    requires i < total
    ensures Clean(FileName(i, total, sec, addSequence, maxLevel))
    ensures var f := FileName(i, total, sec, addSequence, maxLevel);
            |f| >= 4 && f[|f| - 4..] == ".pdf"
    ensures !addSequence ==> FileName(i, total, sec, addSequence, maxLevel) == Sanitize(ChosenName(sec, maxLevel)) + ".pdf"
  {
    var p := if addSequence then SequencePrefix(i, total) else "";
    var c := Sanitize(ChosenName(sec, maxLevel));
    if addSequence {
      PrefixClean(i, total);
    }
    SanitizeLeavesClean(ChosenName(sec, maxLevel));
    CleanConcat(p, c);
    ExtensionClean();
    CleanConcat(p + c, ".pdf");
    var f := FileName(i, total, sec, addSequence, maxLevel);
    assert f == p + c + ".pdf";
    assert f[|f| - 4..] == ".pdf";
  }

  /** With numbering on, two sections of one run never get the same file name,
      whatever their titles. */
  lemma DistinctFileNames(i: nat, j: nat, total: nat, a: Section, b: Section, maxLevel: int)
    requires i < total && j < total && i != j
    ensures FileName(i, total, a, true, maxLevel) != FileName(j, total, b, true, maxLevel)
  {
    var p, q := SequencePrefix(i, total), SequencePrefix(j, total);
    SequencePrefixShape(i, total);
    SequencePrefixShape(j, total);
    var f, g := FileName(i, total, a, true, maxLevel), FileName(j, total, b, true, maxLevel);
    assert f[..|p|] == p;
    assert g[..|q|] == q;
  }

  // ---------------------------------------------------------------------------
  // The plan
  // ---------------------------------------------------------------------------

  /** What the splitter does for one section: write a file holding the listed
      0-based pages, or report the section by its full path and range and
      skip it. */
  datatype Step = Write(fileName: string, pages: seq<int>) | Skip(path: string, startPage: int, endPage: int)

  /** The re-check of a section's range against a document of `pageCount`
      pages: its first page exists, its last page exists, and it is not
      reversed. */
  predicate ValidRange(sec: Section, pageCount: int)
  {
    !(sec.startPage - 1 < 0 || sec.endPage - 1 >= pageCount || sec.startPage - 1 > sec.endPage - 1)
  }

  /** The step for the `i`-th section. The sequence number is the section's
      position among all sections, so a skipped section leaves a gap in the
      numbering of the written files. */
  predicate StepFor(step: Step, i: nat, sections: seq<Section>, pageCount: int, addSequence: bool, maxLevel: int)
    requires i < |sections|
  {
    var sec := sections[i];
    if ValidRange(sec, pageCount) then
      step == Write(FileName(i, |sections|, sec, addSequence, maxLevel), SectionPages(sec))
    else
      step == Skip(sec.fullPath, sec.startPage, sec.endPage)
  }

  /** One step per section, in order. */
  predicate IsPlan(steps: seq<Step>, sections: seq<Section>, pageCount: int, addSequence: bool, maxLevel: int)
  {
    |steps| == |sections|
    && forall i :: 0 <= i < |steps| ==> StepFor(steps[i], i, sections, pageCount, addSequence, maxLevel)
  }

  lemma PlanExtends(steps: seq<Step>, step: Step, sections: seq<Section>, pageCount: int,
                    addSequence: bool, maxLevel: int)
    requires |steps| < |sections|
    requires forall k :: 0 <= k < |steps| ==> StepFor(steps[k], k, sections, pageCount, addSequence, maxLevel)
    requires StepFor(step, |steps|, sections, pageCount, addSequence, maxLevel)
    ensures forall k :: 0 <= k < |steps| + 1 ==> StepFor((steps + [step])[k], k, sections, pageCount, addSequence, maxLevel)
  {
    forall k | 0 <= k < |steps| + 1
      ensures StepFor((steps + [step])[k], k, sections, pageCount, addSequence, maxLevel)
    {
      if k < |steps| {
        assert (steps + [step])[k] == steps[k];
      } else {
        assert (steps + [step])[k] == step;
      }
    }
  }

  /** The pages the writer receives for a valid range: from the first page
      index to the last, one after another. */
  method CollectPages(startIndex: int, endIndex: int) returns (pages: seq<int>)
    requires startIndex <= endIndex
    ensures pages == Span(startIndex, endIndex + 1)
  {
    pages := [];
    var p := startIndex;
    while p < endIndex + 1
      invariant startIndex <= p <= endIndex + 1
      invariant pages == Span(startIndex, p)
    {
      pages := pages + [p];
      p := p + 1;
    }
  }

  /** `perform_pdf_split`, with the files it writes and the warnings it prints
      given back as steps. */
  method PlanSplit(sections: seq<Section>, pageCount: int, addSequence: bool, maxLevel: int)
    returns (steps: seq<Step>)
    ensures IsPlan(steps, sections, pageCount, addSequence, maxLevel)
  {
    var totalSections := |sections|;
    var numDigits := |Decimal(totalSections)|;
    steps := [];
    for i := 0 to |sections|
      invariant |steps| == i
      invariant forall k :: 0 <= k < i ==> StepFor(steps[k], k, sections, pageCount, addSequence, maxLevel)
    {
      var section := sections[i];
      var startPageIndex := section.startPage - 1;
      var endPageIndex := section.endPage - 1;
      if startPageIndex < 0 || endPageIndex >= pageCount || startPageIndex > endPageIndex {
        PlanExtends(steps, Skip(section.fullPath, section.startPage, section.endPage), sections, pageCount, addSequence, maxLevel);
        steps := steps + [Skip(section.fullPath, section.startPage, section.endPage)];
        continue;
      }
      var pages := CollectPages(startPageIndex, endPageIndex);
      var nameToClean := if maxLevel != 1 then section.fullPath else section.name;
      var cleanedName := Sanitize(nameToClean);
      var outputFilename;
      if addSequence {
        var sequencePrefix := ZeroPad(Decimal(i + 1), numDigits) + "_";
        outputFilename := sequencePrefix + cleanedName + ".pdf";
      } else {
        outputFilename := cleanedName + ".pdf";
      }
      assert outputFilename == FileName(i, |sections|, section, addSequence, maxLevel);
      PlanExtends(steps, Write(outputFilename, pages), sections, pageCount, addSequence, maxLevel);
      steps := steps + [Write(outputFilename, pages)];
    }
  }

  // ---------------------------------------------------------------------------
  // What a plan guarantees
  // ---------------------------------------------------------------------------

  /** A section is written exactly when its range is valid; every written page
      exists in the document, and a written file is never empty. */
  lemma PlanWritesValidPages(steps: seq<Step>, sections: seq<Section>, pageCount: int,
                             addSequence: bool, maxLevel: int, i: int)
    requires IsPlan(steps, sections, pageCount, addSequence, maxLevel)
    requires 0 <= i < |steps|
    ensures steps[i].Write? <==> ValidRange(sections[i], pageCount)
    ensures steps[i].Write? ==>
              |steps[i].pages| == sections[i].endPage - sections[i].startPage + 1
              && forall k :: 0 <= k < |steps[i].pages| ==> 0 <= steps[i].pages[k] < pageCount
  {
    assert StepFor(steps[i], i, sections, pageCount, addSequence, maxLevel);
  }

  /** With numbering on, no two written files of one plan share a name. */
  lemma PlanNamesDistinct(steps: seq<Step>, sections: seq<Section>, pageCount: int, maxLevel: int, i: int, j: int)
    requires IsPlan(steps, sections, pageCount, true, maxLevel)
    requires 0 <= i < j < |steps| && steps[i].Write? && steps[j].Write?
    ensures steps[i].fileName != steps[j].fileName
  {
    assert StepFor(steps[i], i, sections, pageCount, true, maxLevel);
    assert StepFor(steps[j], j, sections, pageCount, true, maxLevel);
    DistinctFileNames(i, j, |sections|, sections[i], sections[j], maxLevel);
  }

  /** Without numbering nothing keeps the names apart: two valid sections
      whose chosen names clean to the same string are both planned as writes
      under one file name, and the second file written replaces the first.
      `SlashNamesCollide` gives such a pair of titles. */
  lemma SameNameWithoutNumbering(steps: seq<Step>, sections: seq<Section>, pageCount: int, maxLevel: int,
                                 i: int, j: int)
    requires IsPlan(steps, sections, pageCount, false, maxLevel)
    requires 0 <= i < j < |steps|
    requires ValidRange(sections[i], pageCount) && ValidRange(sections[j], pageCount)
    requires Sanitize(ChosenName(sections[i], maxLevel)) == Sanitize(ChosenName(sections[j], maxLevel))
    ensures steps[i].Write? && steps[j].Write?
    ensures steps[i].fileName == steps[j].fileName
  {
    assert StepFor(steps[i], i, sections, pageCount, false, maxLevel);
    assert StepFor(steps[j], j, sections, pageCount, false, maxLevel);
  }

  /** Cleaning "A/B" gives "AB", which cleaning leaves alone. */
  lemma CleanedSlash()
    ensures Sanitize("A/B") == "AB" && Sanitize("AB") == "AB"
  {
    SanitizeCons("A/B");
    assert "A/B"[0] == 'A' && "A/B"[1..] == "/B";
    SanitizeCons("/B");
    assert "/B"[0] == '/' && "/B"[1..] == "B";
    SanitizeCons("B");
    assert "B"[1..] == [];
    SanitizeCons("AB");
    assert "AB"[0] == 'A' && "AB"[1..] == "B";
  }

  /** Without numbering, sections titled "A/B" and "AB" share one file name
      ("AB.pdf"), wherever they stand and whatever the depth limit. */
  lemma SlashNamesCollide(i: nat, j: nat, total: nat, maxLevel: int)
    ensures FileName(i, total, Section("A/B", "A/B", 1, 1), false, maxLevel)
            == FileName(j, total, Section("AB", "AB", 2, 2), false, maxLevel)
  {
    CleanedSlash();
    assert ChosenName(Section("A/B", "A/B", 1, 1), maxLevel) == "A/B";
    assert ChosenName(Section("AB", "AB", 2, 2), maxLevel) == "AB";
  }
}
