/**
 * backend/converters/split_pdf.py: the page-string parser and the three ways of cutting a
 * PDF. A PDF is what `PdfReader` makes of a file: its sequence of pages, or the reason it
 * cannot be read. Pages are abstract (type parameter `P`); `PdfWriter` is the sequence of
 * pages added to it.
 */
module SplitPdf {
  import opened Wrappers
  import opened Text

  datatype Document<P> = Readable(pages: seq<P>) | Unreadable(reason: string)

  /** One file written by `split_pdf_all_pages`: its name inside the output directory and its pages. */
  datatype OutputFile<P> = OutputFile(name: string, pages: seq<P>)

  // ---------------------------------------------------------------------------
  // split_pdf_all_pages

  /** One single-page file per page, named `page_<n>.pdf` with n counted from 1. */
  method SplitAllPages<P>(doc: Document<P>) returns (r: Result<seq<OutputFile<P>>, string>)
    ensures doc.Unreadable? ==> r == Failure("Failed to split PDF: " + doc.reason)
    ensures doc.Readable? ==> r.Success? && |r.value| == |doc.pages|
    ensures doc.Readable? ==> forall i :: 0 <= i < |doc.pages| ==>
              r.value[i] == OutputFile("page_" + IntToString(i + 1) + ".pdf", [doc.pages[i]])
  {
    if doc.Unreadable? {
      return Failure("Failed to split PDF: " + doc.reason);
    }
    var pages := doc.pages;
    var outputFiles: seq<OutputFile<P>> := [];
    for pageNum := 0 to |pages|
      invariant |outputFiles| == pageNum
      invariant forall i :: 0 <= i < pageNum ==>
                  outputFiles[i] == OutputFile("page_" + IntToString(i + 1) + ".pdf", [pages[i]])
    {
      var writer := [pages[pageNum]];
      outputFiles := outputFiles + [OutputFile("page_" + IntToString(pageNum + 1) + ".pdf", writer)];
    }
    return Success(outputFiles);
  }

  // ---------------------------------------------------------------------------
  // split_pdf_range

  /** The range split_pdf_range accepts: 1 <= start <= end <= total. */
  predicate ValidRange(total: nat, start: int, end: int) {
    1 <= start && end <= total && start <= end
  }

  function InvalidRangeMessage(total: nat, start: int, end: int): string {
    "Invalid page range. PDF has " + IntToString(total) + " pages. Requested: "
    + IntToString(start) + "-" + IntToString(end)
  }

  /** Pages start..end (1-indexed, inclusive) in document order, or the wrapped error. */
  method SplitPdfRange<P>(doc: Document<P>, start: int, end: int) returns (r: Result<seq<P>, string>)
    ensures doc.Unreadable? ==> r == Failure("Failed to extract page range: " + doc.reason)
    ensures doc.Readable? && !ValidRange(|doc.pages|, start, end) ==>
              r == Failure("Failed to extract page range: " + InvalidRangeMessage(|doc.pages|, start, end))
    ensures doc.Readable? && ValidRange(|doc.pages|, start, end) ==>
              r.Success? && |r.value| == end - start + 1
              && forall k :: 0 <= k < |r.value| ==> r.value[k] == doc.pages[start - 1 + k]
  {
    if doc.Unreadable? {
      return Failure("Failed to extract page range: " + doc.reason);
    }
    var pages := doc.pages;
    var totalPages := |pages|;
    if start < 1 || end > totalPages || start > end {
      return Failure("Failed to extract page range: " + InvalidRangeMessage(totalPages, start, end));
    }
    var writer: seq<P> := [];
    for pageNum := start - 1 to end
      invariant |writer| == pageNum - (start - 1)
      invariant forall k :: 0 <= k < |writer| ==> writer[k] == pages[start - 1 + k]
    {
      writer := writer + [pages[pageNum]];
    }
    return Success(writer);
  }

  // ---------------------------------------------------------------------------
  // split_pdf_custom

  predicate InRange(total: nat, pageNum: int) {
    1 <= pageNum <= total
  }

  /** The index of the first requested page outside 1..total, if any. */
  function FirstInvalidIndex(pageNumbers: seq<int>, total: nat): (r: Option<nat>)
    ensures r.Some? ==> r.value < |pageNumbers| && !InRange(total, pageNumbers[r.value])
    ensures r.Some? ==> forall k :: 0 <= k < r.value ==> InRange(total, pageNumbers[k])
    ensures r.None? <==> forall p :: p in pageNumbers ==> InRange(total, p)
  {
    if |pageNumbers| == 0 then None
    else if !InRange(total, pageNumbers[0]) then Some(0)
    else
      assert pageNumbers == [pageNumbers[0]] + pageNumbers[1..];
      match FirstInvalidIndex(pageNumbers[1..], total)
      case None => None
      case Some(k) => Some(k + 1)
  }

  function InvalidPageMessage(pageNum: int, total: nat): string {
    "Invalid page number " + IntToString(pageNum) + ". PDF has " + IntToString(total) + " pages."
  }

  predicate StrictlyIncreasing(s: seq<int>) {
    forall i, j :: 0 <= i < j < |s| ==> s[i] < s[j]
  }

  /** Inserts `x` into an ascending duplicate-free list, keeping it so. */
  function Insert(s: seq<int>, x: int): (r: seq<int>)
    requires StrictlyIncreasing(s)
    ensures StrictlyIncreasing(r)
    ensures forall y :: y in r <==> y in s || y == x
  {
    if |s| == 0 then [x]
    else if x < s[0] then [x] + s
    else if x == s[0] then s
    else
      var tail := s[1..];
      assert StrictlyIncreasing(tail) by {
        forall i, j | 0 <= i < j < |tail| ensures tail[i] < tail[j] { assert tail[i] == s[i + 1] && tail[j] == s[j + 1]; }
      }
      var rest := Insert(tail, x);
      assert forall y :: y in tail ==> s[0] < y;
      assert forall k :: 0 <= k < |rest| ==> s[0] < rest[k] by {
        forall k | 0 <= k < |rest| ensures s[0] < rest[k] { assert rest[k] in rest; }
      }
      assert s == [s[0]] + tail;
      [s[0]] + rest
  }

  /** Python's `sorted(set(xs))`: the distinct values of `xs`, ascending. */
  function SortedUnique(xs: seq<int>): (r: seq<int>)
    ensures StrictlyIncreasing(r)
    ensures forall y :: y in r <==> y in xs
    ensures forall k :: 0 <= k < |r| ==> r[k] in xs
  {
    if |xs| == 0 then []
    else
      var r := Insert(SortedUnique(xs[..|xs| - 1]), xs[|xs| - 1]);
      assert xs == xs[..|xs| - 1] + [xs[|xs| - 1]];
      r
  }

  /** The pages that split_pdf_custom writes: the requested pages, each once, in ascending order. */
  function CustomSelection<P>(pages: seq<P>, pageNumbers: seq<int>): (r: seq<P>)
    requires forall p :: p in pageNumbers ==> InRange(|pages|, p)
    ensures |r| == |SortedUnique(pageNumbers)|
    ensures forall k :: 0 <= k < |r| ==>
              InRange(|pages|, SortedUnique(pageNumbers)[k]) && r[k] == pages[SortedUnique(pageNumbers)[k] - 1]
  {
    var unique := SortedUnique(pageNumbers);
    assert forall k :: 0 <= k < |unique| ==> InRange(|pages|, unique[k]);
    seq(|unique|, k requires 0 <= k < |unique| => pages[unique[k] - 1])
  }

  /** A page is written iff it was requested, and at most once: no duplicates, ascending order. */
  lemma CustomSelectionCoverage<P>(pages: seq<P>, pageNumbers: seq<int>, pageNum: int)
    requires forall p :: p in pageNumbers ==> InRange(|pages|, p)
    ensures pageNum in pageNumbers <==>
              exists k :: 0 <= k < |SortedUnique(pageNumbers)| && SortedUnique(pageNumbers)[k] == pageNum
    ensures forall i, j :: 0 <= i < j < |SortedUnique(pageNumbers)| ==>
              SortedUnique(pageNumbers)[i] < SortedUnique(pageNumbers)[j]
  {
    var unique := SortedUnique(pageNumbers);
    if pageNum in pageNumbers {
      assert pageNum in unique;
    }
  }

  /**
   * Validates every requested page first (the first one outside 1..total is reported and
   * nothing is written), then writes `sorted(set(page_numbers))`.
   */
  method SplitPdfCustom<P>(doc: Document<P>, pageNumbers: seq<int>) returns (r: Result<seq<P>, string>)
    ensures doc.Unreadable? ==> r == Failure("Failed to extract custom pages: " + doc.reason)
    ensures doc.Readable? && FirstInvalidIndex(pageNumbers, |doc.pages|).Some? ==>
              r == Failure("Failed to extract custom pages: " + InvalidPageMessage(
                     pageNumbers[FirstInvalidIndex(pageNumbers, |doc.pages|).value], |doc.pages|))
    ensures doc.Readable? && FirstInvalidIndex(pageNumbers, |doc.pages|).None? ==>
              r == Success(CustomSelection(doc.pages, pageNumbers))
  {
    if doc.Unreadable? {
      return Failure("Failed to extract custom pages: " + doc.reason);
    }
    var pages := doc.pages;
    var totalPages := |pages|;
    for i := 0 to |pageNumbers|
      invariant forall k :: 0 <= k < i ==> InRange(totalPages, pageNumbers[k])
    {
      if pageNumbers[i] < 1 || pageNumbers[i] > totalPages {
        assert pageNumbers[i] in pageNumbers;
        return Failure("Failed to extract custom pages: " + InvalidPageMessage(pageNumbers[i], totalPages));
      }
    }
    assert FirstInvalidIndex(pageNumbers, totalPages).None?;
    var unique := SortedUnique(pageNumbers);
    ghost var expected := CustomSelection(pages, pageNumbers);
    var writer: seq<P> := [];
    for k := 0 to |unique|
      invariant writer == expected[..k]
    {
      assert expected[..k + 1] == expected[..k] + [expected[k]];
      writer := writer + [pages[unique[k] - 1]];
    }
    assert expected[..|unique|] == expected;
    return Success(writer);
  }

  // ---------------------------------------------------------------------------
  // parse_page_string

  /** `range(start, end + 1)`: start, start+1, ..., end; empty when start > end. */
  function RangeInclusive(start: int, end: int): (r: seq<int>)
    ensures |r| == if start <= end then end - start + 1 else 0
    ensures forall k :: 0 <= k < |r| ==> r[k] == start + k
  {
    seq(if start <= end then end - start + 1 else 0, k => start + k)
  }

  /**
   * What one comma-separated part contributes; None when `int()` raises.
   * A part with one '-' is a range; with more than one it contributes nothing.
   */
  function ParsePart(part: string): Option<seq<int>> {
    if '-' in part then
      var rangeParts := Split(part, '-');
      if |rangeParts| == 2 then
        if IsDigits(rangeParts[0]) && IsDigits(rangeParts[1]) then
          Some(RangeInclusive(DigitsValue(rangeParts[0]), DigitsValue(rangeParts[1])))
        else None
      else Some([])
    else if IsDigits(part) then Some([DigitsValue(part)])
    else None
  }

  /** The contributions of the parts, concatenated in part order; None at the first bad part. */
  function ParseParts(parts: seq<string>): Option<seq<int>> {
    if |parts| == 0 then Some([])
    else
      match ParseParts(parts[..|parts| - 1])
      case None => None
      case Some(prefix) =>
        match ParsePart(parts[|parts| - 1])
        case None => None
        case Some(more) => Some(prefix + more)
  }

  function InvalidPageStringMessage(stripped: string): string {
    "Invalid page string format: " + stripped + ". Use format like '1,3,5-7,10'"
  }

  /** What parse_page_string returns or raises, as a function of its argument. */
  function PageNumbers(pageString: string): Result<seq<int>, string> {
    var stripped := RemoveSpaces(pageString);
    match ParseParts(Split(stripped, ','))
    case None => Failure(InvalidPageStringMessage(stripped))
    case Some(pageNumbers) => Success(pageNumbers)
  }

  /** A failing part makes the whole list fail, whatever follows it. */
  lemma {:induction false} ParsePartsPrefixFails(parts: seq<string>, i: nat)
    requires i <= |parts|
    requires ParseParts(parts[..i]).None?
    ensures ParseParts(parts).None?
    decreases |parts| - i
  {
    if i < |parts| {
      assert parts[..i + 1][..i] == parts[..i];
      ParsePartsPrefixFails(parts, i + 1);
    } else {
      assert parts[..i] == parts;
    }
  }

  /** parse_page_string: spaces removed, split on ',', each part appended or extended in order. */
  method ParsePageString(pageString: string) returns (r: Result<seq<int>, string>)
    ensures r == PageNumbers(pageString)
  {
    var stripped := RemoveSpaces(pageString);
    var parts := Split(stripped, ',');
    var pageNumbers: seq<int> := [];
    for i := 0 to |parts|
      invariant ParseParts(parts[..i]) == Some(pageNumbers)
    {
      var part := parts[i];
      assert parts[..i + 1][..i] == parts[..i] && parts[..i + 1][i] == part;
      if '-' in part {
        var rangeParts := Split(part, '-');
        if |rangeParts| == 2 {
          if !IsDigits(rangeParts[0]) || !IsDigits(rangeParts[1]) {
            ParsePartsPrefixFails(parts, i + 1);
            return Failure(InvalidPageStringMessage(stripped));
          }
          var start := DigitsValue(rangeParts[0]);
          var end := DigitsValue(rangeParts[1]);
          pageNumbers := pageNumbers + RangeInclusive(start, end);
        } else {
          assert ParsePart(part) == Some([]);
          assert pageNumbers + [] == pageNumbers;
        }
      } else {
        if !IsDigits(part) {
          ParsePartsPrefixFails(parts, i + 1);
          return Failure(InvalidPageStringMessage(stripped));
        }
        pageNumbers := pageNumbers + [DigitsValue(part)];
      }
    }
    assert parts[..|parts|] == parts;
    return Success(pageNumbers);
  }

  // ---------------------------------------------------------------------------
  // What parse_page_string promises

  /** A list of one part contributes what that part does. */
  lemma ParsePartsSingle(part: string)
    ensures ParseParts([part]) == ParsePart(part)
  {
    assert [part][..0] == [];
    if ParsePart(part).Some? {
      assert [] + ParsePart(part).value == ParsePart(part).value;
    }
  }

  lemma ExampleTailParts()
    ensures Split("5-7,10", ',') == ["5-7", "10"]
  {
    assert "5-7,10" == "5-7" + [','] + "10";
    SplitFirst("5-7", ',', "10");
    SplitNoSeparator("10", ',');
  }

  lemma ExampleLaterParts()
    ensures Split("3,5-7,10", ',') == ["3", "5-7", "10"]
  {
    ExampleTailParts();
    assert "3,5-7,10" == "3" + [','] + "5-7,10";
    SplitFirst("3", ',', "5-7,10");
  }

  /** How "1,3,5-7,10" splits on commas. */
  lemma ExampleParts()
    ensures Split("1,3,5-7,10", ',') == ["1", "3", "5-7", "10"]
  {
    ExampleLaterParts();
    assert "1,3,5-7,10" == "1" + [','] + "3,5-7,10";
    SplitFirst("1", ',', "3,5-7,10");
  }

  lemma ExampleFirstTwo()
    ensures ParseParts(["1", "3"]) == Some([1, 3])
  {
    assert ParsePart("1") == Some([1]);
    assert ParsePart("3") == Some([3]);
    assert ["1", "3"][..1] == ["1"];
    ParsePartsSingle("1");
    assert [1] + [3] == [1, 3];
  }

  lemma ExampleFirstThree()
    ensures ParseParts(["1", "3", "5-7"]) == Some([1, 3, 5, 6, 7])
  {
    ExampleFirstTwo();
    assert "5-7" == "5" + "-" + "7";
    RangePart("5", "7");
    assert RangeInclusive(5, 7) == [5, 6, 7];
    assert ["1", "3", "5-7"][..2] == ["1", "3"];
    assert [1, 3] + [5, 6, 7] == [1, 3, 5, 6, 7];
  }

  lemma ExampleAllFour()
    ensures ParseParts(["1", "3", "5-7", "10"]) == Some([1, 3, 5, 6, 7, 10])
  {
    ExampleFirstThree();
    assert ParsePart("10") == Some([10]);
    assert ["1", "3", "5-7", "10"][..3] == ["1", "3", "5-7"];
    assert [1, 3, 5, 6, 7] + [10] == [1, 3, 5, 6, 7, 10];
  }

  /** The docstring's example: "1,3,5-7,10" gives [1, 3, 5, 6, 7, 10]. */
  lemma PageNumbersExample()
    ensures PageNumbers("1,3,5-7,10") == Success([1, 3, 5, 6, 7, 10])
  {
    RemoveSpacesNoSpace("1,3,5-7,10");
    ExampleParts();
    ExampleAllFour();
  }

  /** Spaces are removed before anything else, so they never change the outcome. */
  lemma PageNumbersIgnoresSpaces(pageString: string)
    ensures PageNumbers(pageString) == PageNumbers(RemoveSpaces(pageString))
  {
    RemoveSpacesIdempotent(pageString);
  }

  /** "1, 3 ,5" is read exactly like "1,3,5". */
  lemma SpacedListExample()
    ensures PageNumbers("1, 3 ,5") == PageNumbers("1,3,5")
  {
    assert RemoveSpaces("1, 3 ,5") == "1,3,5";
    PageNumbersIgnoresSpaces("1, 3 ,5");
  }

  /** A part "a-b" of two digit strings contributes a, a+1, ..., b: ascending, and nothing when a > b. */
  lemma RangePart(a: string, b: string)
    requires IsDigits(a) && IsDigits(b)
    ensures ParsePart(a + "-" + b) == Some(RangeInclusive(DigitsValue(a), DigitsValue(b)))
    ensures DigitsValue(a) > DigitsValue(b) ==> ParsePart(a + "-" + b) == Some([])
    ensures forall i, j :: 0 <= i < j < |RangeInclusive(DigitsValue(a), DigitsValue(b))| ==>
              RangeInclusive(DigitsValue(a), DigitsValue(b))[i] < RangeInclusive(DigitsValue(a), DigitsValue(b))[j]
  {
    forall k | 0 <= k < |a| ensures a[k] != '-' { assert IsDigit(a[k]); }
    forall k | 0 <= k < |b| ensures b[k] != '-' { assert IsDigit(b[k]); }
    SplitFirst(a, '-', b);
    SplitNoSeparator(b, '-');
    assert (a + "-" + b)[|a|] == '-';
  }

  /** A part with more than one '-' ("1-2-3") is skipped silently: it contributes nothing. */
  lemma MultiDashPartSkipped(part: string)
    requires Count(part, '-') >= 2
    ensures ParsePart(part) == Some([])
  {
    SplitLength(part, '-');
    assert '-' in multiset(part);
  }

  /** Parts are read in order and their contributions concatenated: no sorting, no deduplication. */
  lemma {:induction false} ParsePartsAppend(ps: seq<string>, qs: seq<string>)
    ensures ParseParts(ps + qs) ==
              if ParseParts(ps).Some? && ParseParts(qs).Some?
              then Some(ParseParts(ps).value + ParseParts(qs).value)
              else None
    decreases |qs|
  {
    if |qs| == 0 {
      assert ps + qs == ps;
      if ParseParts(ps).Some? {
        assert ParseParts(ps).value + [] == ParseParts(ps).value;
      }
    } else {
      var init := qs[..|qs| - 1];
      assert (ps + qs)[..|ps + qs| - 1] == ps + init;
      assert (ps + qs)[|ps + qs| - 1] == qs[|qs| - 1];
      ParsePartsAppend(ps, init);
      if ParseParts(ps).Some? && ParseParts(init).Some? && ParsePart(qs[|qs| - 1]).Some? {
        var a, b, c := ParseParts(ps).value, ParseParts(init).value, ParsePart(qs[|qs| - 1]).value;
        assert (a + b) + c == a + (b + c);
      }
    }
  }

  /** "3,1,3" gives [3, 1, 3]: part order and duplicates are kept. */
  lemma OrderAndDuplicatesKept()
    ensures PageNumbers("3,1,3") == Success([3, 1, 3])
  {
    RemoveSpacesNoSpace("3,1,3");
    assert "3,1,3" == "3" + [','] + "1,3";
    assert "1,3" == "1" + [','] + "3";
    SplitFirst("3", ',', "1,3");
    SplitFirst("1", ',', "3");
    SplitNoSeparator("3", ',');
    assert Split("3,1,3", ',') == ["3"] + ["1"] + ["3"];
    ParsePartsSingle("3");
    ParsePartsSingle("1");
    ParsePartsAppend(["3"], ["1"]);
    ParsePartsAppend(["3"] + ["1"], ["3"]);
    assert [3] + [1] + [3] == [3, 1, 3];
  }

  /** The parse fails iff some part fails; the message quotes the space-stripped input. */
  lemma {:induction false} ParsePartsFailsIff(parts: seq<string>)
    ensures ParseParts(parts).None? <==> exists i :: 0 <= i < |parts| && ParsePart(parts[i]).None?
  {
    if |parts| > 0 {
      var init := parts[..|parts| - 1];
      ParsePartsFailsIff(init);
      if ParseParts(init).None? {
        var i :| 0 <= i < |init| && ParsePart(init[i]).None?;
        assert parts[i] == init[i];
      }
      if exists i :: 0 <= i < |parts| && ParsePart(parts[i]).None? {
        var i :| 0 <= i < |parts| && ParsePart(parts[i]).None?;
        if i < |parts| - 1 { assert init[i] == parts[i]; }
      }
    }
  }

  lemma PageNumbersFailsIff(pageString: string)
    ensures PageNumbers(pageString).Failure? <==>
              exists i :: 0 <= i < |Split(RemoveSpaces(pageString), ',')| &&
                          ParsePart(Split(RemoveSpaces(pageString), ',')[i]).None?
    ensures PageNumbers(pageString).Failure? ==>
              PageNumbers(pageString).error == InvalidPageStringMessage(RemoveSpaces(pageString))
  {
    var parts := Split(RemoveSpaces(pageString), ',');
    ParsePartsFailsIff(parts);
    if ParseParts(parts).None? {
      var i :| 0 <= i < |parts| && ParsePart(parts[i]).None?;
      assert PageNumbers(pageString).Failure?;
      assert 0 <= i < |Split(RemoveSpaces(pageString), ',')| && ParsePart(Split(RemoveSpaces(pageString), ',')[i]).None?;
      assert exists j :: 0 <= j < |Split(RemoveSpaces(pageString), ',')| && ParsePart(Split(RemoveSpaces(pageString), ',')[j]).None?;
    } else {
      assert PageNumbers(pageString).Success?;
    }
  }

  /** An empty string, a trailing comma and a leading dash are all rejected. */
  lemma MalformedExamples()
    ensures PageNumbers("") == Failure("Invalid page string format: . Use format like '1,3,5-7,10'")
    ensures PageNumbers("1,").Failure?
    ensures PageNumbers("-3").Failure?
  {
    assert RemoveSpaces("") == "";
    assert Split("", ',') == [""];
    ParsePartsSingle("");
    assert ParsePart("") == None;
    assert InvalidPageStringMessage("") == "Invalid page string format: . Use format like '1,3,5-7,10'";
    RemoveSpacesNoSpace("1,");
    assert "1," == "1" + [','] + "";
    SplitFirst("1", ',', "");
    PageNumbersFailsIff("1,");
    assert ParsePart(Split("1,", ',')[1]).None?;
    RemoveSpacesNoSpace("-3");
    SplitNoSeparator("-3", ',');
    SplitFirst("", '-', "3");
    assert "" + "-" + "3" == "-3";
    PageNumbersFailsIff("-3");
    assert ParsePart(Split("-3", ',')[0]).None?;
  }
}
