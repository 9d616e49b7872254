/**
 * The HTTP endpoints of the backend: which request is answered with a file, and which
 * with an error of which status and detail. Saving uploads, deleting them afterwards and
 * streaming the answer are left out; what the PDF library and the converters do is
 * given as parameters (the uploaded document, the converter's outcome), as is whether
 * the output file exists after it was written, and the millisecond timestamp.
 */
module Api {
  import opened Wrappers
  import opened Text
  import opened SplitPdf
  import opened MergePdf

  const PdfMedia := "application/pdf"
  const DocxMedia := "application/vnd.openxmlformats-officedocument.wordprocessingml.document"

  /**
   * What the client receives:
   *  - FileResponse: the output file under `filename`;
   *  - HttpError: an `HTTPException` that leaves the handler;
   *  - Crash: any other exception that leaves the handler, which the server answers with a
   *    plain 500 "Internal Server Error"; `exceptionType` names the exception.
   */
  datatype Response<T> =
    | FileResponse(filename: string, mediaType: string, body: T)
    | HttpError(status: nat, detail: string)
    | Crash(exceptionType: string)

  /** `str(e)` for an `HTTPException`: its status code, a colon and its detail. */
  function HttpExceptionText(status: nat, detail: string): (t: string)
    ensures StartsWith(t, IntToString(status) + ": ")
    ensures t[|IntToString(status) + ": "|..] == detail
  {
    IntToString(status) + ": " + detail
  }

  // ---------------------------------------------------------------------------
  // POST /api/split-pdf

  const OnlyPdf := "Only PDF files are allowed"
  const EmptyCustomPages := "Custom pages string is empty"
  const OutputNotCreated := "Output PDF was not created"

  function SplitFailed(message: string): string {
    "Split failed: " + message
  }

  function StartAfterEndMessage(start: int, end: int): string {
    "Start page (" + IntToString(start) + ") cannot be greater than end page (" + IntToString(end) + ")"
  }

  /**
   * The page range the range mode hands to split_pdf_range: a missing start is 1, a
   * missing end is the page count; then a start below 1 is raised to 1 and an end above
   * the page count lowered to it, and nothing else is changed. A start that is still
   * after the end is a ValueError.
   */
  function NormalizedRange(startPage: Option<int>, endPage: Option<int>, totalPages: nat): (r: Result<(int, int), string>)
    ensures r.Success? ==> ValidRange(totalPages, r.value.0, r.value.1)
    ensures r.Success? ==>
              (startPage.GetOr(1) >= 1 ==> r.value.0 == startPage.GetOr(1)) &&
              (startPage.GetOr(1) < 1 ==> r.value.0 == 1) &&
              (endPage.GetOr(totalPages) <= totalPages ==> r.value.1 == endPage.GetOr(totalPages)) &&
              (endPage.GetOr(totalPages) > totalPages ==> r.value.1 == totalPages)
    ensures r.Failure? <==>
              (if startPage.GetOr(1) < 1 then 1 else startPage.GetOr(1)) >
              (if endPage.GetOr(totalPages) > totalPages then totalPages else endPage.GetOr(totalPages))
  {
    var start := if startPage.GetOr(1) < 1 then 1 else startPage.GetOr(1);
    var end := if endPage.GetOr(totalPages) > totalPages then totalPages else endPage.GetOr(totalPages);
    if start > end then Failure(StartAfterEndMessage(start, end)) else Success((start, end))
  }

  /** The start and end reassignments of the range mode, one step at a time. */
  method NormalizePageRange(startPage: Option<int>, endPage: Option<int>, totalPages: nat)
    returns (r: Result<(int, int), string>)
    ensures r == NormalizedRange(startPage, endPage, totalPages)
  {
    var start: int;
    if startPage.None? {
      start := 1;
    } else {
      start := startPage.value;
    }
    var end: int;
    if endPage.None? {
      end := totalPages;
    } else {
      end := endPage.value;
    }
    if start < 1 {
      start := 1;
    }
    if end > totalPages {
      end := totalPages;
    }
    if start > end {
      return Failure(StartAfterEndMessage(start, end));
    }
    return Success((start, end));
  }

  /** Neither bound given: the whole document, when it has a page. */
  lemma MissingBoundsSelectWholeDocument(totalPages: nat)
    requires totalPages >= 1
    ensures NormalizedRange(None, None, totalPages) == Success((1, totalPages))
  {
  }

  /** A range already inside the document is used as given. */
  lemma ValidRangeUnchanged(start: int, end: int, totalPages: nat)
    requires ValidRange(totalPages, start, end)
    ensures NormalizedRange(Some(start), Some(end), totalPages) == Success((start, end))
  {
  }

  /** A document without pages fails whatever bounds are given. */
  lemma EmptyDocumentRangeFails(startPage: Option<int>, endPage: Option<int>)
    ensures NormalizedRange(startPage, endPage, 0).Failure?
  {
  }

  /** The range split_pdf_range then extracts: the normalized pages, in document order. */
  lemma NormalizedRangeExtracts<P>(pages: seq<P>, startPage: Option<int>, endPage: Option<int>)
    requires NormalizedRange(startPage, endPage, |pages|).Success?
    ensures var (s, e) := NormalizedRange(startPage, endPage, |pages|).value;
            0 <= s - 1 <= e <= |pages| && |pages[s - 1..e]| == e - s + 1
  {
  }

  /** A split answered with `body`, or the error when the output file is missing. */
  function SplitWritten<P>(body: seq<P>, timestamp: nat, outputWritten: bool): Response<seq<P>> {
    if outputWritten then FileResponse("split_" + IntToString(timestamp) + ".pdf", PdfMedia, body)
    else HttpError(500, SplitFailed(OutputNotCreated))
  }

  /**
   * `split_pdf_endpoint`. The name check comes first, then reading the upload, then the
   * mode. A ValueError (a start after the end, an empty or malformed custom string) is
   * answered with 400 and its message; every other exception, an `HTTPException` raised
   * inside the `try` included, with 500 and "Split failed: " before its text.
   */
  method SplitPdfEndpoint<P>(filename: string, splitMode: string, startPage: Option<int>, endPage: Option<int>,
                             customPages: Option<string>, doc: Document<P>, timestamp: nat, outputWritten: bool)
    returns (r: Response<seq<P>>)
    ensures !EndsWith(filename, ".pdf") ==> r == HttpError(500, SplitFailed(HttpExceptionText(400, OnlyPdf)))
    ensures EndsWith(filename, ".pdf") && doc.Unreadable? ==> r == HttpError(500, SplitFailed(doc.reason))
    ensures EndsWith(filename, ".pdf") && doc.Readable? && splitMode == "range" ==>
              match NormalizedRange(startPage, endPage, |doc.pages|)
              case Failure(message) => r == HttpError(400, message)
              case Success((s, e)) => r == SplitWritten(doc.pages[s - 1..e], timestamp, outputWritten)
    ensures EndsWith(filename, ".pdf") && doc.Readable? && splitMode == "custom" ==>
              if customPages.None? || IsBlank(customPages.value) then
                r == HttpError(400, EmptyCustomPages)
              else match PageNumbers(customPages.value)
                case Failure(message) => r == HttpError(400, message)
                case Success(nums) =>
                  match FirstInvalidIndex(nums, |doc.pages|)
                  case Some(k) =>
                    r == HttpError(500, SplitFailed("Failed to extract custom pages: " +
                                                    InvalidPageMessage(nums[k], |doc.pages|)))
                  case None => r == SplitWritten(CustomSelection(doc.pages, nums), timestamp, outputWritten)
    ensures EndsWith(filename, ".pdf") && doc.Readable? && splitMode != "range" && splitMode != "custom" ==>
              r == HttpError(500, SplitFailed(HttpExceptionText(400, "Invalid split mode: " + splitMode)))
  {
    if !EndsWith(filename, ".pdf") {
      return HttpError(500, SplitFailed(HttpExceptionText(400, OnlyPdf)));
    }
    if doc.Unreadable? {
      return HttpError(500, SplitFailed(doc.reason));
    }
    var written: seq<P>;
    if splitMode == "range" {
      var range := NormalizePageRange(startPage, endPage, |doc.pages|);
      if range.Failure? {
        return HttpError(400, range.error);
      }
      var (start, end) := range.value;
      // split_pdf_range accepts every normalized range, so its failure branch is not taken.
      var extracted := SplitPdfRange(doc, start, end);
      written := extracted.value;
      assert written == doc.pages[start - 1..end];
    } else if splitMode == "custom" {
      if customPages.None? || IsBlank(customPages.value) {
        return HttpError(400, EmptyCustomPages);
      }
      var parsed := ParsePageString(customPages.value);
      if parsed.Failure? {
        return HttpError(400, parsed.error);
      }
      var extracted := SplitPdfCustom(doc, parsed.value);
      if extracted.Failure? {
        return HttpError(500, SplitFailed(extracted.error));
      }
      written := extracted.value;
    } else {
      return HttpError(500, SplitFailed(HttpExceptionText(400, "Invalid split mode: " + splitMode)));
    }
    if !outputWritten {
      return HttpError(500, SplitFailed(OutputNotCreated));
    }
    return FileResponse("split_" + IntToString(timestamp) + ".pdf", PdfMedia, written);
  }

  /** A custom string whose only part is a descending range selects nothing, yet succeeds. */
  lemma DescendingCustomRangeSelectsNothing<P>(pages: seq<P>)
    ensures PageNumbers("5-3") == Success([])
    ensures CustomSelection(pages, []) == []
  {
    RemoveSpacesNoSpace("5-3");
    SplitNoSeparator("5-3", ',');
    assert "5-3" == "5" + "-" + "3";
    RangePart("5", "3");
    ParsePartsSingle("5-3");
  }

  // ---------------------------------------------------------------------------
  // POST /api/merge-pdf

  /** One element of `files`: the client's file name and what reading it yields. */
  datatype Upload<P> = Upload(filename: string, doc: Document<P>)

  function NotPdfMessage(filename: string): string {
    "File '" + filename + "' is not a PDF"
  }

  /** The name the upload numbered `idx` is saved under. */
  function SavedName(timestamp: nat, idx: nat, filename: string): string {
    IntToString(timestamp) + "_" + IntToString(idx) + "_" + filename
  }

  /** Where the upload numbered `idx` is saved. */
  function UploadPath(timestamp: nat, idx: nat, filename: string): string {
    "uploads/" + SavedName(timestamp, idx, filename)
  }

  /** The first upload whose name does not end in ".pdf" (case-sensitive). */
  function FirstNonPdf<P>(files: seq<Upload<P>>): (r: Option<nat>)
    ensures r.Some? ==> r.value < |files| && !EndsWith(files[r.value].filename, ".pdf") &&
                        forall j :: 0 <= j < r.value ==> EndsWith(files[j].filename, ".pdf")
    ensures r.None? <==> forall j :: 0 <= j < |files| ==> EndsWith(files[j].filename, ".pdf")
  {
    if |files| == 0 then None
    else if !EndsWith(files[0].filename, ".pdf") then Some(0)
    else match FirstNonPdf(files[1..])
      case None => None
      case Some(k) =>
        assert files[1..][k] == files[k + 1];
        Some(k + 1)
  }

  lemma FirstNonPdfAt<P>(files: seq<Upload<P>>, k: nat)
    requires k < |files| && !EndsWith(files[k].filename, ".pdf")
    requires forall j :: 0 <= j < k ==> EndsWith(files[j].filename, ".pdf")
    ensures FirstNonPdf(files) == Some(k)
  {
  }

  /** The saved uploads, numbered 1..n in request order, as merge_pdfs receives them. */
  function UploadInputs<P>(files: seq<Upload<P>>, timestamp: nat): (r: seq<Input<P>>)
    ensures |r| == |files|
    ensures forall j :: 0 <= j < |files| ==>
              r[j] == Input(UploadPath(timestamp, j + 1, files[j].filename), files[j].doc)
  {
    if |files| == 0 then []
    else
      var n := |files|;
      UploadInputs(files[..n - 1], timestamp) + [Input(UploadPath(timestamp, n, files[n - 1].filename), files[n - 1].doc)]
  }

  function MergeFailed(message: string): string {
    "Merge failed: " + message
  }

  /**
   * The answer once the count and the names are accepted: the merge's failure with
   * "Merge failed: " before it, or the merged pages.
   */
  function MergeResponse<P>(inputs: seq<Input<P>>, timestamp: nat, outputWritten: bool): Response<seq<P>> {
    match FirstUnreadable(inputs)
    case Some(k) => HttpError(500, MergeFailed(MergeFailure(ReadErrorMessage(inputs[k].path, inputs[k].doc.reason))))
    case None =>
      if outputWritten then FileResponse("merged_" + IntToString(timestamp) + ".pdf", PdfMedia, MergedPages(inputs))
      else HttpError(500, MergeFailed(MergeFailure(NotCreated)))
  }

  /**
   * `merge_pdf_endpoint`: 2 to 10 files, each named "*.pdf", saved and numbered in request
   * order and merged in that order. HTTPExceptions leave unchanged; a failure of the merge
   * is answered with 500 and "Merge failed: " before its message.
   */
  method MergePdfEndpoint<P>(files: seq<Upload<P>>, timestamp: nat, outputWritten: bool)
    returns (r: Response<seq<P>>)
    ensures |files| < 2 ==> r == HttpError(400, "Please upload at least 2 PDF files")
    ensures |files| > 10 ==> r == HttpError(400, "Maximum 10 PDF files allowed")
    ensures 2 <= |files| <= 10 && FirstNonPdf(files).Some? ==>
              r == HttpError(400, NotPdfMessage(files[FirstNonPdf(files).value].filename))
    ensures 2 <= |files| <= 10 && FirstNonPdf(files).None? ==>
              r == MergeResponse(UploadInputs(files, timestamp), timestamp, outputWritten)
  {
    if |files| < 2 {
      return HttpError(400, "Please upload at least 2 PDF files");
    }
    if |files| > 10 {
      return HttpError(400, "Maximum 10 PDF files allowed");
    }
    var uploaded: seq<Input<P>> := [];
    for idx := 0 to |files|
      invariant forall j :: 0 <= j < idx ==> EndsWith(files[j].filename, ".pdf")
      invariant uploaded == UploadInputs(files[..idx], timestamp)
    {
      if !EndsWith(files[idx].filename, ".pdf") {
        FirstNonPdfAt(files, idx);
        return HttpError(400, NotPdfMessage(files[idx].filename));
      }
      assert files[..idx + 1][..idx] == files[..idx];
      uploaded := uploaded + [Input(UploadPath(timestamp, idx + 1, files[idx].filename), files[idx].doc)];
    }
    assert files[..|files|] == files;
    assert FirstNonPdf(files).None?;
    var merged := MergePdfs(uploaded, outputWritten);
    if merged.Failure? {
      r := HttpError(500, MergeFailed(merged.error));
    } else {
      r := FileResponse("merged_" + IntToString(timestamp) + ".pdf", PdfMedia, merged.value.pages);
    }
    assert r == MergeResponse(uploaded, timestamp, outputWritten);
  }

  /**
   * A read failure names the SAVED file, "<timestamp>_<number>_<name>", not the name
   * the client sent.
   */
  lemma ReadFailureNamesSavedFile(timestamp: nat, idx: nat, filename: string, reason: string)
    requires '/' !in filename
    ensures ReadErrorMessage(UploadPath(timestamp, idx, filename), reason) ==
              "Error reading " + SavedName(timestamp, idx, filename) + ": " + reason
  {
    var name := SavedName(timestamp, idx, filename);
    NoSlashInDigits(NatToString(timestamp));
    NoSlashInDigits(NatToString(idx));
    assert '/' !in name;
    assert UploadPath(timestamp, idx, filename) == "uploads" + "/" + name;
    BasenameAfterSlash("uploads", name);
  }

  lemma NoSlashInDigits(s: string)
    requires IsDigits(s)
    ensures '/' !in s
  {
    forall i | 0 <= i < |s| ensures s[i] != '/' { assert IsDigit(s[i]); }
  }

  /** Two readable uploads merge into the first one's pages followed by the second one's. */
  lemma MergeKeepsRequestOrder<P>(a: Upload<P>, b: Upload<P>, timestamp: nat)
    requires a.doc.Readable? && b.doc.Readable?
    ensures AllReadable(UploadInputs([a, b], timestamp))
    ensures MergedPages(UploadInputs([a, b], timestamp)) == a.doc.pages + b.doc.pages
  {
    var inputs := UploadInputs([a, b], timestamp);
    assert inputs[..1][..0] == [];
    assert MergedPages(inputs[..1]) == [] + a.doc.pages == a.doc.pages;
  }

  // ---------------------------------------------------------------------------
  // POST /api/pdf-to-word and POST /api/word-to-pdf

  /**
   * `pdf_to_word` as written. `converted` is what `convert_pdf_to_word` does: the Word
   * document, or the message of the exception it raises. A name not ending in ".pdf"
   * raises an `HTTPException` before `upload_path` is assigned; the `except` block then
   * reads `upload_path`, and the UnboundLocalError this raises leaves the handler.
   */
  function PdfToWordAsWritten<T>(filename: string, timestamp: nat, converted: Result<T, string>): (r: Response<T>)
    ensures r.Crash? <==> !EndsWith(filename, ".pdf")
  {
    if !EndsWith(filename, ".pdf") then Crash("UnboundLocalError")
    else match converted
      case Failure(message) => HttpError(500, "Conversion failed: " + message)
      case Success(doc) => FileResponse("converted_" + IntToString(timestamp) + ".docx", DocxMedia, doc)
  }

  /**
   * `pdf_to_word` with `upload_path` bound before the `try`, as `split_pdf_endpoint`
   * does: the rejected name is answered like any other failure.
   */
  function PdfToWordResponse<T>(filename: string, timestamp: nat, converted: Result<T, string>): (r: Response<T>)
    ensures !r.Crash?
    ensures r.FileResponse? <==> EndsWith(filename, ".pdf") && converted.Success?
    ensures r.FileResponse? ==> r.body == converted.value && EndsWith(r.filename, ".docx")
    ensures r.HttpError? ==> r.status == 500 && StartsWith(r.detail, "Conversion failed: ")
    ensures !EndsWith(filename, ".pdf") ==> r == HttpError(500, "Conversion failed: " + HttpExceptionText(400, OnlyPdf))
  {
    if !EndsWith(filename, ".pdf") then HttpError(500, "Conversion failed: " + HttpExceptionText(400, OnlyPdf))
    else match converted
      case Failure(message) => HttpError(500, "Conversion failed: " + message)
      case Success(doc) => FileResponse("converted_" + IntToString(timestamp) + ".docx", DocxMedia, doc)
  }

  /** The two agree on every accepted name; they differ exactly on the rejected ones. */
  lemma PdfToWordFixOnlyTouchesRejection<T>(filename: string, timestamp: nat, converted: Result<T, string>)
    ensures EndsWith(filename, ".pdf") ==>
              PdfToWordAsWritten(filename, timestamp, converted) == PdfToWordResponse(filename, timestamp, converted)
    ensures !EndsWith(filename, ".pdf") ==>
              PdfToWordAsWritten(filename, timestamp, converted).Crash? &&
              PdfToWordResponse(filename, timestamp, converted).HttpError?
  {
  }

  /** "notes.txt" crashes the handler instead of being answered. */
  lemma PdfToWordCrashExample<T>(doc: T)
    ensures PdfToWordAsWritten("notes.txt", 0, Success(doc)) == Crash("UnboundLocalError")
  {
    assert "notes.txt"[6] == 't';
  }

  predicate IsWordName(filename: string) {
    EndsWith(filename, ".docx") || EndsWith(filename, ".doc")
  }

  const OnlyWord := "Only Word files (.doc, .docx) are allowed"

  /** `word_to_pdf` as written: the same unbound `upload_path` on a rejected name. */
  function WordToPdfAsWritten<T>(filename: string, timestamp: nat, converted: Result<T, string>): (r: Response<T>)
    ensures r.Crash? <==> !IsWordName(filename)
  {
    if !IsWordName(filename) then Crash("UnboundLocalError")
    else match converted
      case Failure(message) => HttpError(500, "Conversion failed: " + message)
      case Success(doc) => FileResponse("converted_" + IntToString(timestamp) + ".pdf", PdfMedia, doc)
  }

  /** `word_to_pdf` with `upload_path` bound before the `try`. */
  function WordToPdfResponse<T>(filename: string, timestamp: nat, converted: Result<T, string>): (r: Response<T>)
    ensures !r.Crash?
    ensures r.FileResponse? <==> IsWordName(filename) && converted.Success?
    ensures r.FileResponse? ==> r.body == converted.value && EndsWith(r.filename, ".pdf")
    ensures r.HttpError? ==> r.status == 500 && StartsWith(r.detail, "Conversion failed: ")
    ensures !IsWordName(filename) ==> r == HttpError(500, "Conversion failed: " + HttpExceptionText(400, OnlyWord))
  {
    if !IsWordName(filename) then HttpError(500, "Conversion failed: " + HttpExceptionText(400, OnlyWord))
    else match converted
      case Failure(message) => HttpError(500, "Conversion failed: " + message)
      case Success(doc) => FileResponse("converted_" + IntToString(timestamp) + ".pdf", PdfMedia, doc)
  }

  lemma WordToPdfFixOnlyTouchesRejection<T>(filename: string, timestamp: nat, converted: Result<T, string>)
    ensures IsWordName(filename) ==>
              WordToPdfAsWritten(filename, timestamp, converted) == WordToPdfResponse(filename, timestamp, converted)
    ensures !IsWordName(filename) ==>
              WordToPdfAsWritten(filename, timestamp, converted).Crash? &&
              WordToPdfResponse(filename, timestamp, converted).HttpError?
  {
  }

  /** A PDF sent to the Word-to-PDF endpoint crashes the handler. */
  lemma WordToPdfCrashExample<T>(doc: T)
    ensures WordToPdfAsWritten("report.pdf", 0, Success(doc)) == Crash("UnboundLocalError")
  {
    assert "report.pdf"[5] == 't';
    assert "report.pdf"[7] == 'p';
  }
}
