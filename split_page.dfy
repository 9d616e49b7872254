/**
 * The split page of the front end: one selected PDF, the split parameters the user
 * enters, the request sent to the split endpoint, and the download of its answer.
 * Alerts are returned as the messages raised; the download's timer is the separate
 * method `ResetAfterDownload`.
 */
module FrontendSplit {
  import opened Wrappers
  import opened Text
  import opened Files

  /** The two choices of the page's radio buttons. */
  datatype SplitOption = Range | Custom {
    /** The `split_mode` value sent for this choice. */
    function Mode(): string {
      match this
      case Range => "range"
      case Custom => "custom"
    }
  }

  const SelectAlert := "Please select a valid PDF file"
  const DropAlert := "Please drop a valid PDF file"
  const SplitFailedFallback := "Split failed"
  const SplitGenericFallback := "Failed to split PDF. Please try again."
  const SplitSuffix := "-split.pdf"

  /**
   * The start-page input stores `parseInt(value) || 1`: the number typed, or 1 when
   * there is none or it is 0.
   */
  function StartPageValue(text: string): (v: int)
    ensures v != 0
    ensures ParseInt(text).Some? && ParseInt(text).value != 0 ==> v == ParseInt(text).value
    ensures ParseInt(text).None? || ParseInt(text).value == 0 ==> v == 1
  {
    match ParseInt(text)
    case Some(n) => if n != 0 then n else 1
    case None => 1
  }

  /** Any non-zero number shown in the input reads back as itself. */
  lemma StartPageOfRendered(n: int)
    requires n != 0
    ensures StartPageValue(IntToString(n)) == n
  {
    ParseIntOfIntToString(n);
  }

  /** An empty, a non-numeric or a zero entry becomes 1. */
  lemma StartPageFallbacks()
    ensures StartPageValue("") == 1
    ensures StartPageValue("abc") == 1
    ensures StartPageValue("0") == 1
  {
    assert DigitPrefix("abc") == "";
    assert DigitPrefix("0") == "0";
  }

  /**
   * The names a split request carries, in the order they are appended: "pdf" and
   * "split_mode", then "start_page" and a non-empty "end_page" in range mode, or
   * "custom_pages" in custom mode.
   */
  function SplitFieldNames(option: SplitOption, endPage: string): seq<string> {
    if option == Custom then ["pdf", "split_mode", "custom_pages"]
    else if endPage != "" then ["pdf", "split_mode", "start_page", "end_page"]
    else ["pdf", "split_mode", "start_page"]
  }

  /** No name is sent twice, so every field is found by its name. */
  lemma SplitFieldNamesDistinct(option: SplitOption, endPage: string)
    ensures var names := SplitFieldNames(option, endPage);
            forall i, j :: 0 <= i < j < |names| ==> names[i] != names[j]
  {
    assert "pdf"[0] != "split_mode"[0] && "pdf"[0] != "start_page"[0] && "pdf"[0] != "end_page"[0];
    assert "pdf"[0] != "custom_pages"[0] && "split_mode"[0] != "end_page"[0] && "split_mode"[0] != "custom_pages"[0];
    assert "split_mode"[1] != "start_page"[1] && "start_page"[0] != "end_page"[0];
  }

  /**
   * The request body of `handleSplit`: "pdf" and "split_mode" always; in range mode
   * "start_page", and "end_page" only when the end field is not empty; in custom mode
   * "custom_pages". Those are all the fields it has.
   */
  function SplitRequest(file: File, option: SplitOption, startPage: int, endPage: string, customPages: string)
    : (fields: seq<Field>)
    ensures FieldNames(fields) == SplitFieldNames(option, endPage)
    ensures Lookup(fields, "pdf") == Some(FileValue(file))
    ensures Lookup(fields, "split_mode") == Some(TextValue(option.Mode()))
    ensures Lookup(fields, "start_page") == if option == Range then Some(TextValue(IntToString(startPage))) else None
    ensures Lookup(fields, "end_page") == if option == Range && endPage != "" then Some(TextValue(endPage)) else None
    ensures Lookup(fields, "custom_pages") == if option == Custom then Some(TextValue(customPages)) else None
  {
    var pdf, mode := FileValue(file), TextValue(option.Mode());
    var start, end, custom := TextValue(IntToString(startPage)), TextValue(endPage), TextValue(customPages);
    if option == Custom then
      CustomRequestLookups(pdf, mode, custom);
      [Field("pdf", pdf), Field("split_mode", mode), Field("custom_pages", custom)]
    else if endPage != "" then
      RangeRequestLookups(pdf, mode, start, end);
      RangeRequestNames(pdf, mode, start, end);
      [Field("pdf", pdf), Field("split_mode", mode), Field("start_page", start), Field("end_page", end)]
    else
      RangeRequestWithoutEndLookups(pdf, mode, start);
      [Field("pdf", pdf), Field("split_mode", mode), Field("start_page", start)]
  }

  lemma RangeRequestLookups(pdf: FieldValue, mode: FieldValue, start: FieldValue, end: FieldValue)
    ensures var fields := [Field("pdf", pdf), Field("split_mode", mode), Field("start_page", start), Field("end_page", end)];
            Lookup(fields, "pdf") == Some(pdf) && Lookup(fields, "split_mode") == Some(mode) &&
            Lookup(fields, "start_page") == Some(start) && Lookup(fields, "end_page") == Some(end) &&
            Lookup(fields, "custom_pages") == None
  {
    var init := [Field("pdf", pdf), Field("split_mode", mode), Field("start_page", start)];
    var last := Field("end_page", end);
    assert init + [last] == [Field("pdf", pdf), Field("split_mode", mode), Field("start_page", start), Field("end_page", end)];
    RangeRequestWithoutEndLookups(pdf, mode, start);
    LookupAppend(init, last, "pdf");
    LookupAppend(init, last, "split_mode");
    LookupAppend(init, last, "start_page");
    LookupAppend(init, last, "end_page");
    LookupAppend(init, last, "custom_pages");
    assert "end_page"[0] != "pdf"[0] && "end_page"[0] != "split_mode"[0] && "end_page"[0] != "custom_pages"[0];
  }

  lemma RangeRequestNames(pdf: FieldValue, mode: FieldValue, start: FieldValue, end: FieldValue)
    ensures FieldNames([Field("pdf", pdf), Field("split_mode", mode), Field("start_page", start), Field("end_page", end)]) ==
            ["pdf", "split_mode", "start_page", "end_page"]
  {
    var names := FieldNames([Field("pdf", pdf), Field("split_mode", mode), Field("start_page", start), Field("end_page", end)]);
    assert names[0] == "pdf" && names[1] == "split_mode" && names[2] == "start_page" && names[3] == "end_page";
  }

  lemma RangeRequestWithoutEndLookups(pdf: FieldValue, mode: FieldValue, start: FieldValue)
    ensures var fields := [Field("pdf", pdf), Field("split_mode", mode), Field("start_page", start)];
            Lookup(fields, "pdf") == Some(pdf) && Lookup(fields, "split_mode") == Some(mode) &&
            Lookup(fields, "start_page") == Some(start) && Lookup(fields, "end_page") == None &&
            Lookup(fields, "custom_pages") == None &&
            FieldNames(fields) == ["pdf", "split_mode", "start_page"]
  {
    var fields := [Field("pdf", pdf), Field("split_mode", mode), Field("start_page", start)];
    assert fields[1..] == [Field("split_mode", mode), Field("start_page", start)];
    assert fields[1..][1..] == [Field("start_page", start)];
    assert "split_mode"[1] != "start_page"[1];
    var names := FieldNames(fields);
    assert names[0] == "pdf" && names[1] == "split_mode" && names[2] == "start_page";
  }

  lemma CustomRequestLookups(pdf: FieldValue, mode: FieldValue, custom: FieldValue)
    ensures var fields := [Field("pdf", pdf), Field("split_mode", mode), Field("custom_pages", custom)];
            Lookup(fields, "pdf") == Some(pdf) && Lookup(fields, "split_mode") == Some(mode) &&
            Lookup(fields, "start_page") == None && Lookup(fields, "end_page") == None &&
            Lookup(fields, "custom_pages") == Some(custom) &&
            FieldNames(fields) == ["pdf", "split_mode", "custom_pages"]
  {
    var fields := [Field("pdf", pdf), Field("split_mode", mode), Field("custom_pages", custom)];
    assert fields[1..] == [Field("split_mode", mode), Field("custom_pages", custom)];
    assert fields[1..][1..] == [Field("custom_pages", custom)];
    assert "split_mode"[1] != "start_page"[1];
    var names := FieldNames(fields);
    assert names[0] == "pdf" && names[1] == "split_mode" && names[2] == "custom_pages";
  }

  class SplitPdfPage {
    var selectedFile: Option<File>
    var splitOption: SplitOption
    var startPage: int
    var endPage: string
    var customPages: string
    var isSplitting: bool
    var isSplit: bool
    var splitBlob: Option<Blob>
    var error: Option<string>
    /** Reset timers started by downloads and not yet run. */
    var pendingResets: nat

    /** A result is held exactly when it is marked; the start page is never 0. */
    predicate Valid()
      reads this
    {
      (isSplit <==> splitBlob.Some?) && startPage != 0 &&
      (selectedFile.Some? ==> IsPdf(selectedFile.value))
    }

    /** Range mode from page 1 to an empty end, no custom pages, no file. */
    constructor ()
      ensures Valid()
      ensures selectedFile.None? && splitOption == Range && startPage == 1 && endPage == "" && customPages == ""
      ensures !isSplitting && !isSplit && splitBlob.None? && error.None? && pendingResets == 0
    {
      selectedFile := None;
      splitOption := Range;
      startPage := 1;
      endPage := "";
      customPages := "";
      isSplitting := false;
      isSplit := false;
      splitBlob := None;
      error := None;
      pendingResets := 0;
    }

    /** A PDF replaces the selection and clears the error and the result. */
    method Accept(file: File)
      requires Valid() && IsPdf(file)
      modifies this
      ensures Valid()
      ensures selectedFile == Some(file) && error.None? && !isSplit && splitBlob.None?
      ensures splitOption == old(splitOption) && startPage == old(startPage) && endPage == old(endPage)
      ensures customPages == old(customPages) && isSplitting == old(isSplitting) && pendingResets == old(pendingResets)
    {
      selectedFile := Some(file);
      error := None;
      isSplit := false;
      splitBlob := None;
    }

    /** `handleFileSelect`: the first chosen file is taken if it is a PDF. */
    method SelectFile(files: seq<File>) returns (alerts: seq<string>)
      requires Valid()
      modifies this
      ensures Valid()
      ensures FirstIsPdf(files) ==> alerts == [] && selectedFile == Some(files[0]) && error.None? && !isSplit && splitBlob.None?
      ensures FirstIsPdf(files) ==> splitOption == old(splitOption) && startPage == old(startPage) &&
                                    endPage == old(endPage) && customPages == old(customPages) &&
                                    isSplitting == old(isSplitting) && pendingResets == old(pendingResets)
      ensures !FirstIsPdf(files) ==> alerts == [SelectAlert] && unchanged(this)
    {
      if |files| > 0 && IsPdf(files[0]) {
        Accept(files[0]);
        return [];
      }
      return [SelectAlert];
    }

    /** `handleDrop`: only the first dropped file is considered. */
    method DropFile(files: seq<File>) returns (alerts: seq<string>)
      requires Valid()
      modifies this
      ensures Valid()
      ensures FirstIsPdf(files) ==> alerts == [] && selectedFile == Some(files[0]) && error.None? && !isSplit && splitBlob.None?
      ensures FirstIsPdf(files) ==> splitOption == old(splitOption) && startPage == old(startPage) &&
                                    endPage == old(endPage) && customPages == old(customPages) &&
                                    isSplitting == old(isSplitting) && pendingResets == old(pendingResets)
      ensures !FirstIsPdf(files) ==> alerts == [DropAlert] && unchanged(this)
    {
      if |files| > 0 && IsPdf(files[0]) {
        Accept(files[0]);
        return [];
      }
      return [DropAlert];
    }

    /** The radio buttons. */
    method SetSplitOption(option: SplitOption)
      requires Valid()
      modifies this
      ensures Valid()
      ensures splitOption == option
      ensures selectedFile == old(selectedFile) && startPage == old(startPage) && endPage == old(endPage)
      ensures customPages == old(customPages) && isSplitting == old(isSplitting) && isSplit == old(isSplit)
      ensures splitBlob == old(splitBlob) && error == old(error) && pendingResets == old(pendingResets)
    {
      splitOption := option;
    }

    /** The start-page input: the coerced number is stored. */
    method SetStartPageInput(text: string)
      requires Valid()
      modifies this
      ensures Valid()
      ensures startPage == StartPageValue(text)
      ensures selectedFile == old(selectedFile) && splitOption == old(splitOption) && endPage == old(endPage)
      ensures customPages == old(customPages) && isSplitting == old(isSplitting) && isSplit == old(isSplit)
      ensures splitBlob == old(splitBlob) && error == old(error) && pendingResets == old(pendingResets)
    {
      startPage := StartPageValue(text);
    }

    /** The end-page input: the text is stored as typed. */
    method SetEndPageInput(text: string)
      requires Valid()
      modifies this
      ensures Valid()
      ensures endPage == text
      ensures selectedFile == old(selectedFile) && splitOption == old(splitOption) && startPage == old(startPage)
      ensures customPages == old(customPages) && isSplitting == old(isSplitting) && isSplit == old(isSplit)
      ensures splitBlob == old(splitBlob) && error == old(error) && pendingResets == old(pendingResets)
    {
      endPage := text;
    }

    /** The custom-pages input: the text is stored as typed. */
    method SetCustomPagesInput(text: string)
      requires Valid()
      modifies this
      ensures Valid()
      ensures customPages == text
      ensures selectedFile == old(selectedFile) && splitOption == old(splitOption) && startPage == old(startPage)
      ensures endPage == old(endPage) && isSplitting == old(isSplitting) && isSplit == old(isSplit)
      ensures splitBlob == old(splitBlob) && error == old(error) && pendingResets == old(pendingResets)
    {
      customPages := text;
    }

    /**
     * `handleSplit` up to the request: nothing without a file; otherwise the page is
     * marked as splitting and the request is built from the current parameters. The
     * button is not shown while a split is in flight, hence the precondition.
     */
    method HandleSplit() returns (request: Option<seq<Field>>)
      requires Valid() && !isSplitting
      modifies this
      ensures Valid()
      ensures old(selectedFile).None? ==> request.None? && unchanged(this)
      ensures old(selectedFile).Some? ==>
                request == Some(SplitRequest(old(selectedFile).value, splitOption, startPage, endPage, customPages)) &&
                isSplitting && error.None?
      ensures selectedFile == old(selectedFile) && splitOption == old(splitOption) && startPage == old(startPage)
      ensures endPage == old(endPage) && customPages == old(customPages) && isSplit == old(isSplit)
      ensures splitBlob == old(splitBlob) && pendingResets == old(pendingResets)
    {
      if selectedFile.None? {
        return None;
      }
      isSplitting := true;
      error := None;
      return Some(SplitRequest(selectedFile.value, splitOption, startPage, endPage, customPages));
    }

    /**
     * The rest of `handleSplit`, once the response is known: the body is kept, or the
     * error shown; the file and the parameters stay as they are.
     */
    method ReceiveSplitResponse(outcome: Outcome)
      requires Valid() && isSplitting
      modifies this
      ensures Valid()
      ensures !isSplitting
      ensures selectedFile == old(selectedFile) && splitOption == old(splitOption) && startPage == old(startPage)
      ensures endPage == old(endPage) && customPages == old(customPages) && pendingResets == old(pendingResets)
      ensures outcome.Ok? ==> splitBlob == Some(outcome.body) && isSplit && error == old(error)
      ensures !outcome.Ok? ==>
                error == Some(FailureMessage(outcome, SplitFailedFallback, SplitGenericFallback)) &&
                isSplit == old(isSplit) && splitBlob == old(splitBlob)
    {
      match outcome
      case Ok(body) =>
        splitBlob := Some(body);
        isSplit := true;
        isSplitting := false;
      case _ =>
        error := Some(FailureMessage(outcome, SplitFailedFallback, SplitGenericFallback));
        isSplitting := false;
    }

    /**
     * `handleDownload`: nothing without a result and a file; otherwise the result is
     * saved under the file's name with its first ".pdf" replaced by "-split.pdf" at the
     * end, and a reset is scheduled.
     */
    method HandleDownload() returns (download: Option<string>)
      requires Valid()
      modifies this
      ensures Valid()
      ensures old(splitBlob).None? || old(selectedFile).None? ==> download.None? && unchanged(this)
      ensures old(splitBlob).Some? && old(selectedFile).Some? ==>
                download == Some(DownloadName(old(selectedFile).value.name, SplitSuffix)) &&
                pendingResets == old(pendingResets) + 1
      ensures selectedFile == old(selectedFile) && splitOption == old(splitOption) && startPage == old(startPage)
      ensures endPage == old(endPage) && customPages == old(customPages) && isSplitting == old(isSplitting)
      ensures isSplit == old(isSplit) && splitBlob == old(splitBlob) && error == old(error)
    {
      if splitBlob.None? || selectedFile.None? {
        return None;
      }
      download := Some(DownloadName(selectedFile.value.name, SplitSuffix));
      pendingResets := pendingResets + 1;
    }

    /**
     * The download's timer: file, result and parameters go back to their first values,
     * except the split mode, which is kept.
     */
    method ResetAfterDownload()
      requires Valid() && pendingResets > 0
      modifies this
      ensures Valid()
      ensures selectedFile.None? && !isSplit && splitBlob.None?
      ensures startPage == 1 && endPage == "" && customPages == ""
      ensures splitOption == old(splitOption) && isSplitting == old(isSplitting) && error == old(error)
      ensures pendingResets == old(pendingResets) - 1
    {
      pendingResets := pendingResets - 1;
      selectedFile := None;
      isSplit := false;
      splitBlob := None;
      startPage := 1;
      endPage := "";
      customPages := "";
    }
  }
}
