/**
 * The PDF-to-Word page of the front end: one selected PDF, sent alone to the conversion
 * endpoint; the converted document is downloaded under the source name with
 * "-converted.docx". Alerts are returned as the messages raised; the download's timer
 * is the separate method `ResetAfterDownload`.
 */
module FrontendPdfToWord {
  import opened Wrappers
  import opened Files

  const SelectAlert := "Please select a valid PDF file"
  const DropAlert := "Please drop a valid PDF file"
  /** The only failure text the page shows, whatever the server answered. */
  const ConvertFailed := "Failed to convert PDF. Please try again."
  const ConvertedSuffix := "-converted.docx"

  /** The request body of `handleConvert`: the file under "pdf", and nothing else. */
  function ConvertRequest(file: File): (fields: seq<Field>)
    ensures FieldNames(fields) == ["pdf"]
    ensures Lookup(fields, "pdf") == Some(FileValue(file))
    ensures forall name :: name != "pdf" ==> Lookup(fields, name).None?
  {
    [Field("pdf", FileValue(file))]
  }

  class PdfToWordPage {
    var selectedFile: Option<File>
    var isConverting: bool
    var isConverted: bool
    var convertedBlob: Option<Blob>
    var error: Option<string>
    /** Reset timers started by downloads and not yet run. */
    var pendingResets: nat

    /** A result is held exactly when it is marked; only a PDF is ever selected. */
    predicate Valid()
      reads this
    {
      (isConverted <==> convertedBlob.Some?) && (selectedFile.Some? ==> IsPdf(selectedFile.value))
    }

    constructor ()
      ensures Valid()
      ensures selectedFile.None? && !isConverting && !isConverted && convertedBlob.None? && error.None?
      ensures pendingResets == 0
    {
      selectedFile := None;
      isConverting := false;
      isConverted := false;
      convertedBlob := None;
      error := None;
      pendingResets := 0;
    }

    /** A PDF replaces the selection and clears the error and the result. */
    method Accept(file: File)
      requires Valid() && IsPdf(file)
      modifies this
      ensures Valid()
      ensures selectedFile == Some(file) && error.None? && !isConverted && convertedBlob.None?
      ensures isConverting == old(isConverting) && pendingResets == old(pendingResets)
    {
      selectedFile := Some(file);
      error := None;
      isConverted := false;
      convertedBlob := None;
    }

    /** `handleFileSelect`: the first chosen file is taken if it is a PDF. */
    method SelectFile(files: seq<File>) returns (alerts: seq<string>)
      requires Valid()
      modifies this
      ensures Valid()
      ensures FirstIsPdf(files) ==>
                alerts == [] && selectedFile == Some(files[0]) && error.None? && !isConverted &&
                convertedBlob.None? && isConverting == old(isConverting) && pendingResets == old(pendingResets)
      ensures !FirstIsPdf(files) ==> alerts == [SelectAlert] && unchanged(this)
    {
      if |files| > 0 && IsPdf(files[0]) {
        Accept(files[0]);
        return [];
      }
      return [SelectAlert];
    }

    /** `handleDrop`: only the first dropped file is considered. */
    method DropFile(files: seq<File>) returns (alerts: seq<string>)
      requires Valid()
      modifies this
      ensures Valid()
      ensures FirstIsPdf(files) ==>
                alerts == [] && selectedFile == Some(files[0]) && error.None? && !isConverted &&
                convertedBlob.None? && isConverting == old(isConverting) && pendingResets == old(pendingResets)
      ensures !FirstIsPdf(files) ==> alerts == [DropAlert] && unchanged(this)
    {
      if |files| > 0 && IsPdf(files[0]) {
        Accept(files[0]);
        return [];
      }
      return [DropAlert];
    }

    /**
     * `handleConvert` up to the request: nothing without a file; otherwise the page is
     * marked as converting and the file is sent alone. The button is not shown while a
     * conversion is in flight, hence the precondition.
     */
    method HandleConvert() returns (request: Option<seq<Field>>)
      requires Valid() && !isConverting
      modifies this
      ensures Valid()
      ensures old(selectedFile).None? ==> request.None? && unchanged(this)
      ensures old(selectedFile).Some? ==>
                request == Some(ConvertRequest(old(selectedFile).value)) && isConverting && error.None?
      ensures selectedFile == old(selectedFile) && isConverted == old(isConverted)
      ensures convertedBlob == old(convertedBlob) && pendingResets == old(pendingResets)
    {
      if selectedFile.None? {
        return None;
      }
      isConverting := true;
      error := None;
      return Some(ConvertRequest(selectedFile.value));
    }

    /**
     * The rest of `handleConvert`, once the response is known: the body is kept, or the
     * one fixed failure text is shown; the file stays selected either way.
     */
    method ReceiveConvertResponse(outcome: Outcome)
      requires Valid() && isConverting
      modifies this
      ensures Valid()
      ensures !isConverting
      ensures selectedFile == old(selectedFile) && pendingResets == old(pendingResets)
      ensures outcome.Ok? ==> convertedBlob == Some(outcome.body) && isConverted && error == old(error)
      ensures !outcome.Ok? ==>
                error == Some(ConvertFailed) && isConverted == old(isConverted) && convertedBlob == old(convertedBlob)
    {
      match outcome
      case Ok(body) =>
        convertedBlob := Some(body);
        isConverted := true;
        isConverting := false;
      case _ =>
        error := Some(ConvertFailed);
        isConverting := false;
    }

    /**
     * `handleDownload`: nothing without a result and a file; otherwise the result is
     * saved under the file's name with its first ".pdf" replaced by "-converted.docx"
     * at the end, and a reset is scheduled.
     */
    method HandleDownload() returns (download: Option<string>)
      requires Valid()
      modifies this
      ensures Valid()
      ensures old(convertedBlob).None? || old(selectedFile).None? ==> download.None? && unchanged(this)
      ensures old(convertedBlob).Some? && old(selectedFile).Some? ==>
                download == Some(DownloadName(old(selectedFile).value.name, ConvertedSuffix)) &&
                pendingResets == old(pendingResets) + 1
      ensures selectedFile == old(selectedFile) && isConverting == old(isConverting)
      ensures isConverted == old(isConverted) && convertedBlob == old(convertedBlob) && error == old(error)
    {
      if convertedBlob.None? || selectedFile.None? {
        return None;
      }
      download := Some(DownloadName(selectedFile.value.name, ConvertedSuffix));
      pendingResets := pendingResets + 1;
    }

    /** The download's timer: the file and the result are cleared. */
    method ResetAfterDownload()
      requires Valid() && pendingResets > 0
      modifies this
      ensures Valid()
      ensures selectedFile.None? && !isConverted && convertedBlob.None?
      ensures isConverting == old(isConverting) && error == old(error)
      ensures pendingResets == old(pendingResets) - 1
    {
      pendingResets := pendingResets - 1;
      selectedFile := None;
      isConverted := false;
      convertedBlob := None;
    }
  }

  /** "report.pdf" is downloaded as "report-converted.docx". */
  lemma ConvertedNameExample()
    ensures DownloadName("report.pdf", ConvertedSuffix) == "report-converted.docx"
  {
    DownloadNameOfPlainPdf("report", ConvertedSuffix);
    assert "report" + ".pdf" == "report.pdf";
    assert "report" + ConvertedSuffix == "report-converted.docx";
  }
}
