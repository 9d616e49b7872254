/**
 * The earlier versions of the pages (src/pages): file intake and the submit
 * precondition only. Their submit handlers send nothing; they raise an alert when the
 * precondition holds and change no state either way. Alerts are returned as the
 * messages raised.
 */
module LegacyPages {
  import opened Wrappers
  import opened Text
  import opened Files
  import opened FileList

  const SelectOnlyPdfAlert := "Please select only PDF files"
  const DropOnlyPdfAlert := "Please drop only PDF files"
  const TooFewAlert := "Please select at least 2 PDF files to merge"
  const SelectPdfAlert := "Please select a valid PDF file"
  const DropPdfAlert := "Please drop a valid PDF file"
  const SelectWordAlert := "Please select a valid Word document (.doc or .docx)"
  const DropWordAlert := "Please drop a valid Word document (.doc or .docx)"

  function MergingAlert(count: nat): string {
    "Merging " + IntToString(count) + " PDF files..."
  }

  /** The first file of a selection or a drop, if it passes the page's type check. */
  function Intake(files: seq<File>, accepts: File -> bool): (r: Option<File>)
    ensures r.Some? <==> |files| > 0 && accepts(files[0])
    ensures r.Some? ==> r.value == files[0]
  {
    if |files| > 0 && accepts(files[0]) then Some(files[0]) else None
  }

  /** The merge page without a cap: PDFs accumulate in the order they were added. */
  class LegacyMergePage {
    var selectedFiles: seq<File>

    predicate Valid()
      reads this
    {
      AllPdf(selectedFiles)
    }

    constructor ()
      ensures Valid() && selectedFiles == []
    {
      selectedFiles := [];
    }

    /**
     * What selecting and dropping share: the PDFs of the batch are appended in order,
     * however many there already are; `rejectAlert` is raised when the batch held
     * anything else.
     */
    method AddFiles(files: seq<File>, rejectAlert: string) returns (alerts: seq<string>)
      requires Valid()
      modifies this
      ensures Valid()
      ensures alerts == if |PdfOnly(files)| != |files| then [rejectAlert] else []
      ensures selectedFiles == old(selectedFiles) + PdfOnly(files)
      ensures |selectedFiles| == |old(selectedFiles)| + |PdfOnly(files)|
    {
      var pdfFiles := PdfOnly(files);
      alerts := [];
      if |pdfFiles| != |files| {
        alerts := [rejectAlert];
      }
      if |pdfFiles| > 0 {
        selectedFiles := selectedFiles + pdfFiles;
      }
    }

    /** `handleFileSelect`. */
    method SelectFiles(files: seq<File>) returns (alerts: seq<string>)
      requires Valid()
      modifies this
      ensures Valid()
      ensures alerts == if |PdfOnly(files)| != |files| then [SelectOnlyPdfAlert] else []
      ensures selectedFiles == old(selectedFiles) + PdfOnly(files)
    {
      alerts := AddFiles(files, SelectOnlyPdfAlert);
    }

    /** `handleDrop`. */
    method DropFiles(files: seq<File>) returns (alerts: seq<string>)
      requires Valid()
      modifies this
      ensures Valid()
      ensures alerts == if |PdfOnly(files)| != |files| then [DropOnlyPdfAlert] else []
      ensures selectedFiles == old(selectedFiles) + PdfOnly(files)
    {
      alerts := AddFiles(files, DropOnlyPdfAlert);
    }

    /** `removeFile(index)`: entry `index` leaves the list. */
    method RemoveFile(index: int)
      requires Valid()
      modifies this
      ensures Valid()
      ensures selectedFiles == RemoveAt(old(selectedFiles), index)
    {
      selectedFiles := RemoveAt(selectedFiles, index);
    }

    /** `moveFileUp(index)`: the entry changes place with the one above it, if any. */
    method MoveFileUp(index: int)
      requires Valid() && 0 <= index < |selectedFiles|
      modifies this
      ensures Valid()
      ensures index == 0 ==> selectedFiles == old(selectedFiles)
      ensures index > 0 ==> selectedFiles == Swap(old(selectedFiles), index - 1, index)
    {
      if index > 0 {
        var newFiles := CopyToArray(selectedFiles);
        newFiles[index - 1], newFiles[index] := newFiles[index], newFiles[index - 1];
        selectedFiles := newFiles[..];
      }
    }

    /** `moveFileDown(index)`: the entry changes place with the one below it, if any. */
    method MoveFileDown(index: int)
      requires Valid() && 0 <= index < |selectedFiles|
      modifies this
      ensures Valid()
      ensures index == |old(selectedFiles)| - 1 ==> selectedFiles == old(selectedFiles)
      ensures index < |old(selectedFiles)| - 1 ==> selectedFiles == Swap(old(selectedFiles), index, index + 1)
    {
      if index < |selectedFiles| - 1 {
        var newFiles := CopyToArray(selectedFiles);
        newFiles[index], newFiles[index + 1] := newFiles[index + 1], newFiles[index];
        selectedFiles := newFiles[..];
      }
    }

    /** `handleMerge`: an alert only, announcing the merge when there are two files or more. */
    method HandleMerge() returns (alerts: seq<string>)
      ensures |selectedFiles| >= 2 ==> alerts == [MergingAlert(|selectedFiles|)]
      ensures |selectedFiles| < 2 ==> alerts == [TooFewAlert]
    {
      if |selectedFiles| >= 2 {
        alerts := [MergingAlert(|selectedFiles|)];
      } else {
        alerts := [TooFewAlert];
      }
    }
  }

  /** The three split modes of the earlier page; the page starts in `All`. */
  datatype SplitMode = All | Range | Custom {
    function Name(): string {
      match this
      case All => "all"
      case Range => "range"
      case Custom => "custom"
    }
  }

  /** The split page: a selected PDF and the mode; the page inputs are not held. */
  class LegacySplitPage {
    var selectedFile: Option<File>
    var splitOption: SplitMode

    predicate Valid()
      reads this
    {
      selectedFile.Some? ==> IsPdf(selectedFile.value)
    }

    constructor ()
      ensures Valid() && selectedFile.None? && splitOption == All
    {
      selectedFile := None;
      splitOption := All;
    }

    /**
     * What selecting and dropping share: the first file replaces the selection if it is
     * a PDF; otherwise nothing changes and `rejectAlert` is raised.
     */
    method Take(files: seq<File>, rejectAlert: string) returns (alerts: seq<string>)
      requires Valid()
      modifies this
      ensures Valid()
      ensures FirstIsPdf(files) ==> selectedFile == Some(files[0]) && alerts == []
      ensures !FirstIsPdf(files) ==> selectedFile == old(selectedFile) && alerts == [rejectAlert]
      ensures splitOption == old(splitOption)
    {
      match Intake(files, IsPdf)
      case Some(file) =>
        selectedFile := Some(file);
        alerts := [];
      case None =>
        alerts := [rejectAlert];
    }

    /** `handleFileSelect`. */
    method SelectFile(files: seq<File>) returns (alerts: seq<string>)
      requires Valid()
      modifies this
      ensures Valid()
      ensures FirstIsPdf(files) ==> selectedFile == Some(files[0]) && alerts == []
      ensures !FirstIsPdf(files) ==> selectedFile == old(selectedFile) && alerts == [SelectPdfAlert]
      ensures splitOption == old(splitOption)
    {
      alerts := Take(files, SelectPdfAlert);
    }

    /** `handleDrop`: only the first dropped file is considered. */
    method DropFile(files: seq<File>) returns (alerts: seq<string>)
      requires Valid()
      modifies this
      ensures Valid()
      ensures FirstIsPdf(files) ==> selectedFile == Some(files[0]) && alerts == []
      ensures !FirstIsPdf(files) ==> selectedFile == old(selectedFile) && alerts == [DropPdfAlert]
      ensures splitOption == old(splitOption)
    {
      alerts := Take(files, DropPdfAlert);
    }

    /** The radio buttons. */
    method SetSplitOption(mode: SplitMode)
      requires Valid()
      modifies this
      ensures Valid()
      ensures splitOption == mode && selectedFile == old(selectedFile)
    {
      splitOption := mode;
    }

    /** `handleSplit`: an alert naming the file and the mode, and only with a file selected. */
    method HandleSplit() returns (alerts: seq<string>)
      ensures selectedFile.None? ==> alerts == []
      ensures selectedFile.Some? ==>
                alerts == ["Splitting " + selectedFile.value.name + " using " + splitOption.Name() + " mode..."]
    {
      alerts := [];
      if selectedFile.Some? {
        alerts := ["Splitting " + selectedFile.value.name + " using " + splitOption.Name() + " mode..."];
      }
    }
  }

  /**
   * The two conversion pages: a single selected file whose type the page checks (a PDF
   * for PDF to Word, a Word document for Word to PDF).
   */
  class ConvertPage {
    const accepts: File -> bool
    /** The word after "to" in the page's announcement. */
    const target: string
    const selectAlert: string
    const dropAlert: string
    var selectedFile: Option<File>

    predicate Valid()
      reads this
    {
      selectedFile.Some? ==> accepts(selectedFile.value)
    }

    /** The PDF-to-Word page. */
    constructor PdfToWord()
      ensures Valid() && selectedFile.None?
      ensures accepts == IsPdf && target == "Word"
      ensures selectAlert == SelectPdfAlert && dropAlert == DropPdfAlert
    {
      accepts := IsPdf;
      target := "Word";
      selectAlert := SelectPdfAlert;
      dropAlert := DropPdfAlert;
      selectedFile := None;
    }

    /** The Word-to-PDF page. */
    constructor WordToPdf()
      ensures Valid() && selectedFile.None?
      ensures accepts == IsWordDocument && target == "PDF"
      ensures selectAlert == SelectWordAlert && dropAlert == DropWordAlert
    {
      accepts := IsWordDocument;
      target := "PDF";
      selectAlert := SelectWordAlert;
      dropAlert := DropWordAlert;
      selectedFile := None;
    }

    /**
     * What selecting and dropping share: the first file replaces the selection if the
     * page accepts it; otherwise, also when there is no file, nothing changes and
     * `rejectAlert` is raised.
     */
    method Take(files: seq<File>, rejectAlert: string) returns (alerts: seq<string>)
      requires Valid()
      modifies this
      ensures Valid()
      ensures |files| > 0 && accepts(files[0]) ==> selectedFile == Some(files[0]) && alerts == []
      ensures !(|files| > 0 && accepts(files[0])) ==> selectedFile == old(selectedFile) && alerts == [rejectAlert]
    {
      match Intake(files, accepts)
      case Some(file) =>
        selectedFile := Some(file);
        alerts := [];
      case None =>
        alerts := [rejectAlert];
    }

    /** `handleFileSelect`. */
    method SelectFile(files: seq<File>) returns (alerts: seq<string>)
      requires Valid()
      modifies this
      ensures Valid()
      ensures |files| > 0 && accepts(files[0]) ==> selectedFile == Some(files[0]) && alerts == []
      ensures !(|files| > 0 && accepts(files[0])) ==> selectedFile == old(selectedFile) && alerts == [selectAlert]
    {
      alerts := Take(files, selectAlert);
    }

    /** `handleDrop`: only the first dropped file is considered. */
    method DropFile(files: seq<File>) returns (alerts: seq<string>)
      requires Valid()
      modifies this
      ensures Valid()
      ensures |files| > 0 && accepts(files[0]) ==> selectedFile == Some(files[0]) && alerts == []
      ensures !(|files| > 0 && accepts(files[0])) ==> selectedFile == old(selectedFile) && alerts == [dropAlert]
    {
      alerts := Take(files, dropAlert);
    }

    /** `handleConvert`: an alert naming the file, and only with a file selected. */
    method HandleConvert() returns (alerts: seq<string>)
      ensures selectedFile.None? ==> alerts == []
      ensures selectedFile.Some? ==> alerts == ["Converting " + selectedFile.value.name + " to " + target + "..."]
    {
      alerts := [];
      if selectedFile.Some? {
        alerts := ["Converting " + selectedFile.value.name + " to " + target + "..."];
      }
    }
  }

  /** The Word page refuses PDFs: a file is never accepted by both conversion pages. */
  lemma PdfIsNotWordDocument(f: File)
    ensures IsPdf(f) ==> !IsWordDocument(f)
  {
    assert |PdfMime| != |DocxMime| && |PdfMime| != |MswordMime|;
  }

  /** `.docx` and `.doc` documents are both accepted by the Word page, by MIME type alone. */
  lemma WordDocumentKinds(name: string, size: nat)
    ensures IsWordDocument(File(name, size, DocxMime)) && IsWordDocument(File(name, size, MswordMime))
    ensures !IsWordDocument(File(name, size, "text/plain"))
  {
    assert |"text/plain"| != |DocxMime| && |"text/plain"| != |MswordMime|;
  }
}
