/**
 * The merge page of the front end: an ordered list of at most ten PDFs that the user
 * grows, reorders and prunes, sends to the merge endpoint, and downloads the result of.
 * The fields are the page's state variables. The page's alerts are returned as the list
 * of messages raised; the download's three-second timer is the separate method
 * `ResetAfterDownload`, which may run once per download started.
 */
module FrontendMerge {
  import opened Wrappers
  import opened Text
  import opened Files
  import opened FileList

  const MaxFiles := 10

  const OnlyPdfAlert := "Please select only PDF files"
  const TooManyAlert := "Maximum 10 files allowed"
  const TooFewAlert := "Please select at least 2 PDF files to merge"
  const MergeFailedFallback := "Merge failed"
  const MergeGenericFallback := "Failed to merge PDFs. Please try again."

  /** The request body: every file under the field "files", in list order. */
  method BuildMergeRequest(files: seq<File>) returns (fields: seq<Field>)
    ensures |fields| == |files|
    ensures forall i :: 0 <= i < |files| ==> fields[i] == Field("files", FileValue(files[i]))
    ensures FieldNames(fields) == seq(|files|, _ => "files")
  {
    fields := [];
    for i := 0 to |files|
      invariant |fields| == i
      invariant forall k :: 0 <= k < i ==> fields[k] == Field("files", FileValue(files[k]))
    {
      fields := fields + [Field("files", FileValue(files[i]))];
    }
  }

  /**
   * The list after `addFiles`: the batch's PDFs are appended in order when the total
   * stays within ten; a batch that would exceed ten leaves the list as it was.
   */
  function FilesAfterAdd(current: seq<File>, batch: seq<File>): (r: seq<File>)
    ensures |current| <= MaxFiles ==> |r| <= MaxFiles
  {
    CappedAppend(current, PdfOnly(batch))
  }

  /** `pdfs` appended to `current` when the total stays within ten, else `current`. */
  function CappedAppend(current: seq<File>, pdfs: seq<File>): seq<File> {
    if |current| + |pdfs| > MaxFiles then current else current + pdfs
  }

  class MergePdfPage {
    var selectedFiles: seq<File>
    var isMerging: bool
    var isMerged: bool
    var mergedBlob: Option<Blob>
    var error: Option<string>
    /** Reset timers started by downloads and not yet run. */
    var pendingResets: nat

    /** At most ten files, all PDFs; a merged result is held exactly when it is marked. */
    predicate Valid()
      reads this
    {
      |selectedFiles| <= MaxFiles && AllPdf(selectedFiles) && (isMerged <==> mergedBlob.Some?)
    }

    constructor ()
      ensures Valid()
      ensures selectedFiles == [] && !isMerging && !isMerged && mergedBlob.None? && error.None?
      ensures pendingResets == 0
    {
      selectedFiles := [];
      isMerging := false;
      isMerged := false;
      mergedBlob := None;
      error := None;
      pendingResets := 0;
    }

    /**
     * `addFiles` (select and drop): the PDFs of the batch are appended in order, unless
     * that would exceed ten files, in which case nothing changes. A batch without PDFs
     * changes nothing either.
     */
    method AddFiles(files: seq<File>) returns (alerts: seq<string>)
      requires Valid()
      modifies this
      ensures Valid()
      ensures alerts ==
                (if |PdfOnly(files)| != |files| then [OnlyPdfAlert] else []) +
                (if |old(selectedFiles)| + |PdfOnly(files)| > MaxFiles then [TooManyAlert] else [])
      ensures selectedFiles == FilesAfterAdd(old(selectedFiles), files)
      ensures |old(selectedFiles)| + |PdfOnly(files)| > MaxFiles || |PdfOnly(files)| == 0 ==> unchanged(this)
      ensures |old(selectedFiles)| + |PdfOnly(files)| <= MaxFiles && |PdfOnly(files)| > 0 ==>
                selectedFiles == old(selectedFiles) + PdfOnly(files) &&
                error.None? && !isMerged && mergedBlob.None? &&
                isMerging == old(isMerging) && pendingResets == old(pendingResets)
    {
      var pdfFiles := PdfOnly(files);
      alerts := [];
      if |pdfFiles| != |files| {
        alerts := alerts + [OnlyPdfAlert];
      }
      if |selectedFiles| + |pdfFiles| > MaxFiles {
        alerts := alerts + [TooManyAlert];
        return;
      }
      if |pdfFiles| > 0 {
        selectedFiles := selectedFiles + pdfFiles;
        error := None;
        isMerged := false;
        mergedBlob := None;
      }
    }

    /** `removeFile(index)`: entry `index` leaves the list, and the merged result is dropped. */
    method RemoveFile(index: int)
      requires Valid()
      modifies this
      ensures Valid()
      ensures selectedFiles == RemoveAt(old(selectedFiles), index)
      ensures !isMerged && mergedBlob.None?
      ensures isMerging == old(isMerging) && error == old(error) && pendingResets == old(pendingResets)
    {
      selectedFiles := RemoveAt(selectedFiles, index);
      isMerged := false;
      mergedBlob := None;
    }

    /** `moveFileUp(index)`: the entry changes place with the one above it, if any. */
    method MoveFileUp(index: int)
      requires Valid() && 0 <= index < |selectedFiles|
      modifies this
      ensures Valid()
      ensures index == 0 ==> unchanged(this)
      ensures index > 0 ==>
                selectedFiles == Swap(old(selectedFiles), index - 1, index) &&
                !isMerged && mergedBlob.None? &&
                isMerging == old(isMerging) && error == old(error) && pendingResets == old(pendingResets)
    {
      if index > 0 {
        var newFiles := CopyToArray(selectedFiles);
        newFiles[index - 1], newFiles[index] := newFiles[index], newFiles[index - 1];
        selectedFiles := newFiles[..];
        isMerged := false;
        mergedBlob := None;
      }
    }

    /** `moveFileDown(index)`: the entry changes place with the one below it, if any. */
    method MoveFileDown(index: int)
      requires Valid() && 0 <= index < |selectedFiles|
      modifies this
      ensures Valid()
      ensures index == |old(selectedFiles)| - 1 ==> unchanged(this)
      ensures index < |old(selectedFiles)| - 1 ==>
                selectedFiles == Swap(old(selectedFiles), index, index + 1) &&
                !isMerged && mergedBlob.None? &&
                isMerging == old(isMerging) && error == old(error) && pendingResets == old(pendingResets)
    {
      if index < |selectedFiles| - 1 {
        var newFiles := CopyToArray(selectedFiles);
        newFiles[index], newFiles[index + 1] := newFiles[index + 1], newFiles[index];
        selectedFiles := newFiles[..];
        isMerged := false;
        mergedBlob := None;
      }
    }

    /**
     * `handleMerge` up to the request: fewer than two files raise an alert and send
     * nothing; otherwise the page is marked as merging and every file is sent. The button
     * is not shown while a merge is in flight, hence the precondition.
     */
    method HandleMerge() returns (request: Option<seq<Field>>, alerts: seq<string>)
      requires Valid() && !isMerging
      modifies this
      ensures Valid()
      ensures |old(selectedFiles)| < 2 ==> request.None? && alerts == [TooFewAlert] && unchanged(this)
      ensures |old(selectedFiles)| >= 2 ==>
                alerts == [] && request.Some? &&
                |request.value| == |selectedFiles| &&
                (forall i :: 0 <= i < |selectedFiles| ==> request.value[i] == Field("files", FileValue(selectedFiles[i]))) &&
                isMerging && error.None? &&
                selectedFiles == old(selectedFiles) && isMerged == old(isMerged) &&
                mergedBlob == old(mergedBlob) && pendingResets == old(pendingResets)
    {
      if |selectedFiles| < 2 {
        return None, [TooFewAlert];
      }
      isMerging := true;
      error := None;
      var fields := BuildMergeRequest(selectedFiles);
      return Some(fields), [];
    }

    /**
     * The rest of `handleMerge`, once the response is known: the merged body is kept, or
     * the error is shown; the list is left as it is either way.
     */
    method ReceiveMergeResponse(outcome: Outcome)
      requires Valid() && isMerging
      modifies this
      ensures Valid()
      ensures !isMerging
      ensures selectedFiles == old(selectedFiles) && pendingResets == old(pendingResets)
      ensures outcome.Ok? ==> mergedBlob == Some(outcome.body) && isMerged && error == old(error)
      ensures !outcome.Ok? ==>
                error == Some(FailureMessage(outcome, MergeFailedFallback, MergeGenericFallback)) &&
                isMerged == old(isMerged) && mergedBlob == old(mergedBlob)
    {
      match outcome
      case Ok(body) =>
        mergedBlob := Some(body);
        isMerged := true;
        isMerging := false;
      case _ =>
        error := Some(FailureMessage(outcome, MergeFailedFallback, MergeGenericFallback));
        isMerging := false;
    }

    /**
     * `handleDownload`: without a merged result nothing happens; otherwise the result is
     * saved as "merged-<now>.pdf" and a reset is scheduled.
     */
    method HandleDownload(now: int) returns (download: Option<string>)
      requires Valid()
      modifies this
      ensures Valid()
      ensures old(mergedBlob).None? ==> download.None? && unchanged(this)
      ensures old(mergedBlob).Some? ==>
                download == Some("merged-" + IntToString(now) + ".pdf") &&
                pendingResets == old(pendingResets) + 1 &&
                selectedFiles == old(selectedFiles) && isMerging == old(isMerging) &&
                isMerged == old(isMerged) && mergedBlob == old(mergedBlob) && error == old(error)
    {
      if mergedBlob.None? {
        return None;
      }
      download := Some("merged-" + IntToString(now) + ".pdf");
      pendingResets := pendingResets + 1;
    }

    /** The download's timer: the list is emptied and the merged result dropped. */
    method ResetAfterDownload()
      requires Valid() && pendingResets > 0
      modifies this
      ensures Valid()
      ensures selectedFiles == [] && !isMerged && mergedBlob.None?
      ensures pendingResets == old(pendingResets) - 1
      ensures isMerging == old(isMerging) && error == old(error)
    {
      pendingResets := pendingResets - 1;
      selectedFiles := [];
      isMerged := false;
      mergedBlob := None;
    }
  }

  /** Moving an entry up and then back down restores the order. */
  lemma MoveUpThenDownRestores(files: seq<File>, index: nat)
    requires 0 < index < |files|
    ensures Swap(Swap(files, index - 1, index), index - 1, index) == files
  {
    SwapTwice(files, index - 1, index);
  }

  /**
   * Two batches added one after the other, when together they fit within ten files,
   * leave the same list as adding them as one batch: PDFs only, in batch order.
   */
  lemma {:induction false} AddTwoBatchesKeepsOrder(current: seq<File>, first: seq<File>, second: seq<File>)
    requires |current| + |PdfOnly(first + second)| <= MaxFiles
    ensures FilesAfterAdd(FilesAfterAdd(current, first), second) == FilesAfterAdd(current, first + second)
    ensures FilesAfterAdd(current, first + second) == current + PdfOnly(first) + PdfOnly(second)
  {
    PdfOnlyAppend(first, second);
    CappedAppendTwice(current, PdfOnly(first), PdfOnly(second));
  }

  lemma CappedAppendTwice(current: seq<File>, a: seq<File>, b: seq<File>)
    requires |current| + |a| + |b| <= MaxFiles
    ensures CappedAppend(CappedAppend(current, a), b) == CappedAppend(current, a + b) == current + a + b
  {
    assert current + (a + b) == current + a + b;
  }
}
