# PDF tools: page selection, request rules and page pipelines

This project models the core of a small PDF web application in Dafny. The application has a FastAPI backend and React pages.

The backend side covers four things:
- the page-string parser, e.g. "1,3,5-7,10";
- the three ways of cutting a PDF: every page, a range, or a custom list;
- the merge of several PDFs into one;
- the HTTP rules of the split, merge and conversion endpoints: name checks, file counts, range normalisation, and which error becomes which status.

The front-end side covers the pages' state machines:
- the merge page keeps an ordered list of at most ten PDFs;
- the split page and the PDF-to-Word page each hold one PDF;
- the earlier intake-only versions of these pages, and the Word-to-PDF page.

Each page is a class whose fields are the page's state variables. The request a page sends is a list of form fields. The server's answer is an `Outcome`. The download's three-second timer is a `ResetAfterDownload` method. A PDF document is a sequence of abstract pages, or the reason it cannot be read.

Files:
- `wrappers.dfy`: Option and Result.
- `text.dfy`: the Python and JavaScript string built-ins the core relies on: `endswith`, `replace`, `split`, `int()`, `parseInt`, `str(n)`, `strip`, `os.path.basename`.
- `files.dfy`: browser files, MIME predicates, form fields, outcomes, error texts and download names.
- `file_list.dfy`: the list operations of the merge pages.
- `split_pdf.dfy`: backend/converters/split_pdf.py.
- `merge_pdf.dfy`: backend/converters/merge_pdf.py.
- `api.dfy`: backend/main.py.
- `merge_page.dfy`, `split_page.dfy`, `pdf_to_word_page.dfy`: frontend/src/pages.
- `legacy_pages.dfy`: src/pages.

## Model

| member | source | states |
|---|---|---|
| Text.IndexOf | frontend/src/pages/SplitPdf.jsx:110 | the result is the first position where the pattern occurs, and None only when it occurs nowhere |
| Text.ReplaceFirst | frontend/src/pages/SplitPdf.jsx:110 | definition of JavaScript `replace` with a string pattern: only the first occurrence found by IndexOf is replaced; characterised by Text.ReplaceFirstAfterDotlessStem |
| Text.EndsWith | backend/main.py:307 | definition of Python `endswith`: the last characters of the text are the suffix |
| Text.ReplaceFirstAfterDotlessStem | frontend/src/pages/SplitPdf.jsx:110 | `replace` with a string pattern replaces only the first occurrence: with a dot-free stem, stem+pat+rest becomes stem+rep+rest |
| Text.RemoveSpaces | backend/converters/split_pdf.py:124 | `replace(" ", "")` leaves no space and never lengthens the text; what it keeps is stated by Text.RemoveSpacesKeepsOthers, Text.RemoveSpacesChar and Text.RemoveSpacesAppend |
| Text.RemoveSpacesKeepsOthers | backend/converters/split_pdf.py:124 | every character other than a space is kept, as many times as it occurs: the multiset of the result is that of the text without its spaces |
| Text.RemoveSpacesChar | backend/converters/split_pdf.py:124 | a lone space disappears and any other character stays; with RemoveSpacesAppend this fixes the result and its order |
| Text.RemoveSpacesNoSpace | backend/converters/split_pdf.py:124 | text without spaces is unchanged |
| Text.RemoveSpacesIdempotent | backend/converters/split_pdf.py:124 | removing spaces twice equals removing them once |
| Text.RemoveSpacesAppend | backend/converters/split_pdf.py:124 | space removal is piecewise over concatenation |
| Text.Split | backend/converters/split_pdf.py:127 | `split` gives at least one part and no part holds the separator |
| Text.JoinSplit | backend/converters/split_pdf.py:127 | joining the parts with the separator gives back the text |
| Text.SplitLength | backend/converters/split_pdf.py:132-133 | the number of parts is the number of separators plus one |
| Text.SplitNoSeparator | backend/converters/split_pdf.py:127 | text without the separator splits into itself alone |
| Text.SplitFirst | backend/converters/split_pdf.py:127 | the text before the first separator is the first part, and the rest splits independently |
| Text.NatToString | backend/main.py:187 | `str(n)` of a natural number is a digit string whose value is n, with no leading zero |
| Text.IntToString | backend/main.py:187 | definition of `str(n)`: a minus sign before the digits of a negative number; characterised by Text.NatToString and Text.ParseIntOfIntToString |
| Text.DigitPrefix | frontend/src/pages/SplitPdf.jsx:283 | the longest digit prefix that `parseInt` reads |
| Text.ParseInt | frontend/src/pages/SplitPdf.jsx:283 | definition of `parseInt` on decimal text: an optional sign, then the longest digit prefix, None when that prefix is empty; characterised by Text.ParseIntOfIntToString and FrontendSplit.StartPageFallbacks |
| Text.IsBlank | backend/main.py:222 | definition of `s.strip() == ""`: every character is whitespace |
| Text.DigitPrefixOfDigits | frontend/src/pages/SplitPdf.jsx:283 | a digit string is its own digit prefix |
| Text.ParseIntOfIntToString | frontend/src/pages/SplitPdf.jsx:72 | `parseInt(String(n)) == n` for every integer, with numbers as unbounded integers (see "## Left out" for the JavaScript number limits) |
| Text.Basename | backend/converters/merge_pdf.py:35 | `os.path.basename` gives a slash-free suffix of the path that starts right after a '/' or at the start of the path |
| Text.BasenameAfterSlash | backend/converters/merge_pdf.py:35 | the base name of dir + "/" + name is name when name holds no '/' |
| Files.FieldNames | frontend/src/pages/SplitPdf.jsx:67-78 | the field names of a request, position by position |
| Files.IsPdf | frontend/src/pages/MergePdf.jsx:32 | definition: the declared MIME type is application/pdf |
| Files.IsWordDocument | src/pages/WordToPdf.jsx:11-16 | definition: the declared MIME type is that of .docx or of .doc; characterised by LegacyPages.WordDocumentKinds |
| Files.Lookup | frontend/src/pages/SplitPdf.jsx:67-78 | a name's value is None exactly when no field has that name; otherwise the value was sent under that name |
| Files.LookupAppend | frontend/src/pages/SplitPdf.jsx:67-78 | appending a field never changes the value of a name already sent |
| Files.FailureMessage | frontend/src/pages/MergePdf.jsx:122-134 | the error shown is the server's non-empty `detail`, else the not-ok fallback; a thrown error shows its message, else the generic fallback; it is never empty |
| Files.DownloadNameOfPlainPdf | frontend/src/pages/SplitPdf.jsx:110 | "x.pdf" downloads as x followed by the suffix |
| Files.DownloadName | frontend/src/pages/SplitPdf.jsx:110 | definition of the download name: the first ".pdf" of the name replaced by nothing, then the page's suffix; characterised by Files.DownloadNameOfPlainPdf and Files.DownloadNameRemovesFirstPdfOnly |
| Files.DownloadNameRemovesFirstPdfOnly | frontend/src/pages/PdfToWord.jsx:97 | only the first ".pdf" of the name is removed |
| FileList.PdfOnly | frontend/src/pages/MergePdf.jsx:32 | the filter keeps exactly the PDFs, drops nothing else, and keeps the whole batch exactly when all of it is PDF |
| FileList.PdfOnlyAppend | frontend/src/pages/MergePdf.jsx:32 | filtering two batches together is filtering each in turn, so order is kept |
| FileList.PdfOnlyOfPdfs | frontend/src/pages/MergePdf.jsx:32 | a batch of PDFs passes whole and in order |
| FileList.RemoveAt | frontend/src/pages/MergePdf.jsx:68-69 | entry `index` is deleted and the rest keep their order; an out-of-range index changes nothing |
| FileList.Swap | frontend/src/pages/MergePdf.jsx:76-80 | the two entries change places and every other position is unchanged |
| FileList.SwapTwice | frontend/src/pages/MergePdf.jsx:74-98 | swapping the same pair twice restores the list |
| FileList.SwapPermutes | frontend/src/pages/MergePdf.jsx:74-98 | a swap neither adds nor loses a file (same multiset) |
| FileList.CopyToArray | frontend/src/pages/MergePdf.jsx:76 | `[...selectedFiles]` is a fresh array holding the list |
| SplitPdf.SplitAllPages | backend/converters/split_pdf.py:14-40 | one single-page output per page, named page_<n>.pdf with n from 1; an unreadable file fails as "Failed to split PDF: ..." |
| SplitPdf.SplitPdfRange | backend/converters/split_pdf.py:43-75 | fails with the wrapped message unless 1 <= start <= end <= total; otherwise writes exactly pages start..end in order, end-start+1 of them |
| SplitPdf.FirstInvalidIndex | backend/converters/split_pdf.py:91-93 | the first requested page outside 1..total, and None exactly when all are inside |
| SplitPdf.Insert | backend/converters/split_pdf.py:98 | inserting into an ascending duplicate-free list keeps it so, adding exactly the new value |
| SplitPdf.SortedUnique | backend/converters/split_pdf.py:98 | `sorted(set(xs))` is strictly ascending and holds exactly the values of xs |
| SplitPdf.CustomSelection | backend/converters/split_pdf.py:97-99 | the written pages are the pages of `sorted(set(page_numbers))`, in that order |
| SplitPdf.CustomSelectionCoverage | backend/converters/split_pdf.py:97-99 | a page is written iff it was requested, and the written numbers are strictly ascending: no duplicates |
| SplitPdf.SplitPdfCustom | backend/converters/split_pdf.py:78-112 | the first out-of-range page fails the call before anything is written; otherwise the writer holds the custom selection; failures carry "Failed to extract custom pages: " |
| SplitPdf.RangeInclusive | backend/converters/split_pdf.py:136 | `range(start, end + 1)` is start, start+1, ..., end, and empty when start > end |
| SplitPdf.ParsePartsPrefixFails | backend/converters/split_pdf.py:129-145 | once a part fails, the whole string fails |
| SplitPdf.ParsePart | backend/converters/split_pdf.py:130-139 | definition of one part: "a-b" gives a..b, a part with another number of dashes gives nothing, a plain number gives itself, anything else fails; characterised by SplitPdf.RangePart, SplitPdf.MultiDashPartSkipped and SplitPdf.ParsePartsSingle |
| SplitPdf.ParseParts | backend/converters/split_pdf.py:129-139 | definition of the loop over the parts: the parts' numbers concatenated, or failure at the first bad part; characterised by SplitPdf.ParsePartsAppend, SplitPdf.ParsePartsPrefixFails and SplitPdf.ParsePartsFailsIff |
| SplitPdf.InvalidPageStringMessage | backend/converters/split_pdf.py:145 | definition of the ValueError text, quoting the space-stripped string |
| SplitPdf.PageNumbers | backend/converters/split_pdf.py:115-145 | definition of what `parse_page_string` returns or raises; characterised by SplitPdf.ParsePageString, SplitPdf.PageNumbersFailsIff, SplitPdf.PageNumbersIgnoresSpaces and SplitPdf.PageNumbersExample |
| SplitPdf.ParsePageString | backend/converters/split_pdf.py:115-145 | the loop that appends and extends `page_numbers` computes PageNumbers: the list, or the ValueError message |
| SplitPdf.ParsePartsSingle | backend/converters/split_pdf.py:129-139 | a one-part list contributes what that part contributes |
| SplitPdf.PageNumbersExample | backend/converters/split_pdf.py:115-118 | the documented example: "1,3,5-7,10" parses to [1, 3, 5, 6, 7, 10] |
| SplitPdf.PageNumbersIgnoresSpaces | backend/converters/split_pdf.py:123-127 | the outcome depends only on the space-stripped string |
| SplitPdf.SpacedListExample | backend/converters/split_pdf.py:123-127 | "1, 3 ,5" parses exactly like "1,3,5" |
| SplitPdf.RangePart | backend/converters/split_pdf.py:130-136 | a part a-b contributes a..b in ascending order, and nothing when a > b |
| SplitPdf.MultiDashPartSkipped | backend/converters/split_pdf.py:132-133 | a part with two or more '-' contributes nothing and does not fail |
| SplitPdf.ParsePartsAppend | backend/converters/split_pdf.py:127-139 | the parse of concatenated part lists is the concatenation of the parses: no sorting, no deduplication |
| SplitPdf.OrderAndDuplicatesKept | backend/converters/split_pdf.py:127-139 | "3,1,3" parses to [3, 1, 3] |
| SplitPdf.ParsePartsFailsIff | backend/converters/split_pdf.py:129-145 | the parse fails iff some part fails |
| SplitPdf.PageNumbersFailsIff | backend/converters/split_pdf.py:124-145 | the string is rejected iff some comma part of the space-stripped string is not an integer or a well-formed range; the message quotes the stripped string |
| SplitPdf.MalformedExamples | backend/converters/split_pdf.py:120-145 | "" fails with the exact message; "1," and "-3" fail |
| MergePdf.FirstUnreadable | backend/converters/merge_pdf.py:19-35 | the first input the reader cannot open, and None exactly when all can be read |
| MergePdf.FirstUnreadableAt | backend/converters/merge_pdf.py:19-35 | an unreadable input with only readable ones before it is the first unreadable one |
| MergePdf.MergePdfs | backend/converters/merge_pdf.py:4-57 | the first unreadable input aborts with "Failed to merge PDFs: Error reading <basename>: ..."; a missing output fails with "Merged PDF was not created"; otherwise the writer holds every input's pages in order and total_pages counts them |
| MergePdf.PageCountIsLength | backend/converters/merge_pdf.py:16-30 | total_pages is the length of the merged document |
| MergePdf.MergedPages | backend/converters/merge_pdf.py:19-30 | definition: every page of every input, input by input; characterised by MergePdf.MergedPagesAppend and MergePdf.PagePosition |
| MergePdf.PageCount | backend/converters/merge_pdf.py:16-30 | definition of the running `total_pages`; characterised by MergePdf.PageCountIsLength |
| MergePdf.ReadErrorMessage | backend/converters/merge_pdf.py:35 | definition of "Error reading <basename>: <reason>"; characterised by Api.ReadFailureNamesSavedFile |
| MergePdf.MergedPagesAppend | backend/converters/merge_pdf.py:19-30 | merging two lists of files is merging each and concatenating |
| MergePdf.PagePosition | backend/converters/merge_pdf.py:19-30 | page j of file i lands after all pages of the files before i: files keep list order, pages keep document order |
| MergePdf.TwoFilesInOrder | backend/converters/merge_pdf.py:19-30 | two single-page files merge into those two pages, first file first |
| Api.HttpExceptionText | backend/main.py:278 | `str()` of an HTTPException is its status, then ": ", then its detail |
| Api.NormalizedRange | backend/main.py:193-215 | missing start is 1 and missing end the page count; start below 1 is raised to 1 and end above the count lowered to it, with no other change; a start still after the end fails; a success is a range split_pdf_range accepts |
| Api.NormalizePageRange | backend/main.py:193-215 | the step-by-step reassignments compute NormalizedRange |
| Api.MissingBoundsSelectWholeDocument | backend/main.py:195-203 | with neither bound, the whole document is selected |
| Api.ValidRangeUnchanged | backend/main.py:209-215 | a range already inside the document is used as given |
| Api.EmptyDocumentRangeFails | backend/main.py:209-215 | a document without pages always fails in range mode |
| Api.NormalizedRangeExtracts | backend/main.py:209-219 | a normalized range is a valid slice of end-start+1 pages |
| Api.SplitPdfEndpoint | backend/main.py:145-278 | a bad name or an unknown mode becomes 500 "Split failed: 400: ..."; a start after the end, an empty or malformed custom string give 400 with the message; an out-of-range custom page gives 500; otherwise split_<ts>.pdf holds the selected pages |
| Api.SplitWritten | backend/main.py:236-263 | definition of the split endpoint's last step: split_<ts>.pdf with the written pages, or 500 when no output was created; used by Api.SplitPdfEndpoint |
| Api.DescendingCustomRangeSelectsNothing | backend/main.py:228-231 | custom "5-3" is accepted and selects no page |
| Api.FirstNonPdf | backend/main.py:305-311 | the first upload whose name does not end in ".pdf" (case-sensitive), and None exactly when all do |
| Api.FirstNonPdfAt | backend/main.py:305-311 | a non-PDF name with only PDF names before it is the first one |
| Api.UploadInputs | backend/main.py:305-327 | the upload at request position j is saved as uploads/<ts>_<j+1>_<name> and passed to merge_pdfs at position j |
| Api.UploadPath | backend/main.py:314 | definition of uploads/<ts>_<idx>_<name>; characterised by Api.UploadInputs and Api.ReadFailureNamesSavedFile |
| Api.MergeResponse | backend/main.py:322-378 | definition of the merge endpoint after the checks: 500 "Merge failed: Error reading ..." for the first unreadable upload, 500 when no output was created, else merged_<ts>.pdf with the merged pages; characterised by Api.MergeKeepsRequestOrder |
| Api.MergePdfEndpoint | backend/main.py:280-378 | fewer than 2 and more than 10 files give 400; the first non-PDF name gives 400 naming it; otherwise the answer is the merge of the numbered uploads, with merge failures as 500 "Merge failed: ..." |
| Api.ReadFailureNamesSavedFile | backend/main.py:314 | a read failure names the saved file "<ts>_<n>_<name>", not the client's name |
| Api.NoSlashInDigits | backend/main.py:314 | a rendered number holds no '/' |
| Api.MergeKeepsRequestOrder | backend/main.py:305-327 | two uploads merge into the first one's pages followed by the second one's |
| Api.PdfToWordAsWritten | backend/main.py:59-100 | the handler crashes (UnboundLocalError) exactly when the name does not end in ".pdf" |
| Api.PdfToWordResponse | backend/main.py:59-100 | corrected: never crashes; a file is returned iff the name ends in ".pdf" and conversion succeeds; every error is 500 "Conversion failed: ..." |
| Api.PdfToWordFixOnlyTouchesRejection | backend/main.py:62-100 | the corrected handler agrees with the original on every accepted name |
| Api.PdfToWordCrashExample | backend/main.py:62-100 | "notes.txt" crashes the original handler |
| Api.WordToPdfAsWritten | backend/main.py:102-143 | the handler crashes exactly when the name ends in neither ".docx" nor ".doc" |
| Api.WordToPdfResponse | backend/main.py:102-143 | corrected: never crashes; a file is returned iff the name is a Word name and conversion succeeds; every error is 500 "Conversion failed: ..." |
| Api.WordToPdfFixOnlyTouchesRejection | backend/main.py:105-143 | the corrected handler agrees with the original on every accepted name |
| Api.WordToPdfCrashExample | backend/main.py:105-143 | "report.pdf" crashes the original handler |
| FrontendMerge.BuildMergeRequest | frontend/src/pages/MergePdf.jsx:109-112 | every file is sent under "files", in list order |
| FrontendMerge.MergePdfPage.constructor | frontend/src/pages/MergePdf.jsx:16-21 | an empty list, nothing merged, no error |
| FrontendMerge.MergePdfPage.AddFiles | frontend/src/pages/MergePdf.jsx:31-49 | the list becomes `FilesAfterAdd`: PDFs are appended in batch order; a batch that would pass ten files is refused whole and nothing changes; the list never exceeds ten |
| FrontendMerge.MergePdfPage.RemoveFile | frontend/src/pages/MergePdf.jsx:68-72 | the list becomes RemoveAt(list, index) and the merged result is cleared |
| FrontendMerge.MergePdfPage.MoveFileUp | frontend/src/pages/MergePdf.jsx:74-85 | index 0 changes nothing; otherwise the entry swaps with the one above and the result is cleared |
| FrontendMerge.MergePdfPage.MoveFileDown | frontend/src/pages/MergePdf.jsx:87-98 | the last index changes nothing; otherwise the entry swaps with the one below and the result is cleared |
| FrontendMerge.MergePdfPage.HandleMerge | frontend/src/pages/MergePdf.jsx:100-112 | fewer than 2 files: an alert, no request, no change; otherwise merging is set, the error cleared and every file sent in order |
| FrontendMerge.MergePdfPage.ReceiveMergeResponse | frontend/src/pages/MergePdf.jsx:116-135 | success stores the blob; failure sets the error text; the list is kept and merging ends either way |
| FrontendMerge.MergePdfPage.HandleDownload | frontend/src/pages/MergePdf.jsx:138-150 | no result: nothing happens; otherwise "merged-<now>.pdf" is downloaded and a reset scheduled |
| FrontendMerge.MergePdfPage.ResetAfterDownload | frontend/src/pages/MergePdf.jsx:151-156 | the list is emptied and the result cleared |
| FrontendMerge.MoveUpThenDownRestores | frontend/src/pages/MergePdf.jsx:74-98 | moving an entry up and back down restores the order |
| FrontendMerge.FilesAfterAdd | frontend/src/pages/MergePdf.jsx:31-49 | the list after `addFiles`: never more than ten files when it started within ten |
| FrontendMerge.CappedAppend | frontend/src/pages/MergePdf.jsx:37-44 | definition of the cap: the PDFs are appended when the total stays within ten, else nothing changes; characterised by FrontendMerge.AddTwoBatchesKeepsOrder |
| FrontendMerge.AddTwoBatchesKeepsOrder | frontend/src/pages/MergePdf.jsx:31-49 | two batches added in turn that fit within ten together leave the same list as one combined batch: the current files, then the PDFs of the first batch, then those of the second |
| FrontendSplit.StartPageValue | frontend/src/pages/SplitPdf.jsx:283 | `parseInt(value) \|\| 1`: the number typed if non-zero, else 1; never 0 |
| FrontendSplit.StartPageOfRendered | frontend/src/pages/SplitPdf.jsx:283 | a non-zero number reads back as itself |
| FrontendSplit.StartPageFallbacks | frontend/src/pages/SplitPdf.jsx:283 | "", "abc" and "0" become 1 |
| FrontendSplit.SplitRequest | frontend/src/pages/SplitPdf.jsx:67-78 | the request's field names are exactly SplitFieldNames: "pdf" and "split_mode" always; range mode adds "start_page", and "end_page" only when the end is non-empty; custom mode adds only "custom_pages". Each name carries the value the page holds |
| FrontendSplit.SplitFieldNames | frontend/src/pages/SplitPdf.jsx:67-78 | definition of the field names per mode, in append order; characterised by FrontendSplit.SplitFieldNamesDistinct |
| FrontendSplit.SplitFieldNamesDistinct | frontend/src/pages/SplitPdf.jsx:67-78 | no name is appended twice |
| FrontendSplit.RangeRequestLookups | frontend/src/pages/SplitPdf.jsx:67-75 | the values of the range request with an end page |
| FrontendSplit.RangeRequestWithoutEndLookups | frontend/src/pages/SplitPdf.jsx:67-72 | the values and the field names of the range request without an end page |
| FrontendSplit.CustomRequestLookups | frontend/src/pages/SplitPdf.jsx:67-78 | the values and the field names of the custom request |
| FrontendSplit.SplitPdfPage.constructor | frontend/src/pages/SplitPdf.jsx:13-22 | range mode, start 1, empty end and custom pages, no file |
| FrontendSplit.SplitPdfPage.Accept | frontend/src/pages/SplitPdf.jsx:27-31 | a PDF replaces the selection and clears the error and the result |
| FrontendSplit.SplitPdfPage.SelectFile | frontend/src/pages/SplitPdf.jsx:25-35 | a first file that is a PDF is taken; anything else raises the alert and changes nothing |
| FrontendSplit.SplitPdfPage.DropFile | frontend/src/pages/SplitPdf.jsx:47-59 | the same for a drop, considering only the first file |
| FrontendSplit.SplitPdfPage.SetSplitOption | frontend/src/pages/SplitPdf.jsx:253-264 | the mode is set and nothing else changes |
| FrontendSplit.SplitPdfPage.SetStartPageInput | frontend/src/pages/SplitPdf.jsx:283 | the start page becomes StartPageValue of the input |
| FrontendSplit.SplitPdfPage.SetEndPageInput | frontend/src/pages/SplitPdf.jsx:294 | the end page is stored as typed |
| FrontendSplit.SplitPdfPage.SetCustomPagesInput | frontend/src/pages/SplitPdf.jsx:331 | the custom string is stored as typed |
| FrontendSplit.SplitPdfPage.HandleSplit | frontend/src/pages/SplitPdf.jsx:61-78 | no file: nothing; otherwise splitting is set, the error cleared and the request is exactly `SplitRequest` of the selected file and the current parameters |
| FrontendSplit.SplitPdfPage.ReceiveSplitResponse | frontend/src/pages/SplitPdf.jsx:82-101 | success stores the blob; failure sets the error text; the file and parameters are kept |
| FrontendSplit.SplitPdfPage.HandleDownload | frontend/src/pages/SplitPdf.jsx:104-116 | no result or no file: nothing; otherwise the name with its first ".pdf" removed plus "-split.pdf" |
| FrontendSplit.SplitPdfPage.ResetAfterDownload | frontend/src/pages/SplitPdf.jsx:117-125 | file, result, start, end and custom pages reset; the mode is kept |
| FrontendPdfToWord.ConvertRequest | frontend/src/pages/PdfToWord.jsx:63-64 | the request carries exactly one field, "pdf" |
| FrontendPdfToWord.PdfToWordPage.constructor | frontend/src/pages/PdfToWord.jsx:13-18 | no file, nothing converted, no error |
| FrontendPdfToWord.PdfToWordPage.Accept | frontend/src/pages/PdfToWord.jsx:23-27 | a PDF replaces the selection and clears the error and the result |
| FrontendPdfToWord.PdfToWordPage.SelectFile | frontend/src/pages/PdfToWord.jsx:21-31 | a first file that is a PDF is taken; anything else raises the alert and changes nothing |
| FrontendPdfToWord.PdfToWordPage.DropFile | frontend/src/pages/PdfToWord.jsx:43-55 | the same for a drop, considering only the first file |
| FrontendPdfToWord.PdfToWordPage.HandleConvert | frontend/src/pages/PdfToWord.jsx:57-64 | no file: nothing; otherwise converting is set, the error cleared and the file sent alone |
| FrontendPdfToWord.PdfToWordPage.ReceiveConvertResponse | frontend/src/pages/PdfToWord.jsx:74-87 | success stores the blob and marks it converted; every failure shows exactly "Failed to convert PDF. Please try again."; the file is kept |
| FrontendPdfToWord.PdfToWordPage.HandleDownload | frontend/src/pages/PdfToWord.jsx:90-104 | no result or no file: nothing; otherwise the name with its first ".pdf" removed plus "-converted.docx" |
| FrontendPdfToWord.PdfToWordPage.ResetAfterDownload | frontend/src/pages/PdfToWord.jsx:105-111 | the file and the result are cleared |
| FrontendPdfToWord.ConvertedNameExample | frontend/src/pages/PdfToWord.jsx:97 | "report.pdf" downloads as "report-converted.docx" |
| LegacyPages.Intake | src/pages/SplitPdf.jsx:10-17 | the first file, exactly when there is one and it passes the type check |
| LegacyPages.LegacyMergePage.constructor | src/pages/MergePdf.jsx:14 | the list starts empty |
| LegacyPages.LegacyMergePage.AddFiles | src/pages/MergePdf.jsx:17-28 | the PDFs are appended in order with no upper bound; the alert is raised when anything was dropped |
| LegacyPages.LegacyMergePage.SelectFiles | src/pages/MergePdf.jsx:17-28 | selection appends the PDFs and alerts "Please select only PDF files" on a mixed batch |
| LegacyPages.LegacyMergePage.DropFiles | src/pages/MergePdf.jsx:40-53 | a drop appends the PDFs and alerts "Please drop only PDF files" on a mixed batch |
| LegacyPages.LegacyMergePage.RemoveFile | src/pages/MergePdf.jsx:55-57 | the list becomes RemoveAt(list, index) |
| LegacyPages.LegacyMergePage.MoveFileUp | src/pages/MergePdf.jsx:59-68 | index 0 changes nothing; otherwise the entry swaps with the one above |
| LegacyPages.LegacyMergePage.MoveFileDown | src/pages/MergePdf.jsx:70-79 | the last index changes nothing; otherwise the entry swaps with the one below |
| LegacyPages.LegacyMergePage.HandleMerge | src/pages/MergePdf.jsx:81-88 | with two files or more it announces the merge with the count; otherwise it asks for two files; it changes nothing |
| LegacyPages.LegacySplitPage.constructor | src/pages/SplitPdf.jsx:6-8 | no file, mode "all" |
| LegacyPages.LegacySplitPage.Take | src/pages/SplitPdf.jsx:10-38 | a first file that is a PDF replaces the selection; otherwise the selection stays and the alert is raised |
| LegacyPages.LegacySplitPage.SelectFile | src/pages/SplitPdf.jsx:10-17 | selection with "Please select a valid PDF file" on rejection |
| LegacyPages.LegacySplitPage.DropFile | src/pages/SplitPdf.jsx:29-38 | a drop with "Please drop a valid PDF file" on rejection |
| LegacyPages.LegacySplitPage.SetSplitOption | src/pages/SplitPdf.jsx:160-171 | the mode is set and the selection kept |
| LegacyPages.LegacySplitPage.HandleSplit | src/pages/SplitPdf.jsx:40-45 | no file: nothing; otherwise an alert naming the file and the mode; no state changes |
| LegacyPages.ConvertPage.PdfToWord | src/pages/PdfToWord.jsx:5-7 | the PDF-to-Word page accepts PDFs only and starts without a file |
| LegacyPages.ConvertPage.WordToPdf | src/pages/WordToPdf.jsx:5-7 | the Word-to-PDF page accepts Word documents only and starts without a file |
| LegacyPages.ConvertPage.Take | src/pages/WordToPdf.jsx:9-20 | an accepted first file replaces the selection; a rejected or missing one leaves it and raises the alert |
| LegacyPages.ConvertPage.SelectFile | src/pages/WordToPdf.jsx:9-21 | selection with the page's select alert on rejection |
| LegacyPages.ConvertPage.DropFile | src/pages/WordToPdf.jsx:33-47 | a drop, first file only, with the page's drop alert on rejection |
| LegacyPages.ConvertPage.HandleConvert | src/pages/WordToPdf.jsx:49-54 | no file: nothing; otherwise an alert naming the file and the target format; no state changes |
| LegacyPages.PdfIsNotWordDocument | src/pages/WordToPdf.jsx:11-16 | a PDF is never accepted as a Word document |
| LegacyPages.WordDocumentKinds | src/pages/WordToPdf.jsx:11-16 | both Word MIME types are accepted and other types are not |

## Left out

- File-system work is left out. This covers saving uploads, deleting them and the outputs, `cleanup_old_files` (deletion by age at start-up) and the streaming of `FileResponse`. Whether the output file exists after the write is a parameter.
- The clock is not modelled: `time.time()` and `Date.now()` are parameters.
- PyPDF2 is abstracted. A document is its page sequence or the reason it cannot be read, and pages are opaque.
- The converters `convert_pdf_to_word` and `convert_word_to_pdf` are given as their outcome (a document or an error message). backend/converters/pdf_to_word.py and backend/converters/word_to_pdf.py are not part of this model.
- Failures while saving an upload or writing an output are left out. They would be more 500 answers of the same shape.
- The FastAPI app inside backend/converters/split_pdf.py (lines 148-269) is not modelled. main.py imports only the helper functions, so that app is never served.
- SplitPdf.ParsePart: Python's `int()` also accepts signs, underscores, surrounding whitespace other than the removed spaces, and non-ASCII digits. The model accepts only non-empty ASCII digit strings.
- Text.IsBlank: the model treats ASCII and Latin-1 whitespace as blank. `str.strip()` also removes other Unicode whitespace.
- Text.ParseInt: this models `parseInt` on decimal text, with an optional sign and a digit prefix. Leading whitespace and the "0x" hexadecimal prefix are not modelled.
- Text.ParseIntOfIntToString: JavaScript numbers are doubles. Integers above 2^53 are not exact, and from 1e21 up `String` writes exponent form ("1e+21"), which `parseInt` reads back as 1. The model treats page numbers as unbounded integers, so `Text.ParseInt`, `FrontendSplit.StartPageValue` and the round trip hold only for integers JavaScript represents exactly below 1e21.
- The `isinstance(..., str)` and "null" branches of the split endpoint (backend/main.py:195-205) are left out. FastAPI already converts `start_page` and `end_page` to integers or None. A non-integer field is refused by FastAPI with 422 before the handler runs, and that is not modelled either.
- Api.MergePdfEndpoint: a merge request with no "files" part is refused by FastAPI with 422 before the handler runs, because `files` is a required list (backend/main.py:282). The member models the handler body, so its `|files| < 2` clause also gives 400 for zero files, a case that HTTP never delivers; over HTTP the 400 is reached only with exactly one file.
- `split_pdf_range` always accepts the range the endpoint passes it, so its failure branch is never reached from the endpoint.
- The merge endpoint's second existence check (backend/main.py:330-331) is not modelled. `merge_pdfs` already fails on the same condition.
- Upload paths are plain strings. `pathlib` normalisation is not modelled.
- Rendering is left out: animation, the drag highlight (`isDragging`), the success banner, and the file-size display. Alerts are returned as lists of messages.
- `fetch`, `FormData`, `Blob` and DOM downloads become request field lists, an `Outcome` and a returned file name.
- The three-second timer is the method `ResetAfterDownload`. It requires a download to have scheduled it.
- The at-most-one-request-in-flight rule becomes a precondition of `HandleMerge`, `HandleSplit` and `HandleConvert`. The pages enforce it only by hiding the button while a request runs. The answer arrives through a separate `Receive...Response` method.
- Console and print logging is left out.
- FrontendMerge.MergePdfPage.MoveFileUp requires an index inside the list, and so do MoveFileDown and the legacy page's moves. The pages only call them with the index of a rendered entry.

## Findings

| source | as written | input that shows it | evidently intended | confidence | as-written member | corrected member |
|---|---|---|---|---|---|---|
| backend/main.py:62-100 | A name not ending in ".pdf" raises HTTPException(400) inside the `try`. The `except Exception` block then reads `upload_path`, which was never assigned. The resulting UnboundLocalError escapes as a bare 500 with no detail. | upload named "notes.txt" | The rejection is answered like the split endpoint does it: `upload_path` bound before the `try`, and a 500 "Conversion failed: 400: Only PDF files are allowed" | high, not executed | Api.PdfToWordAsWritten | Api.PdfToWordResponse |
| backend/main.py:105-143 | The same unbound `upload_path` in `word_to_pdf` for a name ending in neither ".docx" nor ".doc" | upload named "report.pdf" | 500 "Conversion failed: 400: Only Word files (.doc, .docx) are allowed" | high, not executed | Api.WordToPdfAsWritten | Api.WordToPdfResponse |
