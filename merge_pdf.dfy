/**
 * `merge_pdfs`: copy every page of every input, files in list order and pages in
 * document order, into one writer; wrap every failure as "Failed to merge PDFs: ...".
 * The PDF library is abstracted as in SplitPdf: a document is readable with its pages,
 * or unreadable with the reader's error text.
 */
module MergePdf {
  import opened Wrappers
  import opened Text
  import opened SplitPdf

  /** One entry of `pdf_paths` together with what opening that path yields. */
  datatype Input<P> = Input(path: string, doc: Document<P>)

  /** The written document and the `total_pages` counter. */
  datatype Merged<P> = Merged(pages: seq<P>, totalPages: nat)

  predicate AllReadable<P>(inputs: seq<Input<P>>) {
    forall i :: 0 <= i < |inputs| ==> inputs[i].doc.Readable?
  }

  /** The pages of all inputs, concatenated in list order. */
  function MergedPages<P>(inputs: seq<Input<P>>): seq<P>
    requires AllReadable(inputs)
  {
    if |inputs| == 0 then []
    else MergedPages(inputs[..|inputs| - 1]) + inputs[|inputs| - 1].doc.pages
  }

  /** The sum of the inputs' page counts. */
  function PageCount<P>(inputs: seq<Input<P>>): nat
    requires AllReadable(inputs)
  {
    if |inputs| == 0 then 0
    else PageCount(inputs[..|inputs| - 1]) + |inputs[|inputs| - 1].doc.pages|
  }

  /** The first input the reader cannot open. */
  function FirstUnreadable<P>(inputs: seq<Input<P>>): (r: Option<nat>)
    ensures r.Some? ==> r.value < |inputs| && inputs[r.value].doc.Unreadable? &&
                        forall j :: 0 <= j < r.value ==> inputs[j].doc.Readable?
    ensures r.None? <==> AllReadable(inputs)
  {
    if |inputs| == 0 then None
    else if inputs[0].doc.Unreadable? then Some(0)
    else match FirstUnreadable(inputs[1..])
      case None => None
      case Some(k) => Some(k + 1)
  }

  /** An unreadable input with only readable ones before it is the first unreadable one. */
  lemma FirstUnreadableAt<P>(inputs: seq<Input<P>>, k: nat)
    requires k < |inputs| && inputs[k].doc.Unreadable?
    requires forall j :: 0 <= j < k ==> inputs[j].doc.Readable?
    ensures FirstUnreadable(inputs) == Some(k)
  {
  }

  function ReadErrorMessage(path: string, reason: string): string {
    "Error reading " + Basename(path) + ": " + reason
  }

  function MergeFailure(message: string): string {
    "Failed to merge PDFs: " + message
  }

  const NotCreated := "Merged PDF was not created"

  /**
   * `merge_pdfs(pdf_paths, output_path)`. `outputWritten` is whether the output file
   * exists after the write. The first unreadable input aborts the merge before anything
   * is written; otherwise the writer holds every page of every input in order and
   * `total_pages` counts them.
   */
  method MergePdfs<P>(inputs: seq<Input<P>>, outputWritten: bool) returns (r: Result<Merged<P>, string>)
    ensures FirstUnreadable(inputs).Some? ==>
              var k := FirstUnreadable(inputs).value;
              r == Failure(MergeFailure(ReadErrorMessage(inputs[k].path, inputs[k].doc.reason)))
    ensures AllReadable(inputs) && !outputWritten ==> r == Failure(MergeFailure(NotCreated))
    ensures AllReadable(inputs) && outputWritten ==>
              r == Success(Merged(MergedPages(inputs), PageCount(inputs)))
  {
    var writer: seq<P> := [];
    var totalPages: nat := 0;
    for idx := 0 to |inputs|
      invariant forall j :: 0 <= j < idx ==> inputs[j].doc.Readable?
      invariant AllReadable(inputs[..idx])
      invariant writer == MergedPages(inputs[..idx])
      invariant totalPages == PageCount(inputs[..idx])
    {
      assert inputs[..idx + 1][..idx] == inputs[..idx];
      match inputs[idx].doc
      case Unreadable(reason) =>
        FirstUnreadableAt(inputs, idx);
        return Failure(MergeFailure(ReadErrorMessage(inputs[idx].path, reason)));
      case Readable(pages) =>
        for pageNum := 0 to |pages|
          invariant writer == MergedPages(inputs[..idx]) + pages[..pageNum]
          invariant totalPages == PageCount(inputs[..idx]) + pageNum
        {
          assert pages[..pageNum + 1] == pages[..pageNum] + [pages[pageNum]];
          writer := writer + [pages[pageNum]];
          totalPages := totalPages + 1;
        }
        assert pages[..|pages|] == pages;
        assert AllReadable(inputs[..idx + 1]);
    }
    assert inputs[..|inputs|] == inputs;
    if !outputWritten {
      return Failure(MergeFailure(NotCreated));
    }
    return Success(Merged(writer, totalPages));
  }

  // ---------------------------------------------------------------------------
  // What the merged document is

  /** `total_pages` is the length of the merged document. */
  lemma {:induction false} PageCountIsLength<P>(inputs: seq<Input<P>>)
    requires AllReadable(inputs)
    ensures |MergedPages(inputs)| == PageCount(inputs)
  {
    if |inputs| > 0 {
      var init := inputs[..|inputs| - 1];
      assert AllReadable(init) by {
        forall j | 0 <= j < |init| ensures init[j].doc.Readable? { assert init[j] == inputs[j]; }
      }
      PageCountIsLength(init);
    }
  }

  /** Merging two lists of files is merging each and concatenating. */
  lemma {:induction false} MergedPagesAppend<P>(xs: seq<Input<P>>, ys: seq<Input<P>>)
    requires AllReadable(xs) && AllReadable(ys)
    ensures AllReadable(xs + ys)
    ensures MergedPages(xs + ys) == MergedPages(xs) + MergedPages(ys)
    decreases |ys|
  {
    assert AllReadable(xs + ys) by {
      forall j | 0 <= j < |xs + ys| ensures (xs + ys)[j].doc.Readable? {
        if j < |xs| { assert (xs + ys)[j] == xs[j]; } else { assert (xs + ys)[j] == ys[j - |xs|]; }
      }
    }
    if |ys| == 0 {
      assert xs + ys == xs;
    } else {
      var init := ys[..|ys| - 1];
      assert AllReadable(init) by {
        forall j | 0 <= j < |init| ensures init[j].doc.Readable? { assert init[j] == ys[j]; }
      }
      assert (xs + ys)[..|xs + ys| - 1] == xs + init;
      assert (xs + ys)[|xs + ys| - 1] == ys[|ys| - 1];
      MergedPagesAppend(xs, init);
      var a, b, c := MergedPages(xs), MergedPages(init), ys[|ys| - 1].doc.pages;
      assert (a + b) + c == a + (b + c);
    }
  }

  /**
   * Page j of file i lands at position (pages of the files before i) + j: files keep
   * their list order and pages their document order.
   */
  lemma PagePosition<P>(inputs: seq<Input<P>>, i: nat, j: nat)
    requires AllReadable(inputs)
    requires i < |inputs| && j < |inputs[i].doc.pages|
    ensures AllReadable(inputs[..i])
    ensures PageCount(inputs[..i]) + j < |MergedPages(inputs)|
    ensures MergedPages(inputs)[PageCount(inputs[..i]) + j] == inputs[i].doc.pages[j]
  {
    var before, rest := inputs[..i], inputs[i + 1..];
    assert AllReadable(before) by {
      forall k | 0 <= k < |before| ensures before[k].doc.Readable? { assert before[k] == inputs[k]; }
    }
    assert AllReadable(rest) by {
      forall k | 0 <= k < |rest| ensures rest[k].doc.Readable? { assert rest[k] == inputs[i + 1 + k]; }
    }
    assert AllReadable([inputs[i]]);
    assert inputs == before + [inputs[i]] + rest;
    MergedPagesAppend(before, [inputs[i]]);
    MergedPagesAppend(before + [inputs[i]], rest);
    assert [inputs[i]][..0] == [];
    assert MergedPages([inputs[i]]) == inputs[i].doc.pages;
    PageCountIsLength(before);
  }

  /** Two single-page files merge into those two pages, first file first. */
  lemma TwoFilesInOrder<P>(a: string, b: string, p: P, q: P)
    ensures var inputs := [Input(a, Readable([p])), Input(b, Readable([q]))];
            AllReadable(inputs) && MergedPages(inputs) == [p, q] && PageCount(inputs) == 2
  {
    var inputs := [Input(a, Readable([p])), Input(b, Readable([q]))];
    assert inputs[..1] == [inputs[0]];
    assert inputs[..1][..0] == [];
    assert MergedPages(inputs[..1]) == [] + [p] == [p];
    assert [p] + [q] == [p, q];
    assert PageCount(inputs[..1]) == 1;
  }
}
