/**
 * The list operations both merge pages apply to their selected files: keeping only PDFs,
 * removing one entry, and exchanging two neighbours.
 */
module FileList {
  import opened Files

  predicate AllPdf(files: seq<File>) {
    forall i :: 0 <= i < |files| ==> IsPdf(files[i])
  }

  /** `files.filter((file) => file.type === "application/pdf")` */
  function PdfOnly(files: seq<File>): (r: seq<File>)
    ensures AllPdf(r)
    ensures |r| <= |files|
    ensures forall f :: f in r <==> f in files && IsPdf(f)
    ensures |r| == |files| <==> AllPdf(files)
  {
    if |files| == 0 then []
    else
      var rest := PdfOnly(files[1..]);
      assert files == [files[0]] + files[1..];
      assert AllPdf(files) <==> IsPdf(files[0]) && AllPdf(files[1..]);
      if IsPdf(files[0]) then [files[0]] + rest else rest
  }

  /** Filtering keeps the order: filtering two batches is filtering each, in turn. */
  lemma {:induction false} PdfOnlyAppend(a: seq<File>, b: seq<File>)
    ensures PdfOnly(a + b) == PdfOnly(a) + PdfOnly(b)
  {
    if |a| > 0 {
      assert (a + b)[1..] == a[1..] + b;
      PdfOnlyAppend(a[1..], b);
    } else {
      assert a + b == b;
    }
  }

  /** A batch of PDFs passes whole and in order. */
  lemma {:induction false} PdfOnlyOfPdfs(files: seq<File>)
    requires AllPdf(files)
    ensures PdfOnly(files) == files
  {
    if |files| > 0 {
      PdfOnlyOfPdfs(files[1..]);
      assert [files[0]] + files[1..] == files;
    }
  }

  /** `files.filter((_, i) => i !== index)`: entry `index` is dropped, if there is one. */
  function RemoveAt(files: seq<File>, index: int): (r: seq<File>)
    ensures 0 <= index < |files| ==>
              |r| == |files| - 1 &&
              (forall k :: 0 <= k < index ==> r[k] == files[k]) &&
              (forall k :: index <= k < |r| ==> r[k] == files[k + 1])
    ensures !(0 <= index < |files|) ==> r == files
    ensures multiset(r) <= multiset(files)
  {
    if 0 <= index < |files| then
      assert files == files[..index] + [files[index]] + files[index + 1..];
      files[..index] + files[index + 1..]
    else files
  }

  /** The list with the entries at `i` and `j` exchanged. */
  function Swap(files: seq<File>, i: nat, j: nat): (r: seq<File>)
    requires i < |files| && j < |files|
    ensures |r| == |files|
    ensures r[i] == files[j] && r[j] == files[i]
    ensures forall k :: 0 <= k < |files| && k != i && k != j ==> r[k] == files[k]
  {
    files[i := files[j]][j := files[i]]
  }

  /** Exchanging the same two entries again restores the list. */
  lemma SwapTwice(files: seq<File>, i: nat, j: nat)
    requires i < |files| && j < |files|
    ensures Swap(Swap(files, i, j), i, j) == files
  {
    assert forall k :: 0 <= k < |files| ==> Swap(Swap(files, i, j), i, j)[k] == files[k];
  }

  /** An exchange neither adds nor loses a file. */
  lemma SwapPermutes(files: seq<File>, i: nat, j: nat)
    requires i < |files| && j < |files|
    ensures multiset(Swap(files, i, j)) == multiset(files)
  {
    if i != j {
      var r := Swap(files, i, j);
      assert r == files[i := files[j]][j := files[i]];
      calc {
        multiset(r);
        multiset(files[i := files[j]]) - multiset{files[i := files[j]][j]} + multiset{files[i]};
        multiset(files[i := files[j]]) - multiset{files[j]} + multiset{files[i]};
        multiset(files) - multiset{files[i]} + multiset{files[j]} - multiset{files[j]} + multiset{files[i]};
      }
    }
  }

  /** The copy of a list into a fresh array that the move handlers swap in. */
  method CopyToArray(files: seq<File>) returns (a: array<File>)
    ensures fresh(a)
    ensures a[..] == files
  {
    a := new File[|files|](i requires 0 <= i < |files| => files[i]);
  }
}
