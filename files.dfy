/**
 * What the browser pages handle: user-supplied files, the multipart request they send,
 * the outcome of the request, and the messages shown when it fails.
 */
module Files {
  import opened Wrappers
  import Text

  newtype byte = x: int | 0 <= x < 256

  /** The bytes of a response body (`response.blob()`). */
  type Blob = seq<byte>

  /** A browser `File`: its name, its size in bytes and its declared MIME type. */
  datatype File = File(name: string, size: nat, mimeType: string)

  const PdfMime := "application/pdf"
  const DocxMime := "application/vnd.openxmlformats-officedocument.wordprocessingml.document"
  const MswordMime := "application/msword"

  /** `file.type === "application/pdf"` */
  predicate IsPdf(f: File) {
    f.mimeType == PdfMime
  }

  /** A `.docx` or a legacy `.doc` document, by declared MIME type. */
  predicate IsWordDocument(f: File) {
    f.mimeType == DocxMime || f.mimeType == MswordMime
  }

  /** One `formData.append(name, value)`: a file or a text value. */
  datatype FieldValue = FileValue(file: File) | TextValue(text: string)
  datatype Field = Field(name: string, value: FieldValue)

  function FieldNames(fields: seq<Field>): (names: seq<string>)
    ensures |names| == |fields|
    ensures forall i :: 0 <= i < |fields| ==> names[i] == fields[i].name
  {
    if |fields| == 0 then [] else [fields[0].name] + FieldNames(fields[1..])
  }

  /** The value of the first field called `name`; the requests built here never repeat a single-valued name. */
  function Lookup(fields: seq<Field>, name: string): (r: Option<FieldValue>)
    ensures r.None? <==> name !in FieldNames(fields)
    ensures r.Some? ==> Field(name, r.value) in fields
  {
    if |fields| == 0 then None
    else if fields[0].name == name then Some(fields[0].value)
    else
      assert FieldNames(fields) == [fields[0].name] + FieldNames(fields[1..]);
      Lookup(fields[1..], name)
  }

  /** Appending a field leaves every name already present as it was. */
  lemma {:induction false} LookupAppend(fields: seq<Field>, f: Field, name: string)
    ensures Lookup(fields + [f], name) ==
              if Lookup(fields, name).Some? then Lookup(fields, name)
              else if f.name == name then Some(f.value) else None
  {
    if |fields| > 0 {
      assert (fields + [f])[1..] == fields[1..] + [f];
      LookupAppend(fields[1..], f, name);
    } else {
      assert fields + [f] == [f];
    }
  }

  /** The single-file pages accept a selection or a drop when its first file is a PDF. */
  predicate FirstIsPdf(files: seq<File>) {
    |files| > 0 && IsPdf(files[0])
  }

  /**
   * What a handler learns from `await fetch(...)` and the body it then reads:
   *  - Ok: `response.ok`, and `response.blob()` gave the body;
   *  - NotOk: not ok, and `response.json()` parsed a body whose `detail` field is given
   *    (None when absent, null or empty);
   *  - Thrown: the fetch rejected or the error body was not JSON; `message` is the
   *    `Error`'s message.
   */
  datatype Outcome = Ok(body: Blob) | NotOk(detail: Option<string>) | Thrown(message: string)

  /**
   * The text a page shows after a failed request:
   * `throw new Error(errorData.detail || notOkFallback)` inside the `try`, then
   * `setError(error.message || genericFallback)` in the `catch`.
   */
  function FailureMessage(o: Outcome, notOkFallback: string, genericFallback: string): (m: string)
    requires !o.Ok?
    requires notOkFallback != "" && genericFallback != ""
    ensures m != ""
    ensures o.NotOk? && o.detail.Some? && o.detail.value != "" ==> m == o.detail.value
    ensures o.NotOk? && (o.detail.None? || o.detail.value == "") ==> m == notOkFallback
    ensures o.Thrown? ==> m == (if o.message != "" then o.message else genericFallback)
  {
    match o
    case NotOk(detail) =>
      if detail.Some? && detail.value != "" then detail.value else notOkFallback
    case Thrown(message) =>
      if message != "" then message else genericFallback
  }

  /** `${name.replace(".pdf", "")}${suffix}`: the source name with its FIRST ".pdf" removed. */
  function DownloadName(sourceName: string, suffix: string): string {
    Text.ReplaceFirst(sourceName, ".pdf", "") + suffix
  }

  /** A name whose only dot starts its ".pdf" extension loses exactly that extension. */
  lemma DownloadNameOfPlainPdf(stem: string, suffix: string)
    requires '.' !in stem
    ensures DownloadName(stem + ".pdf", suffix) == stem + suffix
  {
    Text.ReplaceFirstAfterDotlessStem(stem, ".pdf", "", "");
    assert stem + ".pdf" + "" == stem + ".pdf";
    assert stem + "" + "" == stem;
  }

  /** Only the first ".pdf" goes: "a.pdf.pdf" is saved as "a.pdf" followed by the suffix. */
  lemma DownloadNameRemovesFirstPdfOnly(stem: string, rest: string, suffix: string)
    requires '.' !in stem
    ensures DownloadName(stem + ".pdf" + rest, suffix) == stem + rest + suffix
  {
    Text.ReplaceFirstAfterDotlessStem(stem, ".pdf", rest, "");
    assert stem + "" + rest == stem + rest;
  }
}
