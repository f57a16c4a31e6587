/**
 * Document ingestion (utils/document.py): the upload extension check, the DOCX
 * page-count estimate, and `process_document`, which dispatches on the file
 * type and builds the paragraph objects and the placeholder list.
 *
 * The PDF/DOCX readers are foreign libraries: what they return for a file is an
 * `Extraction` handed in by the caller. SHA-256 is the parameter `sha`.
 */
module DocumentIngest {
  import opened Wrappers
  import opened Text
  import opened Segmentation
  import opened Placeholders
  import opened Seqs

  /** The extensions the application accepts. */
  const AllowedExtensions: set<string> := {"pdf", "docx"}

  /** `allowed_file`: `'.' in filename and filename.rsplit('.', 1)[1].lower() in allowed`. */
  function AllowedFile(filename: string, allowed: set<string>): bool {
    match LastIndexOf(filename, '.')
    case None => false
    case Some(k) => Lower(filename[k + 1..]) in allowed
  }

  /**
   * A filename is allowed exactly when it has a '.' and the lower-cased text
   * after its last '.' is an allowed extension.
   */
  lemma AllowedFileIff(filename: string, allowed: set<string>)
    ensures AllowedFile(filename, allowed)
            <==> exists k :: 0 <= k < |filename| && filename[k] == '.'
                   && '.' !in filename[k + 1..] && Lower(filename[k + 1..]) in allowed
  {
    forall k | 0 <= k < |filename| && filename[k] == '.' && '.' !in filename[k + 1..]
      ensures LastIndexOf(filename, '.') == Some(k)
    {
      LastIndexOfIs(filename, '.', k);
    }
  }

  /** Characters per page assumed by the DOCX page estimate. */
  const AvgCharsPerPage: nat := 2000

  /** The DOCX page estimate `max(1, len(full_text) // 2000)` (Python's `//` on non-negatives). */
  function DocxPageCount(textLength: nat): (pages: nat)
    ensures pages >= 1
    ensures textLength < 2 * AvgCharsPerPage ==> pages == 1
    ensures textLength >= AvgCharsPerPage ==>
              pages * AvgCharsPerPage <= textLength < (pages + 1) * AvgCharsPerPage
  {
    var estimate := textLength / AvgCharsPerPage;
    if estimate < 1 then 1 else estimate
  }

  // ---------------------------------------------------------------------------
  // process_document

  /** What the PDF or DOCX reader returned for a file: its text, layout JSON and page count, or an error. */
  datatype Extraction =
    | Extracted(fullText: string, layoutInfo: string, pageCount: nat)
    | ExtractionFailed(error: string)

  /** A paragraph object: `{'text', 'hash', 'position'}`. */
  datatype ParagraphRecord = ParagraphRecord(text: string, hash: string, position: nat)

  /** The dictionary `process_document` returns, by its 'success' flag. */
  datatype ProcessResult =
    | Processed(fullText: string, layoutInfo: string, pageCount: nat,
                paragraphs: seq<ParagraphRecord>, variables: seq<VariableOccurrence>)
    | ProcessFailed(error: string)

  /** Paragraphs shorter than this many characters are dropped as noise. */
  const MinParagraphLength: nat := 5

  /** The paragraph object built for the paragraph at index `i`, unless it is too short. */
  function RecordAt(paragraphs: seq<string>, sha: string -> string, i: nat): seq<ParagraphRecord>
    requires i < |paragraphs|
  {
    var text := paragraphs[i];
    if |text| < MinParagraphLength then [] else [ParagraphRecord(text, sha(text), i)]
  }

  /** The paragraph objects built from the segmented paragraphs; `position` is the index before filtering. */
  function Records(paragraphs: seq<string>, sha: string -> string): seq<ParagraphRecord> {
    if paragraphs == [] then []
    else Records(paragraphs[..|paragraphs| - 1], sha) + RecordAt(paragraphs, sha, |paragraphs| - 1)
  }

  /** One iteration of the paragraph loop appends the object for index `i`, if any. */
  lemma RecordsStep(paragraphs: seq<string>, sha: string -> string, i: nat)
    requires i < |paragraphs|
    ensures Records(paragraphs[..i + 1], sha) == Records(paragraphs[..i], sha) + RecordAt(paragraphs, sha, i)
  {
    TakeTake(paragraphs, i, i + 1);
    assert paragraphs[..i + 1][i] == paragraphs[i];
  }

  /**
   * Every paragraph object is long enough, is hashed from its own text, and
   * sits at the index its text had before the short ones were dropped; the
   * positions strictly increase.
   */
  lemma {:induction false} RecordsSpec(paragraphs: seq<string>, sha: string -> string)
    ensures forall j :: 0 <= j < |Records(paragraphs, sha)| ==>
              var r := Records(paragraphs, sha)[j];
              |r.text| >= MinParagraphLength && r.hash == sha(r.text)
              && r.position < |paragraphs| && paragraphs[r.position] == r.text
    ensures forall j, j' :: 0 <= j < j' < |Records(paragraphs, sha)| ==>
              Records(paragraphs, sha)[j].position < Records(paragraphs, sha)[j'].position
  {
    if paragraphs != [] {
      var i := |paragraphs| - 1;
      RecordsSpec(paragraphs[..i], sha);
    }
  }

  /** Some object in `rs` sits at position `i`. */
  predicate HasPosition(rs: seq<ParagraphRecord>, i: nat) {
    exists j :: 0 <= j < |rs| && rs[j].position == i
  }

  lemma HasPositionAppend(a: seq<ParagraphRecord>, b: seq<ParagraphRecord>, i: nat)
    ensures HasPosition(a + b, i) <==> HasPosition(a, i) || HasPosition(b, i)
  {
    if HasPosition(a + b, i) {
      var j :| 0 <= j < |a + b| && (a + b)[j].position == i;
      if j >= |a| {
        assert b[j - |a|] == (a + b)[j];
      }
    }
    if HasPosition(a, i) {
      var j :| 0 <= j < |a| && a[j].position == i;
      assert (a + b)[j] == a[j];
    }
    if HasPosition(b, i) {
      var j :| 0 <= j < |b| && b[j].position == i;
      assert (a + b)[|a| + j] == b[j];
    }
  }

  /** A paragraph gets an object exactly when it has at least five characters. */
  lemma {:induction false} RecordsComplete(paragraphs: seq<string>, sha: string -> string, i: nat)
    requires i < |paragraphs|
    ensures HasPosition(Records(paragraphs, sha), i) <==> |paragraphs[i]| >= MinParagraphLength
  {
    var n := |paragraphs| - 1;
    var init := paragraphs[..n];
    HasPositionAppend(Records(init, sha), RecordAt(paragraphs, sha, n), i);
    if i < n {
      RecordsComplete(init, sha, i);
      assert init[i] == paragraphs[i];
    } else {
      RecordsSpec(init, sha);
      var rs := Records(init, sha);
      forall j | 0 <= j < |rs| ensures rs[j].position != i {
      }
      var last := RecordAt(paragraphs, sha, n);
      assert |paragraphs[n]| >= MinParagraphLength ==> last[0].position == n;
    }
  }

  /**
   * What the paragraph loop of `process_document` builds from a full text: at
   * most one object, for the whole text with its whitespace collapsed and
   * stripped, at position 0, and none when that has fewer than five characters.
   */
  lemma ProcessedParagraphs(text: string, sha: string -> string)
    ensures var p := Strip(CollapseWhitespace(text));
            Records(SegmentsAsWritten(text), sha)
            == if |p| < MinParagraphLength then [] else [ParagraphRecord(p, sha(p), 0)]
  {
    var p := Strip(CollapseWhitespace(text));
    SegmentsWhole(text);
    if p != [] {
      RecordsSingle(p, sha);
    }
  }

  /** A single paragraph gets an object at position 0 when it is long enough. */
  lemma RecordsSingle(p: string, sha: string -> string)
    ensures Records([p], sha) == if |p| < MinParagraphLength then [] else [ParagraphRecord(p, sha(p), 0)]
  {
    assert [p][..0] == [];
  }

  /** The error `process_document` reports for a type it cannot dispatch. */
  function UnsupportedTypeError(fileType: string): string {
    "Unsupported file type: " + fileType
  }

  /** The dictionary `process_document` returns, as a value. */
  function ProcessOutcome(fileType: string, patterns: seq<string>,
                          pdf: Extraction, docx: Extraction, sha: string -> string): ProcessResult
  {
    if fileType != "pdf" && fileType != "docx" then ProcessFailed(UnsupportedTypeError(fileType))
    else
      match if fileType == "pdf" then pdf else docx
      case ExtractionFailed(error) => ProcessFailed(error)
      case Extracted(fullText, layoutInfo, pageCount) =>
        Processed(fullText, layoutInfo, pageCount, Records(SegmentsAsWritten(fullText), sha), Variables(fullText, patterns))
  }

  /**
   * `process_document`: dispatch on the declared type ('pdf' or 'docx') to the
   * reader's result; an unsupported type or a reader error is a failure that
   * carries the error text and nothing else; otherwise the full text, layout
   * and page count come through unchanged, with the paragraph objects of the
   * segmented text and the placeholders found in the full text.
   */
  method ProcessDocument(fileType: string, patterns: seq<string>,
                         pdf: Extraction, docx: Extraction, sha: string -> string)
    returns (result: ProcessResult)
    ensures fileType != "pdf" && fileType != "docx" ==>
              result == ProcessFailed(UnsupportedTypeError(fileType))
    ensures var x := if fileType == "pdf" then pdf else docx;
            (fileType == "pdf" || fileType == "docx") && x.ExtractionFailed? ==>
              result == ProcessFailed(x.error)
    ensures var x := if fileType == "pdf" then pdf else docx;
            (fileType == "pdf" || fileType == "docx") && x.Extracted? ==>
              result == Processed(x.fullText, x.layoutInfo, x.pageCount,
                                  Records(SegmentsAsWritten(x.fullText), sha), Variables(x.fullText, patterns))
    ensures result == ProcessOutcome(fileType, patterns, pdf, docx, sha)
  {
    var extraction: Extraction;
    if fileType == "pdf" {
      extraction := pdf;
    } else if fileType == "docx" {
      extraction := docx;
    } else {
      return ProcessFailed(UnsupportedTypeError(fileType));
    }
    if extraction.ExtractionFailed? {
      return ProcessFailed(extraction.error);
    }
    var fullText := extraction.fullText;
    var paragraphs := SegmentParagraphs(fullText);
    var paragraphObjects: seq<ParagraphRecord> := [];
    for i := 0 to |paragraphs|
      invariant paragraphObjects == Records(paragraphs[..i], sha)
    {
      RecordsStep(paragraphs, sha, i);
      var paraText := paragraphs[i];
      if |paraText| < MinParagraphLength {
        continue;
      }
      paragraphObjects := paragraphObjects + [ParagraphRecord(paraText, sha(paraText), i)];
    }
    assert paragraphs[..|paragraphs|] == paragraphs;
    var variables := FindVariables(fullText, patterns);
    result := Processed(fullText, extraction.layoutInfo, extraction.pageCount, paragraphObjects, variables);
  }
}
