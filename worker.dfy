/**
 * The application state of app.py that the upload route and the background
 * worker share: the in-memory processing queue, the `Document`, `Paragraph`
 * and `Variable` tables with the document-to-paragraph and
 * document-to-variable associations, one iteration of
 * `process_document_background`, and the page-count grouping of the
 * `templates` route.
 *
 * The file system, the PDF and DOCX readers and SHA-256 are what the worker
 * cannot see; they are bundled in an `Environment`. Record ids are positions
 * in the paragraph and variable tables and a counter for documents.
 */
module Worker {
  import opened Wrappers
  import opened Text
  import opened Seqs
  import opened Grouping
  import opened Tally
  import opened Registry
  import opened Segmentation
  import opened Placeholders
  import opened DocumentIngest
  import opened Models

  /** A `Document` record with the ids of its paragraphs and variables in association order. */
  datatype DocumentRow = DocumentRow(
    filename: string, originalFilename: string, fileType: string, fileSize: nat,
    pageCount: nat, processed: bool, processingError: Option<string>,
    fullText: Option<string>, layoutInfo: Option<string>,
    paragraphIds: seq<nat>, variableIds: seq<nat>)

  /** A `Paragraph` record. */
  datatype ParagraphRow = ParagraphRow(text: string, hash: string, position: nat)

  /** A `Variable` record. */
  datatype VariableRow = VariableRow(name: string, patternType: string)

  /** Paragraphs are looked up by hash. */
  function HashKey(p: ParagraphRow): string {
    p.hash
  }

  /** Variables are looked up by name and pattern type. */
  function VariableKey(v: VariableRow): (string, string) {
    (v.name, v.patternType)
  }

  /** `Paragraph(text=..., hash=..., position=...)` from a paragraph object. */
  function NewParagraph(r: ParagraphRecord): ParagraphRow {
    ParagraphRow(r.text, r.hash, r.position)
  }

  /** `Variable(name=..., pattern_type=...)` from a found placeholder. */
  function NewVariable(v: VariableOccurrence): VariableRow {
    VariableRow(v.name, v.patternType)
  }

  /** The record the upload route creates: nothing extracted, not processed, no error. */
  function NewDocument(filename: string, originalFilename: string, fileType: string, fileSize: nat): DocumentRow {
    DocumentRow(filename, originalFilename, fileType, fileSize, 0, false, None, None, None, [], [])
  }

  /** What the worker consults outside the database. */
  datatype Environment = Environment(
    uploadFolder: string, patterns: seq<string>,
    fileExists: string -> bool,
    readPdf: string -> Extraction, readDocx: string -> Extraction,
    sha: string -> string)

  /** `os.path.join(upload_folder, filename)` for a plain file name. */
  function FilePath(folder: string, filename: string): string {
    folder + "/" + filename
  }

  function MissingFileError(path: string): string {
    "File " + path + " does not exist"
  }

  /** The path of a document's stored file. */
  function PathOf(d: DocumentRow, env: Environment): string {
    FilePath(env.uploadFolder, d.filename)
  }

  /** What `process_document` returns for a document's stored file. */
  function Outcome(d: DocumentRow, env: Environment): ProcessResult {
    var path := PathOf(d, env);
    ProcessOutcome(d.fileType, env.patterns, env.readPdf(path), env.readDocx(path), env.sha)
  }

  /** The three tables. */
  datatype Tables = Tables(documents: map<int, DocumentRow>, paragraphs: seq<ParagraphRow>, variables: seq<VariableRow>)

  /** A document's associations name stored records, none twice. */
  predicate DocumentLinks(d: DocumentRow, t: Tables) {
    WellLinked(Linked(t.paragraphs, d.paragraphIds)) && WellLinked(Linked(t.variables, d.variableIds))
  }

  /** No two paragraphs share a hash, no two variables a name and type, and every association is well formed. */
  predicate ValidTables(t: Tables) {
    && UniqueKeys(t.paragraphs, HashKey)
    && UniqueKeys(t.variables, VariableKey)
    && forall id :: id in t.documents ==> DocumentLinks(t.documents[id], t)
  }

  /** The tables after the worker has handled the queued id `id`. */
  function Step(t: Tables, id: int, env: Environment): Tables {
    if id !in t.documents then t
    else
      var d := t.documents[id];
      if !env.fileExists(PathOf(d, env)) then
        t.(documents := t.documents[id := d.(processingError := Some(MissingFileError(PathOf(d, env))))])
      else
        match Outcome(d, env)
        case ProcessFailed(error) =>
          t.(documents := t.documents[id := d.(processingError := Some(error))])
        case Processed(fullText, layoutInfo, pageCount, records, found) =>
          var ps := LinkAll(Linked(t.paragraphs, d.paragraphIds), NewParagraph, HashKey, records);
          var vs := LinkAll(Linked(t.variables, d.variableIds), NewVariable, VariableKey, found);
          Tables(t.documents[id := d.(fullText := Some(fullText), layoutInfo := Some(layoutInfo),
                                      pageCount := pageCount, paragraphIds := ps.linked,
                                      variableIds := vs.linked, processed := true)],
                 ps.store, vs.store)
  }

  /** The application's shared state. */
  class Application {
    var processingQueue: seq<int>
    var documents: map<int, DocumentRow>
    var paragraphs: seq<ParagraphRow>
    var variables: seq<VariableRow>
    var nextDocumentId: int

    function Contents(): Tables
      reads this
    {
      Tables(documents, paragraphs, variables)
    }

    predicate Valid()
      reads this
    {
      ValidTables(Contents()) && forall id :: id in documents ==> id < nextDocumentId
    }

    constructor ()
      ensures Valid()
      ensures processingQueue == [] && Contents() == Tables(map[], [], [])
    {
      processingQueue := [];
      documents := map[];
      paragraphs := [];
      variables := [];
      nextDocumentId := 1;
    }

    /**
     * The upload route once the file is saved: a new document record, whose
     * id is appended to the tail of the queue without looking at what is
     * queued already.
     */
    method Upload(filename: string, originalFilename: string, fileType: string, fileSize: nat) returns (id: int)
      requires Valid()
      modifies this
      ensures Valid()
      ensures id !in old(documents)
      ensures documents == old(documents)[id := NewDocument(filename, originalFilename, fileType, fileSize)]
      ensures processingQueue == old(processingQueue) + [id]
      ensures paragraphs == old(paragraphs) && variables == old(variables)
    {
      id := nextDocumentId;
      nextDocumentId := nextDocumentId + 1;
      documents := documents[id := NewDocument(filename, originalFilename, fileType, fileSize)];
      processingQueue := processingQueue + [id];
    }

    /**
     * One iteration of `process_document_background`: with an empty queue
     * nothing happens; otherwise the head id is removed and handled as `Step`
     * describes.
     */
    method ProcessNext(env: Environment)
      requires Valid()
      modifies this
      ensures Valid()
      ensures nextDocumentId == old(nextDocumentId)
      ensures old(processingQueue) == [] ==> processingQueue == [] && Contents() == old(Contents())
      ensures old(processingQueue) != [] ==>
                processingQueue == old(processingQueue)[1..]
                && Contents() == Step(old(Contents()), old(processingQueue)[0], env)
    {
      if processingQueue == [] {
        return;
      }
      var documentId := processingQueue[0];
      processingQueue := processingQueue[1..];
      StepKeepsValid(Contents(), documentId, env);
      if documentId !in documents {
        return;
      }
      var document := documents[documentId];
      var filePath := FilePath(env.uploadFolder, document.filename);
      if !env.fileExists(filePath) {
        documents := documents[documentId := document.(processingError := Some(MissingFileError(filePath)))];
        return;
      }
      var result := ProcessDocument(document.fileType, env.patterns, env.readPdf(filePath), env.readDocx(filePath), env.sha);
      if result.ProcessFailed? {
        documents := documents[documentId := document.(processingError := Some(result.error))];
        return;
      }
      document := document.(fullText := Some(result.fullText), layoutInfo := Some(result.layoutInfo),
                            pageCount := result.pageCount);
      var linkedParagraphs := LinkParagraphs(document.paragraphIds, result.paragraphs);
      var linkedVariables := LinkVariables(document.variableIds, result.variables);
      document := document.(paragraphIds := linkedParagraphs, variableIds := linkedVariables, processed := true);
      documents := documents[documentId := document];
    }

    /** The paragraph loop: find or create each paragraph by hash and associate it once. */
    method LinkParagraphs(linked0: seq<nat>, records: seq<ParagraphRecord>) returns (linked: seq<nat>)
      modifies this
      ensures Linked(paragraphs, linked) == LinkAll(Linked(old(paragraphs), linked0), NewParagraph, HashKey, records)
      ensures processingQueue == old(processingQueue)
      ensures documents == old(documents) && variables == old(variables) && nextDocumentId == old(nextDocumentId)
    {
      linked := linked0;
      for i := 0 to |records|
        invariant Linked(paragraphs, linked) == LinkAll(Linked(old(paragraphs), linked0), NewParagraph, HashKey, records[..i])
        invariant processingQueue == old(processingQueue)
        invariant documents == old(documents) && variables == old(variables) && nextDocumentId == old(nextDocumentId)
      {
        var paraData := records[i];
        assert records[..i + 1][..i] == records[..i];
        var existingPara := FindFirst(paragraphs, HashKey, paraData.hash);
        var para: nat;
        if existingPara.Some? {
          para := existingPara.value;
        } else {
          para := |paragraphs|;
          paragraphs := paragraphs + [NewParagraph(paraData)];
        }
        if para !in linked {
          linked := linked + [para];
        }
      }
      assert records[..|records|] == records;
    }

    /** The variable loop: find or create each variable by name and type and associate it once. */
    method LinkVariables(linked0: seq<nat>, found: seq<VariableOccurrence>) returns (linked: seq<nat>)
      modifies this
      ensures Linked(variables, linked) == LinkAll(Linked(old(variables), linked0), NewVariable, VariableKey, found)
      ensures processingQueue == old(processingQueue)
      ensures documents == old(documents) && paragraphs == old(paragraphs) && nextDocumentId == old(nextDocumentId)
    {
      linked := linked0;
      for i := 0 to |found|
        invariant Linked(variables, linked) == LinkAll(Linked(old(variables), linked0), NewVariable, VariableKey, found[..i])
        invariant processingQueue == old(processingQueue)
        invariant documents == old(documents) && paragraphs == old(paragraphs) && nextDocumentId == old(nextDocumentId)
      {
        var varData := found[i];
        assert found[..i + 1][..i] == found[..i];
        var existingVar := FindFirst(variables, VariableKey, (varData.name, varData.patternType));
        var v: nat;
        if existingVar.Some? {
          v := existingVar.value;
        } else {
          v := |variables|;
          variables := variables + [NewVariable(varData)];
        }
        if v !in linked {
          linked := linked + [v];
        }
      }
      assert found[..|found|] == found;
    }
  }

  // ---------------------------------------------------------------------------
  // What one worker iteration does

  /** Appending records keeps the associations of a document well formed. */
  lemma WellLinkedExtends<E>(store: seq<E>, store': seq<E>, ids: seq<nat>)
    requires WellLinked(Linked(store, ids)) && |store| <= |store'|
    ensures WellLinked(Linked(store', ids))
  {
  }

  /** Handling an id keeps the tables valid. */
  lemma StepKeepsValid(t: Tables, id: int, env: Environment)
    requires ValidTables(t)
    ensures ValidTables(Step(t, id, env))
    ensures forall k :: k in Step(t, id, env).documents <==> k in t.documents
  {
    if id in t.documents && env.fileExists(PathOf(t.documents[id], env)) && Outcome(t.documents[id], env).Processed? {
      var d := t.documents[id];
      var r := Outcome(d, env);
      var st := Linked(t.paragraphs, d.paragraphIds);
      var sv := Linked(t.variables, d.variableIds);
      LinkAllKeeps(st, NewParagraph, HashKey, r.paragraphs);
      LinkAllKeeps(sv, NewVariable, VariableKey, r.variables);
      LinkAllExtends(st, NewParagraph, HashKey, r.paragraphs);
      LinkAllExtends(sv, NewVariable, VariableKey, r.variables);
      var t' := Step(t, id, env);
      forall k | k in t'.documents ensures DocumentLinks(t'.documents[k], t') {
        if k != id {
          WellLinkedExtends(t.paragraphs, t'.paragraphs, t.documents[k].paragraphIds);
          WellLinkedExtends(t.variables, t'.variables, t.documents[k].variableIds);
        }
      }
    }
  }

  /**
   * Handling an id touches no other document, and the paragraph and
   * variable records there were stay as they were: new ones are only appended.
   */
  lemma StepOthersUnchanged(t: Tables, id: int, env: Environment)
    requires ValidTables(t)
    ensures var t' := Step(t, id, env);
            && (forall k :: k in t.documents && k != id ==> k in t'.documents && t'.documents[k] == t.documents[k])
            && |t.paragraphs| <= |t'.paragraphs| && t'.paragraphs[..|t.paragraphs|] == t.paragraphs
            && |t.variables| <= |t'.variables| && t'.variables[..|t.variables|] == t.variables
  {
    if id in t.documents && env.fileExists(PathOf(t.documents[id], env)) && Outcome(t.documents[id], env).Processed? {
      var d := t.documents[id];
      var r := Outcome(d, env);
      LinkAllExtends(Linked(t.paragraphs, d.paragraphIds), NewParagraph, HashKey, r.paragraphs);
      LinkAllExtends(Linked(t.variables, d.variableIds), NewVariable, VariableKey, r.variables);
    }
  }

  /** An id with no document record is dropped and nothing changes. */
  lemma StepMissingDocument(t: Tables, id: int, env: Environment)
    requires id !in t.documents
    ensures Step(t, id, env) == t
  {
  }

  /**
   * A document whose file is gone gets the error "File <path> does not
   * exist", so it reports the error status; its processed flag and its
   * associations stay as they were, and no record is created.
   */
  lemma StepMissingFile(t: Tables, id: int, env: Environment)
    requires id in t.documents && !env.fileExists(PathOf(t.documents[id], env))
    ensures var d := t.documents[id];
            var d' := Step(t, id, env).documents[id];
            && d'.processingError == Some("File " + PathOf(d, env) + " does not exist")
            && DocumentStatus(d'.processingError, d'.processed) == Error
            && d'.processed == d.processed && d'.fullText == d.fullText
            && d'.paragraphIds == d.paragraphIds && d'.variableIds == d.variableIds
            && Step(t, id, env).paragraphs == t.paragraphs && Step(t, id, env).variables == t.variables
  {
  }

  /**
   * When `process_document` fails (an unsupported file type or a reader
   * error), its error text is recorded, the processed flag and the
   * associations stay as they were, and no record is created.
   */
  lemma StepFailure(t: Tables, id: int, env: Environment)
    requires id in t.documents && env.fileExists(PathOf(t.documents[id], env))
    requires Outcome(t.documents[id], env).ProcessFailed?
    ensures var d := t.documents[id];
            var d' := Step(t, id, env).documents[id];
            var path := PathOf(d, env);
            && (d.fileType != "pdf" && d.fileType != "docx" ==>
                  d'.processingError == Some("Unsupported file type: " + d.fileType))
            && (d.fileType == "pdf" ==>
                  env.readPdf(path).ExtractionFailed? && d'.processingError == Some(env.readPdf(path).error))
            && (d.fileType == "docx" ==>
                  env.readDocx(path).ExtractionFailed? && d'.processingError == Some(env.readDocx(path).error))
            && d'.processed == d.processed
            && d'.paragraphIds == d.paragraphIds && d'.variableIds == d.variableIds
            && Step(t, id, env).paragraphs == t.paragraphs && Step(t, id, env).variables == t.variables
  {
  }

  /** The reader result `process_document` dispatches to for a document. */
  function ExtractionOf(d: DocumentRow, env: Environment): Extraction {
    if d.fileType == "pdf" then env.readPdf(PathOf(d, env)) else env.readDocx(PathOf(d, env))
  }

  /** The document's file exists, its type is supported and the reader succeeded. */
  predicate Succeeds(t: Tables, id: int, env: Environment) {
    && id in t.documents
    && env.fileExists(PathOf(t.documents[id], env))
    && (t.documents[id].fileType == "pdf" || t.documents[id].fileType == "docx")
    && ExtractionOf(t.documents[id], env).Extracted?
  }

  /**
   * On success the extracted text, layout and page count are stored and the
   * document is marked processed. Its status becomes 'processed' unless an
   * error from an earlier attempt is still recorded, since nothing clears it.
   */
  lemma StepSuccessFields(t: Tables, id: int, env: Environment)
    requires Succeeds(t, id, env)
    ensures var d := t.documents[id];
            var x := ExtractionOf(d, env);
            var d' := Step(t, id, env).documents[id];
            && d'.fullText == Some(x.fullText) && d'.layoutInfo == Some(x.layoutInfo)
            && d'.pageCount == x.pageCount && d'.processed
            && d'.processingError == d.processingError
            && (DocumentStatus(d'.processingError, d'.processed) == Status.Processed <==> !HasError(d.processingError))
  {
  }

  /**
   * On success every paragraph `segment_paragraphs` returned (as written, at
   * most one: the whole collapsed text) of at least five characters is
   * associated with the document through the paragraph record of its hash;
   * every paragraph associated now was associated before or has the hash of
   * one of them; paragraph hashes stay unique, and no paragraph is
   * associated twice.
   */
  lemma StepSuccessParagraphs(t: Tables, id: int, env: Environment)
    requires ValidTables(t) && Succeeds(t, id, env)
    ensures var d := t.documents[id];
            var t' := Step(t, id, env);
            ParagraphsLinked(Linked(t'.paragraphs, t'.documents[id].paragraphIds), |d.paragraphIds|,
                             SegmentsAsWritten(ExtractionOf(d, env).fullText), env.sha)
  {
    var d := t.documents[id];
    var records := Records(SegmentsAsWritten(ExtractionOf(d, env).fullText), env.sha);
    var st := Linked(t.paragraphs, d.paragraphIds);
    var t' := Step(t, id, env);
    assert Outcome(d, env).paragraphs == records;
    assert Linked(t'.paragraphs, t'.documents[id].paragraphIds) == LinkAll(st, NewParagraph, HashKey, records);
    ParagraphsLinkedByHash(st, SegmentsAsWritten(ExtractionOf(d, env).fullText), env.sha);
  }

  /**
   * After the paragraph loop over `segments`: paragraph hashes are unique and
   * no paragraph is associated twice; every paragraph of at least five
   * characters is associated through the record of its hash; and every
   * association after the first `before` has the hash of one of them.
   */
  predicate ParagraphsLinked(st: Linked<ParagraphRow>, before: nat, segments: seq<string>, sha: string -> string) {
    && UniqueKeys(st.store, HashKey) && WellLinked(st)
    && (forall i :: 0 <= i < |segments| && |segments[i]| >= MinParagraphLength ==>
          Associated(st, HashKey, sha(segments[i])))
    && (forall k :: before <= k < |st.linked| ==>
          st.linked[k] < |st.store|
          && exists i :: 0 <= i < |segments| && |segments[i]| >= MinParagraphLength
                         && st.store[st.linked[k]].hash == sha(segments[i]))
  }

  /** The paragraph loop, from any well-formed tables, ends in `ParagraphsLinked`. */
  lemma ParagraphsLinkedByHash(st: Linked<ParagraphRow>, segments: seq<string>, sha: string -> string)
    requires UniqueKeys(st.store, HashKey) && WellLinked(st)
    ensures ParagraphsLinked(LinkAll(st, NewParagraph, HashKey, Records(segments, sha)), |st.linked|, segments, sha)
  {
    var st' := LinkAll(st, NewParagraph, HashKey, Records(segments, sha));
    LinkAllKeeps(st, NewParagraph, HashKey, Records(segments, sha));
    forall i | 0 <= i < |segments| && |segments[i]| >= MinParagraphLength
      ensures Associated(st', HashKey, sha(segments[i]))
    {
      ParagraphCovered(st, segments, sha, i);
    }
    forall k | |st.linked| <= k < |st'.linked|
      ensures st'.linked[k] < |st'.store|
              && exists i :: 0 <= i < |segments| && |segments[i]| >= MinParagraphLength
                             && st'.store[st'.linked[k]].hash == sha(segments[i])
    {
      ParagraphFromSegment(st, segments, sha, k);
    }
  }

  /** The paragraph loop associates the record of every paragraph of at least five characters. */
  lemma ParagraphCovered(st: Linked<ParagraphRow>, segments: seq<string>, sha: string -> string, i: nat)
    requires UniqueKeys(st.store, HashKey) && WellLinked(st)
    requires i < |segments| && |segments[i]| >= MinParagraphLength
    ensures Associated(LinkAll(st, NewParagraph, HashKey, Records(segments, sha)), HashKey, sha(segments[i]))
  {
    var records := Records(segments, sha);
    RecordsSpec(segments, sha);
    RecordsComplete(segments, sha, i);
    var j :| 0 <= j < |records| && records[j].position == i;
    LinkAllCovers(st, NewParagraph, HashKey, records, j);
  }

  /** Every association the paragraph loop adds is to the record of one of the paragraphs it kept. */
  lemma ParagraphFromSegment(st: Linked<ParagraphRow>, segments: seq<string>, sha: string -> string, k: nat)
    requires UniqueKeys(st.store, HashKey) && WellLinked(st)
    requires |st.linked| <= k < |LinkAll(st, NewParagraph, HashKey, Records(segments, sha)).linked|
    ensures var st' := LinkAll(st, NewParagraph, HashKey, Records(segments, sha));
            st'.linked[k] < |st'.store|
            && exists i :: 0 <= i < |segments| && |segments[i]| >= MinParagraphLength
                           && st'.store[st'.linked[k]].hash == sha(segments[i])
  {
    var records := Records(segments, sha);
    var st' := LinkAll(st, NewParagraph, HashKey, records);
    RecordsSpec(segments, sha);
    LinkAllOnly(st, NewParagraph, HashKey, records, k);
    var j :| 0 <= j < |records| && HashKey(st'.store[st'.linked[k]]) == HashKey(NewParagraph(records[j]));
    var i := records[j].position;
    assert |segments[i]| >= MinParagraphLength;
  }

  /**
   * On success every placeholder found in the text is associated with the
   * document through the variable record of its name and pattern type;
   * every variable associated now was associated before or is one of them;
   * the (name, pattern type) pairs stay unique, and no variable is
   * associated twice.
   */
  lemma StepSuccessVariables(t: Tables, id: int, env: Environment)
    requires ValidTables(t) && Succeeds(t, id, env)
    ensures var d := t.documents[id];
            var found := Variables(ExtractionOf(d, env).fullText, env.patterns);
            var t' := Step(t, id, env);
            var sv' := Linked(t'.variables, t'.documents[id].variableIds);
            && UniqueKeys(t'.variables, VariableKey) && WellLinked(sv')
            && (forall j :: 0 <= j < |found| ==> Associated(sv', VariableKey, (found[j].name, found[j].patternType)))
            && (forall k :: |d.variableIds| <= k < |sv'.linked| ==>
                  exists j :: 0 <= j < |found| && VariableKey(t'.variables[sv'.linked[k]]) == (found[j].name, found[j].patternType))
  {
    var d := t.documents[id];
    var found := Variables(ExtractionOf(d, env).fullText, env.patterns);
    var sv := Linked(t.variables, d.variableIds);
    var t' := Step(t, id, env);
    var sv' := Linked(t'.variables, t'.documents[id].variableIds);
    assert Outcome(d, env).variables == found;
    assert sv' == LinkAll(sv, NewVariable, VariableKey, found);
    LinkAllKeeps(sv, NewVariable, VariableKey, found);
    forall j | 0 <= j < |found| ensures Associated(sv', VariableKey, (found[j].name, found[j].patternType)) {
      LinkAllCovers(sv, NewVariable, VariableKey, found, j);
    }
    forall k | |d.variableIds| <= k < |sv'.linked|
      ensures exists j :: 0 <= j < |found| && VariableKey(t'.variables[sv'.linked[k]]) == (found[j].name, found[j].patternType)
    {
      LinkAllOnly(sv, NewVariable, VariableKey, found, k);
    }
  }

  // ---------------------------------------------------------------------------
  // The templates route

  /** The group key `f"{doc.page_count} pages"`. */
  function PageKey(d: DocumentRow): string {
    NatToString(d.pageCount) + " pages"
  }

  /** The `template_groups` loop over the processed documents, in query order. */
  method TemplateGroups(processedDocuments: seq<DocumentRow>) returns (templateGroups: map<string, seq<DocumentRow>>)
    ensures templateGroups == GroupsOf(processedDocuments, PageKey, 1)
  {
    templateGroups := map[];
    for i := 0 to |processedDocuments|
      invariant templateGroups == GroupsOf(processedDocuments[..i], PageKey, 1)
    {
      var doc := processedDocuments[i];
      var key := PageKey(doc);
      GroupsStep(processedDocuments[..i], doc, PageKey);
      TakeSnoc(processedDocuments, i);
      if key in templateGroups {
        templateGroups := templateGroups[key := templateGroups[key] + [doc]];
      } else {
        assert [] + [doc] == [doc];
        templateGroups := templateGroups[key := [doc]];
      }
    }
    assert processedDocuments[..|processedDocuments|] == processedDocuments;
  }

  /** Two documents get the same group key exactly when they have the same page count. */
  lemma PageKeyInjective(a: DocumentRow, b: DocumentRow)
    ensures PageKey(a) == PageKey(b) <==> a.pageCount == b.pageCount
  {
    if PageKey(a) == PageKey(b) {
      var sa, sb := NatToString(a.pageCount), NatToString(b.pageCount);
      assert |sa| == |sb|;
      assert sa == PageKey(a)[..|sa|] && sb == PageKey(b)[..|sb|];
      NatToStringInjective(a.pageCount, b.pageCount);
    }
  }

  /**
   * Every document lands in the group of its page count; a group holds, in
   * query order, exactly the documents with that page count.
   */
  lemma TemplateGroupsByPages(documents: seq<DocumentRow>, d: DocumentRow, e: DocumentRow)
    requires d in documents
    ensures var g := GroupsOf(documents, PageKey, 1);
            && PageKey(d) in g && d in g[PageKey(d)]
            && (e in g[PageKey(d)] <==> e in documents && e.pageCount == d.pageCount)
            && g[PageKey(d)] == Members(documents, PageKey, PageKey(d))
  {
    var i :| 0 <= i < |documents| && documents[i] == d;
    assert PageKey(documents[i]) in Keys(documents, PageKey);
    MembersNonEmpty(documents, PageKey, PageKey(d));
    MemberIff(documents, PageKey, PageKey(d), d);
    MemberIff(documents, PageKey, PageKey(d), e);
    PageKeyInjective(d, e);
  }
}
