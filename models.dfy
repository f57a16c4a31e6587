/**
 * The database models of models.py that carry behaviour: the status a
 * document reports, the wrapped form of a variable name, and the
 * `paragraph_similarity` association table with its update-or-insert and its
 * lookup. `Paragraph.generate_hash` (SHA-256 of the UTF-8 text) is kept
 * opaque: every operation that hashes takes it as a function parameter.
 */
module Models {
  import opened Wrappers
  import opened Text
  import opened Placeholders
  import opened Registry

  // ---------------------------------------------------------------------------
  // Document.status

  /** The three statuses a document reports. */
  datatype Status = Error | Processed | Processing

  /** A processing error counts only when it is set and non-empty (Python truthiness). */
  predicate HasError(processingError: Option<string>) {
    processingError.Some? && processingError.value != []
  }

  /** `Document.status`: an error wins over the processed flag. */
  function DocumentStatus(processingError: Option<string>, processed: bool): (s: Status)
    ensures s == Error <==> HasError(processingError)
    ensures s == Processed <==> !HasError(processingError) && processed
    ensures s == Processing <==> !HasError(processingError) && !processed
  {
    if HasError(processingError) then Error
    else if processed then Processed
    else Processing
  }

  // ---------------------------------------------------------------------------
  // Variable.full_name

  /** The kind a `pattern_type` tag names, if any. */
  function KindOfTag(patternType: string): (k: Option<PatternKind>)
    ensures k.Some? ==> Tag(k.value) == patternType
    ensures k.None? ==> forall kind: PatternKind :: Tag(kind) != patternType
  {
    if patternType == AngleTag then Some(Angle)
    else if patternType == DoubleBraceTag then Some(DoubleBrace)
    else if patternType == DollarBraceTag then Some(DollarBrace)
    else None
  }

  /** Each kind's tag names that kind. */
  lemma KindOfTagOf(k: PatternKind)
    ensures KindOfTag(Tag(k)) == Some(k)
  {
    TagsDistinct();
    match k
    case Angle =>
    case DoubleBrace =>
    case DollarBrace =>
  }

  /** `Variable.full_name`: the name between its delimiters, or bare for an unknown type. */
  function FullName(name: string, patternType: string): string {
    match KindOfTag(patternType)
    case Some(k) => Opener(k) + name + Closer(k)
    case None => name
  }

  /**
   * `full_name` wraps the name as `<<name>>`, `{{name}}` or `${name}` for the
   * three tags, and leaves it bare for any other tag.
   */
  lemma FullNameWraps(name: string, patternType: string)
    ensures patternType == AngleTag ==> FullName(name, patternType) == "<<" + name + ">>"
    ensures patternType == DoubleBraceTag ==> FullName(name, patternType) == "{{" + name + "}}"
    ensures patternType == DollarBraceTag ==> FullName(name, patternType) == "${" + name + "}"
    ensures patternType !in {AngleTag, DoubleBraceTag, DollarBraceTag} ==> FullName(name, patternType) == name
  {
  }

  /**
   * Round trip with `find_variables`: a placeholder the scanner found, written
   * back out with `full_name` and scanned again with its own pattern, is found
   * once more, with the same name and pattern type.
   */
  lemma FullNameRoundTrip(text: string, patterns: seq<string>, v: VariableOccurrence)
    requires v in Variables(text, patterns)
    ensures KindOfTag(v.patternType).Some?
    ensures var k := KindOfTag(v.patternType).value;
            var full := FullName(v.name, v.patternType);
            Pattern(k) in patterns
            && Variables(full, [Pattern(k)]) == [VariableOccurrence(v.name, v.patternType, full)]
  {
    VariablesWellFormed(text, patterns, v);
    var k :| Pattern(k) in patterns && WellFormedOccurrence(v, k);
    KindOfTagOf(k);
    FindWrapped(v.name, k);
  }

  // ---------------------------------------------------------------------------
  // The paragraph_similarity table

  /** A row of `paragraph_similarity`: the ordered pair of paragraph ids and the score. */
  datatype SimilarityRow = SimilarityRow(paragraphId: int, similarId: int, score: real)

  /** The key of a row: its ordered pair of paragraph ids. */
  function PairOf(row: SimilarityRow): (int, int) {
    (row.paragraphId, row.similarId)
  }

  /** `query(paragraph_similarity).filter_by(paragraph_id=p, similar_paragraph_id=q).first()`. */
  function FindRow(rows: seq<SimilarityRow>, p: int, q: int): Option<nat> {
    FindFirst(rows, PairOf, (p, q))
  }

  /** The score stored for `(p, q)`, 0 when there is no row: what `get_similarity_score` answers. */
  function ScoreOf(rows: seq<SimilarityRow>, p: int, q: int): real {
    match FindRow(rows, p, q)
    case Some(t) => rows[t].score
    case None => 0.0
  }

  /** The composite primary key: no ordered pair has two rows. */
  predicate UniquePairs(rows: seq<SimilarityRow>) {
    UniqueKeys(rows, PairOf)
  }

  /** The association table, updated in place. */
  class SimilarityTable {
    var rows: seq<SimilarityRow>

    predicate Valid()
      reads this
    {
      UniquePairs(rows)
    }

    constructor ()
      ensures Valid() && rows == []
    {
      rows := [];
    }

    /**
     * `add_similar_paragraph` on paragraph `p` for paragraph `q`, as intended:
     * update the score of the row for `(p, q)` if there is one, otherwise
     * insert a row. `AddRowAsWritten` is what the code does.
     */
    method AddSimilarParagraph(p: int, q: int, score: real)
      requires Valid()
      modifies this
      ensures Valid()
      ensures rows == AddRow(old(rows), p, q, score)
    {
      AddThenGet(rows, p, q, score, p, q);
      var existing := FindRow(rows, p, q);
      if existing.Some? {
        rows := rows[existing.value := SimilarityRow(p, q, score)];
      } else {
        rows := rows + [SimilarityRow(p, q, score)];
      }
    }

    /** `get_similarity_score`: the score of the row for `(p, q)`, or 0 without one. */
    method GetSimilarityScore(p: int, q: int) returns (score: real)
      ensures score == ScoreOf(rows, p, q)
    {
      var result := FindRow(rows, p, q);
      if result.Some? {
        return rows[result.value].score;
      }
      return 0.0;
    }
  }

  /** The rows after `add_similar_paragraph(p, q, score)`. */
  function AddRow(rows: seq<SimilarityRow>, p: int, q: int, score: real): seq<SimilarityRow> {
    match FindRow(rows, p, q)
    case Some(t) => rows[t := SimilarityRow(p, q, score)]
    case None => rows + [SimilarityRow(p, q, score)]
  }

  /** How a call of `add_similar_paragraph` ends. */
  datatype AddOutcome =
    | Added(rows: seq<SimilarityRow>)
    | AttributeError

  /**
   * `add_similar_paragraph` as written: the lookup queries the Core table and
   * gets back a read-only result row, so assigning its `similarity_score`
   * raises and the stored rows stay as they were; only the insert branch
   * changes the table.
   */
  function AddRowAsWritten(rows: seq<SimilarityRow>, p: int, q: int, score: real): AddOutcome {
    match FindRow(rows, p, q)
    case Some(_) => AttributeError
    case None => Added(rows + [SimilarityRow(p, q, score)])
  }

  /**
   * Re-scoring a pair that already has a row: as written the call fails and
   * `get_similarity_score` keeps answering the old score, where the intended
   * update answers the new one. For a new pair both agree.
   */
  lemma RescoreAsWritten(rows: seq<SimilarityRow>, p: int, q: int, score: real)
    requires UniquePairs(rows)
    ensures FindRow(rows, p, q).Some? ==>
              AddRowAsWritten(rows, p, q, score) == AttributeError
              && ScoreOf(AddRow(rows, p, q, score), p, q) == score
    ensures FindRow(rows, p, q).None? ==>
              AddRowAsWritten(rows, p, q, score) == Added(AddRow(rows, p, q, score))
  {
    AddThenGet(rows, p, q, score, p, q);
  }

  /** A concrete case: the pair (1, 2) stored at 0.5 and re-scored to 0.9 keeps 0.5 as written. */
  lemma RescoreExample()
    ensures var rows := [SimilarityRow(1, 2, 0.5)];
            AddRowAsWritten(rows, 1, 2, 0.9) == AttributeError
            && ScoreOf(rows, 1, 2) == 0.5 && ScoreOf(AddRow(rows, 1, 2, 0.9), 1, 2) == 0.9
  {
    var rows := [SimilarityRow(1, 2, 0.5)];
    assert FindRow(rows, 1, 2) == Some(0) by {
      assert PairOf(rows[0]) == (1, 2);
    }
    AddThenGet(rows, 1, 2, 0.9, 1, 2);
  }

  /** With unique pairs, any row for `(p, q)` is the one the lookup finds. */
  lemma ScoreOfRow(rows: seq<SimilarityRow>, t: nat)
    requires UniquePairs(rows) && t < |rows|
    ensures ScoreOf(rows, rows[t].paragraphId, rows[t].similarId) == rows[t].score
  {
    var p, q := rows[t].paragraphId, rows[t].similarId;
    var s := FindRow(rows, p, q).value;
    assert !(s < t) && !(t < s);
  }

  /**
   * After `add_similar_paragraph(p, q, score)` the table still has one row per
   * ordered pair, `get_similarity_score` for `(p, q)` answers `score`, and
   * every other ordered pair, `(q, p)` included, scores as before.
   */
  lemma AddThenGet(rows: seq<SimilarityRow>, p: int, q: int, score: real, p': int, q': int)
    requires UniquePairs(rows)
    ensures UniquePairs(AddRow(rows, p, q, score))
    ensures ScoreOf(AddRow(rows, p, q, score), p, q) == score
    ensures (p', q') != (p, q) ==> ScoreOf(AddRow(rows, p, q, score), p', q') == ScoreOf(rows, p', q')
  {
    var after := AddRow(rows, p, q, score);
    var n := |after| - 1;
    assert forall s :: 0 <= s < |rows| ==>
             (after[s].paragraphId, after[s].similarId) == (rows[s].paragraphId, rows[s].similarId);
    if FindRow(rows, p, q).Some? {
      ScoreOfRow(after, FindRow(rows, p, q).value);
    } else {
      ScoreOfRow(after, n);
    }
    if (p', q') != (p, q) {
      match FindRow(rows, p', q')
      case Some(t) =>
        ScoreOfRow(rows, t);
        ScoreOfRow(after, t);
      case None =>
        assert FindRow(after, p', q').None?;
    }
  }
}
