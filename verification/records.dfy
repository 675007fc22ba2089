/**
 The result records the status pages read, after the per-type
 `values_list(...)` queries have normalised them to one shape:
 `(start_time, end_time, metric, itemID, targetID, itemType, item id)`.
 */
module Records {
  import opened Base
  import Timing

  /** The result classes the campaign status code tells apart. */
  datatype ResultKind =
    | DataAssessment
    | DirectAssessment
    | DirectAssessmentContext
    | DirectAssessmentDocument
    | PairwiseAssessment
    | PairwiseAssessmentDocument

  /** Document result types drop the complete-document items from their data. */
  predicate IsDocumentKind(kind: ResultKind)
  {
    kind == DirectAssessmentDocument || kind == PairwiseAssessmentDocument
  }

  /** Pairwise result types read `score1` and `target1ID`. */
  predicate IsPairwiseKind(kind: ResultKind)
  {
    kind == PairwiseAssessment || kind == PairwiseAssessmentDocument
  }

  /**
   One normalised data row. `metric` is the score (`score`, `score1`, or the
   negated MQM issue count); `itemKey` is the item's database id, which
   identifies one annotated item however often it was saved.
   */
  datatype DataRow = DataRow(
    start: real,
    end: real,
    metric: real,
    itemID: string,
    targetID: string,
    itemType: string,
    itemKey: int)

  function ItemKeyOf(r: DataRow): int { r.itemKey }
  function MetricOf(r: DataRow): real { r.metric }
  function TimeOf(r: DataRow): Timing.TimePair { Timing.TimePair(r.start, r.end) }

  /** `len({row[6] for row in rows})`: the number of distinct annotated items. */
  function AnnotationCount(rows: seq<DataRow>): (n: nat)
    ensures n <= |rows|
    ensures n == 0 <==> rows == []
  {
    var ids := Map(ItemKeyOf, rows);
    ElementsBound(ids);
    assert rows != [] ==> ids[0] in Elements(ids);
    |Elements(ids)|
  }
}
