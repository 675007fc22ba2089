/**
 The JSONL export of document-level results (`ExportSystemScoresToJSONL`):
 which results are exported, one line per document result, one grouped
 line per (annotator, document) for ContrastiveESA campaigns, and one line
 per pairwise result with its one or two targets. The JSON encoding and
 the rounding of durations to one decimal are not modelled; each line is
 the record the encoder is given.
 */
module JsonlExport {
  import opened Base
  import opened Grouping

  // ---------------------------------------------------------------------------
  // Which results are exported
  // ---------------------------------------------------------------------------

  /** `item__itemType__in=('TGT', 'CHK', 'BAD', 'REF')`: an exact match, so `BAD.x` is not exported. */
  predicate ExportedItemType(t: string)
  {
    t == "TGT" || t == "CHK" || t == "BAD" || t == "REF"
  }

  /**
   The query filter: completed results of an exported item type, from
   active accounts unless inactive ones are asked for.
   */
  predicate Admitted(completed: bool, itemType: string, isActive: bool, includeInactive: bool)
  {
    completed && ExportedItemType(itemType) && (includeInactive || isActive)
  }

  lemma ControlVariantsNotExported(suffix: string)
    requires suffix != []
    ensures !ExportedItemType("BAD" + suffix)
  {
    assert |"BAD" + suffix| > 3;
  }

  /** A falsy time: `None` or `0`. */
  predicate Falsy(t: Option<real>)
  {
    t.None? || t.value == 0.0
  }

  /** `end - start if start and end else None` (before rounding to one decimal). */
  function Duration(start: Option<real>, end: Option<real>): (d: Option<real>)
    ensures d.None? <==> Falsy(start) || Falsy(end)
    ensures d.Some? ==> start.value + d.value == end.value
  {
    if Falsy(start) || Falsy(end) then None else Some(end.value - start.value)
  }

  // ---------------------------------------------------------------------------
  // Document results
  // ---------------------------------------------------------------------------

  datatype ContextColumns = ContextColumns(sourceLeft: string, sourceRight: string, targetLeft: string, targetRight: string)

  /** The columns of one DirectAssessmentDocument result the exports read. */
  datatype DocResult = DocResult(
    annotator: string,
    isActive: bool,
    completed: bool,
    sourceID: string,
    sourceText: string,
    targetID: string,
    targetText: string,
    segmentID: string,
    itemType: string,
    sourceLanguage: string,
    targetLanguage: string,
    score: real,
    mqm: string,
    documentID: string,
    isCompleteDocument: bool,
    start: Option<real>,
    end: Option<real>,
    batchNo: int,
    itemDatabaseID: int,
    campaignName: string,
    context: ContextColumns)

  function DocAdmitted(includeInactive: bool): DocResult -> bool
  {
    (r: DocResult) => Admitted(r.completed, r.itemType, r.isActive, includeInactive)
  }

  /** One line of the regular document export. */
  datatype DocumentLine = DocumentLine(
    annotator: string,
    systemID: string,
    sourceID: string,
    sourceText: string,
    targetID: string,
    targetText: string,
    segmentID: string,
    itemType: string,
    sourceLanguage: string,
    targetLanguage: string,
    score: real,
    mqm: string,
    documentID: string,
    isCompleteDocument: bool,
    start: Option<real>,
    end: Option<real>,
    duration: Option<real>,
    batchNumber: int,
    itemDatabaseID: int,
    campaignName: string,
    taskType: string,
    context: Option<ContextColumns>)

  /** The object written for one document result; the system id is the target id. */
  function DocumentLineOf(includeContext: bool): DocResult -> DocumentLine
  {
    (r: DocResult) =>
      DocumentLine(r.annotator, r.targetID, r.sourceID, r.sourceText, r.targetID, r.targetText,
                   r.segmentID, r.itemType, r.sourceLanguage, r.targetLanguage, r.score, r.mqm,
                   r.documentID, r.isCompleteDocument, r.start, r.end, Duration(r.start, r.end),
                   r.batchNo, r.itemDatabaseID, r.campaignName, "Document",
                   if includeContext then Some(r.context) else None)
  }

  /** The loop over the regular document query: one line per admitted result, in query order. */
  method ExportDocumentLines(results: seq<DocResult>, includeInactive: bool, includeContext: bool)
    returns (lines: seq<DocumentLine>)
    ensures lines == Map(DocumentLineOf(includeContext), Filter(DocAdmitted(includeInactive), results))
  {
    var rows := Filter(DocAdmitted(includeInactive), results);
    lines := [];
    for i := 0 to |rows|
      invariant lines == Map(DocumentLineOf(includeContext), rows[..i])
    {
      assert rows[..i + 1] == rows[..i] + [rows[i]];
      MapAppend(DocumentLineOf(includeContext), rows[..i], [rows[i]]);
      lines := lines + [DocumentLineOf(includeContext)(rows[i])];
    }
    assert rows[..|rows|] == rows;
  }

  /** Every exported line is an admitted result's, and carries context exactly when asked to. */
  lemma DocumentLinesAdmitted(results: seq<DocResult>, includeInactive: bool, includeContext: bool, i: nat)
    requires i < |Filter(DocAdmitted(includeInactive), results)|
    ensures var rows := Filter(DocAdmitted(includeInactive), results);
            var line := Map(DocumentLineOf(includeContext), rows)[i];
            && ExportedItemType(line.itemType)
            && (line.context.Some? <==> includeContext)
            && (line.duration.None? <==> Falsy(line.start) || Falsy(line.end))
            && exists r :: r in results && r.completed && (includeInactive || r.isActive)
                           && line == DocumentLineOf(includeContext)(r)
  {
    var rows := Filter(DocAdmitted(includeInactive), results);
    assert rows[i] in rows;
  }

  // ---------------------------------------------------------------------------
  // ContrastiveESA: one line per (annotator, document)
  // ---------------------------------------------------------------------------

  /** One target variant of a ContrastiveESA line. */
  datatype TargetEntry = TargetEntry(
    targetID: string,
    targetText: string,
    segmentID: string,
    score: real,
    mqm: string,
    start: Option<real>,
    end: Option<real>,
    duration: Option<real>,
    itemDatabaseID: int,
    context: Option<ContextColumns>)

  /** One ContrastiveESA line: the shared fields and the list of target variants. */
  datatype ContrastiveLine = ContrastiveLine(
    annotator: string,
    sourceID: string,
    sourceText: string,
    targets: seq<TargetEntry>,
    itemType: string,
    sourceLanguage: string,
    targetLanguage: string,
    documentID: string,
    isCompleteDocument: bool,
    batchNumber: int,
    campaignName: string,
    taskType: string)

  /** `(result[0], result[11])`: annotator and document id. */
  function GroupKey(r: DocResult): (string, string)
  {
    (r.annotator, r.documentID)
  }

  function TargetOf(includeContext: bool): DocResult -> TargetEntry
  {
    (r: DocResult) =>
      TargetEntry(r.targetID, r.targetText, r.segmentID, r.score, r.mqm, r.start, r.end,
                  Duration(r.start, r.end), r.itemDatabaseID,
                  if includeContext then Some(r.context) else None)
  }

  /** A group's line: shared fields from its first row, the given targets. */
  function LineOfGroup(key: (string, string), first: DocResult, targets: seq<TargetEntry>): ContrastiveLine
  {
    ContrastiveLine(key.0, first.sourceID, first.sourceText, targets,
                    first.itemType, first.sourceLanguage, first.targetLanguage, key.1,
                    first.isCompleteDocument, first.batchNo, first.campaignName, "ContrastiveESA")
  }

  /** The line of one group: shared fields from its first row, one target per row. */
  function GroupLine(rows: seq<DocResult>, key: (string, string), includeContext: bool): ContrastiveLine
    requires key in Keys(rows, GroupKey)
  {
    MembersHead(rows, GroupKey, key);
    var group := Members(rows, GroupKey, key);
    LineOfGroup(key, group[0], Map(TargetOf(includeContext), group))
  }

  /** The lines of the groups `keys`, in that order. */
  function LinesAlong(rows: seq<DocResult>, keys: seq<(string, string)>, includeContext: bool): (r: seq<ContrastiveLine>)
    requires forall k :: k in keys ==> k in Keys(rows, GroupKey)
    ensures |r| == |keys|
  {
    if keys == [] then []
    else LinesAlong(rows, keys[..|keys| - 1], includeContext) + [GroupLine(rows, keys[|keys| - 1], includeContext)]
  }

  /** The step of the grouping loop: one more key adds its group's line. */
  lemma LinesAlongStep(rows: seq<DocResult>, keys: seq<(string, string)>, i: nat, includeContext: bool)
    requires forall k :: k in keys ==> k in Keys(rows, GroupKey)
    requires i < |keys|
    ensures LinesAlong(rows, keys[..i + 1], includeContext)
            == LinesAlong(rows, keys[..i], includeContext) + [GroupLine(rows, keys[i], includeContext)]
  {
    assert keys[..i + 1][..i] == keys[..i];
  }

  /** A group taken from the dictionary gives the line `GroupLine` describes. */
  lemma LineOfMembers(rows: seq<DocResult>, key: (string, string), group: seq<DocResult>, includeContext: bool)
    requires key in Keys(rows, GroupKey)
    requires group == Members(rows, GroupKey, key)
    ensures group != []
    ensures LineOfGroup(key, group[0], Map(TargetOf(includeContext), group)) == GroupLine(rows, key, includeContext)
  {
    MembersHead(rows, GroupKey, key);
  }

  /** The i-th line along `keys` is the line of the i-th key's group. */
  lemma {:induction false} LinesAlongAt(rows: seq<DocResult>, keys: seq<(string, string)>, includeContext: bool, i: nat)
    requires forall k :: k in keys ==> k in Keys(rows, GroupKey)
    requires i < |keys|
    ensures LinesAlong(rows, keys, includeContext)[i] == GroupLine(rows, keys[i], includeContext)
  {
    if i < |keys| - 1 {
      LinesAlongAt(rows, keys[..|keys| - 1], includeContext, i);
    }
  }

  /** The grouped export of the (already ordered) admitted rows. */
  function ContrastiveLines(rows: seq<DocResult>, includeContext: bool): seq<ContrastiveLine>
  {
    LinesAlong(rows, KeyOrder(Keys(rows, GroupKey)), includeContext)
  }

  /** The targets of one group, appended row by row. */
  method GroupTargets(group: seq<DocResult>, includeContext: bool) returns (targets: seq<TargetEntry>)
    ensures targets == Map(TargetOf(includeContext), group)
  {
    targets := [];
    for j := 0 to |group|
      invariant targets == Map(TargetOf(includeContext), group[..j])
    {
      assert group[..j + 1] == group[..j] + [group[j]];
      MapAppend(TargetOf(includeContext), group[..j], [group[j]]);
      targets := targets + [TargetOf(includeContext)(group[j])];
    }
    assert group[..|group|] == group;
  }

  /**
   `_export_contrastive_esa_results`: the rows, in the query's
   (annotator, document, segment) order, are grouped by annotator and
   document in a dictionary of lists, and each group becomes one line whose
   targets are appended row by row.
   */
  method ExportContrastiveEsa(results: seq<DocResult>, includeInactive: bool, includeContext: bool)
    returns (lines: seq<ContrastiveLine>)
    ensures lines == ContrastiveLines(Filter(DocAdmitted(includeInactive), results), includeContext)
  {
    lines := GroupLines(Filter(DocAdmitted(includeInactive), results), includeContext);
  }

  /** The grouping loop over the admitted rows. */
  method GroupLines(rows: seq<DocResult>, includeContext: bool) returns (lines: seq<ContrastiveLine>)
    ensures lines == ContrastiveLines(rows, includeContext)
  {
    var order, groups := GroupBy(rows, GroupKey);
    assert forall k :: k in order ==> k in Keys(rows, GroupKey);
    lines := [];
    for i := 0 to |order|
      invariant lines == LinesAlong(rows, order[..i], includeContext)
    {
      var key := order[i];
      var group := groups[key];
      LineOfMembers(rows, key, group, includeContext);
      var targets := GroupTargets(group, includeContext);
      var line := LineOfGroup(key, group[0], targets);
      LinesAlongStep(rows, order, i, includeContext);
      lines := lines + [line];
    }
    assert order[..|order|] == order;
  }

  /**
   One line per distinct (annotator, document) among the rows, in order of
   first appearance, with no pair repeated.
   */
  lemma ContrastiveLinesPerGroup(rows: seq<DocResult>, includeContext: bool)
    ensures var lines := ContrastiveLines(rows, includeContext);
            var order := KeyOrder(Keys(rows, GroupKey));
            && |lines| == |order|
            && (forall i :: 0 <= i < |lines| ==> (lines[i].annotator, lines[i].documentID) == order[i])
            && (forall r :: r in rows ==> exists i :: 0 <= i < |lines| && (lines[i].annotator, lines[i].documentID) == GroupKey(r))
            && (forall i, j :: 0 <= i < j < |lines| ==> (lines[i].annotator, lines[i].documentID) != (lines[j].annotator, lines[j].documentID))
  {
    var lines := ContrastiveLines(rows, includeContext);
    var order := KeyOrder(Keys(rows, GroupKey));
    forall i | 0 <= i < |lines|
      ensures (lines[i].annotator, lines[i].documentID) == order[i]
    {
      LinesAlongAt(rows, order, includeContext, i);
    }
    forall r | r in rows
      ensures exists i :: 0 <= i < |lines| && (lines[i].annotator, lines[i].documentID) == GroupKey(r)
    {
      var n :| 0 <= n < |rows| && rows[n] == r;
      assert Keys(rows, GroupKey)[n] == GroupKey(r);
      assert GroupKey(r) in order;
      var i :| 0 <= i < |order| && order[i] == GroupKey(r);
      assert (lines[i].annotator, lines[i].documentID) == order[i];
    }
  }

  /**
   A group's line lists exactly that group's rows as targets, in row order,
   and takes its shared fields from the group's first row.
   */
  lemma ContrastiveLineContents(rows: seq<DocResult>, includeContext: bool, i: nat)
    requires i < |ContrastiveLines(rows, includeContext)|
    ensures var line := ContrastiveLines(rows, includeContext)[i];
            var group := Members(rows, GroupKey, (line.annotator, line.documentID));
            && group != []
            && line.targets == Map(TargetOf(includeContext), group)
            && line.sourceID == group[0].sourceID && line.sourceText == group[0].sourceText
            && line.itemType == group[0].itemType && line.batchNumber == group[0].batchNo
            && (forall r :: r in group <==> r in rows && GroupKey(r) == (line.annotator, line.documentID))
  {
    var order := KeyOrder(Keys(rows, GroupKey));
    LinesAlongAt(rows, order, includeContext, i);
    MembersHead(rows, GroupKey, order[i]);
  }

  function TargetCount(lines: seq<ContrastiveLine>): nat
  {
    if lines == [] then 0 else TargetCount(lines[..|lines| - 1]) + |lines[|lines| - 1].targets|
  }

  lemma {:induction false} TargetCountAlong(rows: seq<DocResult>, keys: seq<(string, string)>, includeContext: bool)
    requires forall k :: k in keys ==> k in Keys(rows, GroupKey)
    ensures TargetCount(LinesAlong(rows, keys, includeContext)) == GroupSizes(rows, GroupKey, keys)
  {
    if keys != [] {
      var init := keys[..|keys| - 1];
      TargetCountAlong(rows, init, includeContext);
      var lines := LinesAlong(rows, keys, includeContext);
      assert lines[..|lines| - 1] == LinesAlong(rows, init, includeContext);
    }
  }

  /** Every exported row appears as exactly one target: the targets add up to the rows. */
  lemma ContrastiveTargetsCoverRows(rows: seq<DocResult>, includeContext: bool)
    ensures TargetCount(ContrastiveLines(rows, includeContext)) == |rows|
  {
    TargetCountAlong(rows, KeyOrder(Keys(rows, GroupKey)), includeContext);
    GroupsPartitionRows(rows, GroupKey);
  }

  // ---------------------------------------------------------------------------
  // Pairwise document results
  // ---------------------------------------------------------------------------

  /** The columns of one PairwiseAssessmentDocument result the export reads. */
  datatype PairResult = PairResult(
    annotator: string,
    isActive: bool,
    completed: bool,
    segmentID: string,
    segmentText: string,
    target1ID: string,
    target1Text: string,
    target2ID: Option<string>,
    target2Text: string,
    score1: real,
    score2: Option<real>,
    itemID: string,
    itemType: string,
    sourceLanguage: string,
    targetLanguage: string,
    documentID: string,
    isCompleteDocument: bool,
    start: Option<real>,
    end: Option<real>,
    batchNo: int,
    itemDatabaseID: int,
    campaignName: string,
    contextLeft: string,
    contextRight: string,
    target1ContextLeft: string,
    target2ContextLeft: string)

  function PairAdmitted(includeInactive: bool): PairResult -> bool
  {
    (r: PairResult) => Admitted(r.completed, r.itemType, r.isActive, includeInactive)
  }

  /** One entry of a pairwise line's `targets`. */
  datatype PairTarget = PairTarget(targetID: string, targetText: string, score: real, contextLeft: Option<string>)

  datatype PairwiseLine = PairwiseLine(
    annotator: string,
    sourceID: string,
    sourceText: string,
    targets: seq<PairTarget>,
    itemID: string,
    itemType: string,
    sourceLanguage: string,
    targetLanguage: string,
    documentID: string,
    isCompleteDocument: bool,
    start: Option<real>,
    end: Option<real>,
    duration: Option<real>,
    batchNumber: int,
    itemDatabaseID: int,
    campaignName: string,
    taskType: string,
    context: Option<(string, string)>)

  /**
   The line of one pairwise result: the first target always, the second
   only when both its id and its score are present; with context asked for,
   every target present gets its own left context.
   */
  function PairwiseLineFor(includeContext: bool, r: PairResult): (line: PairwiseLine)
    ensures 1 <= |line.targets| <= 2
    ensures |line.targets| == 2 <==> r.target2ID.Some? && r.score2.Some?
    ensures line.targets[0].targetID == r.target1ID && line.targets[0].score == r.score1
    ensures |line.targets| == 2 ==>
              line.targets[1].targetID == r.target2ID.value && line.targets[1].score == r.score2.value
    ensures forall t :: t in line.targets ==> (t.contextLeft.Some? <==> includeContext)
    ensures line.context.Some? <==> includeContext
    ensures line.annotator == r.annotator && line.sourceID == r.segmentID && line.taskType == "PairwiseDocument"
  {
    var first := PairTarget(r.target1ID, r.target1Text, r.score1,
                            if includeContext then Some(r.target1ContextLeft) else None);
    var second := if r.target2ID.Some? && r.score2.Some? then
                    [PairTarget(r.target2ID.value, r.target2Text, r.score2.value,
                                if includeContext then Some(r.target2ContextLeft) else None)]
                  else [];
    PairwiseLine(r.annotator, r.segmentID, r.segmentText, [first] + second, r.itemID, r.itemType,
                 r.sourceLanguage, r.targetLanguage, r.documentID, r.isCompleteDocument,
                 r.start, r.end, Duration(r.start, r.end), r.batchNo, r.itemDatabaseID,
                 r.campaignName, "PairwiseDocument",
                 if includeContext then Some((r.contextLeft, r.contextRight)) else None)
  }

  function PairwiseLineOf(includeContext: bool): PairResult -> PairwiseLine
  {
    (r: PairResult) => PairwiseLineFor(includeContext, r)
  }

  /** The loop over the pairwise query: one line per admitted result, in query order. */
  method ExportPairwiseLines(results: seq<PairResult>, includeInactive: bool, includeContext: bool)
    returns (lines: seq<PairwiseLine>)
    ensures lines == Map(PairwiseLineOf(includeContext), Filter(PairAdmitted(includeInactive), results))
  {
    var rows := Filter(PairAdmitted(includeInactive), results);
    lines := [];
    for i := 0 to |rows|
      invariant lines == Map(PairwiseLineOf(includeContext), rows[..i])
    {
      var r := rows[i];
      assert rows[..i + 1] == rows[..i] + [r];
      MapAppend(PairwiseLineOf(includeContext), rows[..i], [r]);
      var first := PairTarget(r.target1ID, r.target1Text, r.score1,
                              if includeContext then Some(r.target1ContextLeft) else None);
      var targets := [first];
      if r.target2ID.Some? && r.score2.Some? {
        targets := targets + [PairTarget(r.target2ID.value, r.target2Text, r.score2.value, None)];
      }
      var context := None;
      if includeContext {
        context := Some((r.contextLeft, r.contextRight));
        if |targets| > 1 {
          targets := targets[1 := targets[1].(contextLeft := Some(r.target2ContextLeft))];
        }
      }
      var line := PairwiseLine(r.annotator, r.segmentID, r.segmentText, targets, r.itemID, r.itemType,
                               r.sourceLanguage, r.targetLanguage, r.documentID, r.isCompleteDocument,
                               r.start, r.end, Duration(r.start, r.end), r.batchNo, r.itemDatabaseID,
                               r.campaignName, "PairwiseDocument", context);
      assert line == PairwiseLineOf(includeContext)(r);
      lines := lines + [line];
    }
    assert rows[..|rows|] == rows;
  }

  // ---------------------------------------------------------------------------
  // The command
  // ---------------------------------------------------------------------------

  /** What the document part of the export writes. */
  datatype DocumentExport = NoDocumentTasks | Regular(lines: seq<DocumentLine>) | Grouped(groups: seq<ContrastiveLine>)

  datatype JsonlOutput = JsonlOutput(documents: DocumentExport, pairwise: seq<PairwiseLine>)

  /**
   `handle`: the document export runs when the campaign has (completed, if
   so asked) document tasks, through the grouped ContrastiveESA export
   exactly when `contrastiveesa` is one of the campaign's options; the
   pairwise export runs when it has pairwise tasks.
   */
  method Handle(
    campaignOptions: string, hasDocumentTasks: bool, hasPairwiseTasks: bool,
    documents: seq<DocResult>, pairs: seq<PairResult>, includeInactive: bool, includeContext: bool)
    returns (out: JsonlOutput)
    ensures out.documents.NoDocumentTasks? <==> !hasDocumentTasks
    ensures out.documents.Grouped? <==> hasDocumentTasks && HasOption(campaignOptions, "contrastiveesa")
    ensures out.documents.Grouped? ==>
      out.documents.groups == ContrastiveLines(Filter(DocAdmitted(includeInactive), documents), includeContext)
    ensures out.documents.Regular? ==>
      out.documents.lines == Map(DocumentLineOf(includeContext), Filter(DocAdmitted(includeInactive), documents))
    ensures hasPairwiseTasks ==>
      out.pairwise == Map(PairwiseLineOf(includeContext), Filter(PairAdmitted(includeInactive), pairs))
    ensures !hasPairwiseTasks ==> out.pairwise == []
  {
    var docs := NoDocumentTasks;
    if hasDocumentTasks {
      if HasOption(campaignOptions, "contrastiveesa") {
        var groups := ExportContrastiveEsa(documents, includeInactive, includeContext);
        docs := Grouped(groups);
      } else {
        var lines := ExportDocumentLines(documents, includeInactive, includeContext);
        docs := Regular(lines);
      }
    }
    var pairLines := [];
    if hasPairwiseTasks {
      pairLines := ExportPairwiseLines(pairs, includeInactive, includeContext);
    }
    out := JsonlOutput(docs, pairLines);
  }

  /**
   The `contrastiveesa` switch matches a whole option, not a substring:
   for options written as `;`-separated lower-case tokens, it is on exactly
   when one of the tokens is `contrastiveesa`.
   */
  lemma ContrastiveSwitchIsWholeToken(tokens: seq<string>)
    requires |tokens| >= 1
    requires forall i :: 0 <= i < |tokens| ==> ';' !in tokens[i]
    requires Lower(Join(tokens, ';')) == Join(tokens, ';')
    ensures HasOption(Join(tokens, ';'), "contrastiveesa") <==> "contrastiveesa" in tokens
  {
    SplitJoin(tokens, ';');
  }
}
