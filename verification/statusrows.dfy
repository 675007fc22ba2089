/**
 One row of the campaign status page per team member
 (`_collect_campaign_status_rows`): the member's completed results are
 normalised to data rows by the branch the result type and the campaign
 options select, and every column of the row is derived from them.
 The task agenda lookup (`_estimate_total_items`), the busy-time helper
 (`_compute_user_total_annotation_time`), the square root and the rank-sum
 test are outside this model and come in through `Env` and `Annotator`.
 */
module StatusRows {
  import opened Base
  import opened Records
  import opened Grouping
  import opened Timing
  import opened Duration
  import opened Status
  import opened Reliability

  /** One completed result of a team member, with every column a branch may read. */
  datatype ResultRow = ResultRow(
    start: real,
    end: real,
    score: real,
    score1: real,
    mqmIssues: nat,          // `len(json.loads(mqm))`
    itemID: string,
    targetID: string,
    target1ID: string,
    itemType: string,
    itemKey: int,
    documentID: string,
    isCompleteDocument: bool)

  /** A team member: account state, completed results, and the agenda's item total. */
  datatype Annotator = Annotator(username: string, isActive: bool, results: seq<ResultRow>, totalItems: Option<nat>)

  /** The collaborators outside the model. */
  datatype Env = Env(
    totalTime: seq<TimePair> -> real,
    sqrt: real -> real,
    test: (seq<real>, seq<real>) -> TestOutcome,
    render: real -> string)

  // ---------------------------------------------------------------------------
  // Data rows and time pairs
  // ---------------------------------------------------------------------------

  /** The three query shapes. */
  datatype Branch = Pairwise | Mqm | Plain

  /** Pairwise result types first; otherwise the `mqm` campaign option; otherwise plain scores. */
  function BranchOf(kind: ResultKind, options: string): (b: Branch)
    ensures b == Pairwise <==> IsPairwiseKind(kind)
    ensures b == Mqm <==> !IsPairwiseKind(kind) && HasOption(options, "mqm")
  {
    if IsPairwiseKind(kind) then Pairwise
    else if HasOption(options, "mqm") then Mqm
    else Plain
  }

  function IsIncomplete(x: ResultRow): bool { !x.isCompleteDocument }

  /** Document result types leave out the complete-document items. */
  function DataResults(kind: ResultKind, results: seq<ResultRow>): (r: seq<ResultRow>)
    ensures |r| <= |results|
    ensures forall x :: x in r <==> x in results && (IsDocumentKind(kind) ==> !x.isCompleteDocument)
  {
    if IsDocumentKind(kind) then Filter(IsIncomplete, results) else results
  }

  /**
   The seven-column data row of one result: `score1`/`target1ID` for
   pairwise results, the negated issue count for MQM, `score`/`targetID`
   otherwise.
   */
  function Normalise(b: Branch): ResultRow -> DataRow
  {
    (x: ResultRow) =>
      match b
      case Pairwise => DataRow(x.start, x.end, x.score1, x.itemID, x.target1ID, x.itemType, x.itemKey)
      case Mqm => DataRow(x.start, x.end, -(x.mqmIssues as real), x.itemID, x.targetID, x.itemType, x.itemKey)
      case Plain => DataRow(x.start, x.end, x.score, x.itemID, x.targetID, x.itemType, x.itemKey)
  }

  function DocTimeOf(x: ResultRow): DocTime
  {
    DocTime(x.documentID, x.targetID, TimePair(x.start, x.end))
  }

  /** The data rows of one member under one branch. */
  function DataRowsOf(kind: ResultKind, options: string, results: seq<ResultRow>): seq<DataRow>
  {
    Map(Normalise(BranchOf(kind, options)), DataResults(kind, results))
  }

  /**
   The time pairs handed to the busy-time helper: one per data row, except
   for MQM, where each document and target contributes the span of its rows.
   */
  function TimePairsOf(kind: ResultKind, options: string, results: seq<ResultRow>): seq<TimePair>
  {
    var data := DataResults(kind, results);
    if BranchOf(kind, options) == Mqm then DocSpans(Map(DocTimeOf, data))
    else Map(TimeOf, Map(Normalise(BranchOf(kind, options)), data))
  }

  /** Time pairs exist exactly when data rows do. */
  lemma TimePairsIffData(kind: ResultKind, options: string, results: seq<ResultRow>)
    ensures TimePairsOf(kind, options, results) == [] <==> DataRowsOf(kind, options, results) == []
  {
    var data := DataResults(kind, results);
    if BranchOf(kind, options) == Mqm && data != [] {
      var docs := Map(DocTimeOf, data);
      assert Keys(docs, DocKey)[0] in Keys(docs, DocKey);
    }
  }

  /** `_compute_user_total_annotation_time(time_pairs) if time_pairs else 0` */
  function AnnotationTimeOf(env: Env, pairs: seq<TimePair>): (t: real)
    ensures pairs == [] ==> t == 0.0
  {
    if pairs != [] then env.totalTime(pairs) else 0.0
  }

  // ---------------------------------------------------------------------------
  // The row
  // ---------------------------------------------------------------------------

  /** The row dictionary, less the rendered timestamps. */
  datatype StatusRow = StatusRow(
    username: string,
    isActive: bool,
    annotations: nat,
    firstEpoch: Option<real>,
    lastEpoch: Option<real>,
    stamps: Stamps,
    annotationTime: real,
    annotationTimePlain: string,
    annotationTimeHtml: string,
    coarseSeconds: Option<nat>,
    coarsePlain: Option<string>,
    coarseHtml: string,
    reliability: Reliability,
    progress: Progress,
    status: Emoji,
    totalItems: Option<nat>,
    hasData: bool)

  /** The full and the minute-precision text of the first and the last modification. */
  datatype Stamps = Stamps(firstFull: string, firstTrim: string, lastFull: string, lastTrim: string)

  /** `':'.join(pieces)`, which is empty for no pieces. */
  function JoinPieces(pieces: seq<string>, sep: char): string
  {
    if pieces == [] then "" else Join(pieces, sep)
  }

  /**
   `_format_timestamp_strings`: `Never` and nothing without a time;
   otherwise the rendered date and time up to its first `.` (which drops
   the microseconds), and that text without its last `:`-piece (which drops
   the seconds). `render` stands for `str(datetime(1970, 1, 1) + timedelta)`.
   */
  function TimestampStrings(epoch: Option<real>, render: real -> string): (r: (string, string))
    ensures epoch.None? ==> r == ("Never", "")
    ensures epoch.Some? ==> '.' !in r.0 && StartsWith(render(epoch.value), r.0)
    ensures epoch.Some? ==> var text := render(epoch.value);
              |r.0| == |text| || (|r.0| < |text| && text[|r.0|] == '.')
    ensures epoch.Some? && ':' in r.0 ==> exists last :: r.0 == r.1 + [':'] + last && ':' !in last
    ensures epoch.Some? && ':' !in r.0 ==> r.1 == ""
  {
    if epoch.None? then ("Never", "")
    else
      var text := render(epoch.value);
      var full := Split(text, '.')[0];
      SplitFirstPrefix(text, '.');
      SplitFirstStops(text, '.');
      var pieces := Split(full, ':');
      var trim := JoinPieces(pieces[..|pieces| - 1], ':');
      JoinSplit(full, ':');
      if |pieces| == 1 then
        (full, trim)
      else
        var last := pieces[|pieces| - 1];
        assert pieces == pieces[..|pieces| - 1] + [last];
        JoinSnoc(pieces[..|pieces| - 1], last, ':');
        (full, trim)
  }

  /**
   `annotation_time_plain` and `annotation_time_html` before any MQM suffix:
   `'n/a'` and `''` for a zero busy time, the rendered duration otherwise.
   */
  function BusyCells(busy: real): (c: (string, string))
    ensures c.0 == "n/a" <==> busy == 0.0
    ensures c.1 == "" <==> busy == 0.0
    ensures busy != 0.0 ==> ParseDuration(c.0) == Some((ClockOf(busy), false))
    ensures busy != 0.0 ==> ParseDuration(c.1) == Some((ClockOf(busy), true))
  {
    if busy != 0.0 then
      var plain := FormatDuration(Some(busy), false).value;
      assert plain != "n/a" by { assert ParseDuration("n/a") == None; }
      (plain, FormatDuration(Some(busy), true).value)
    else ("n/a", "")
  }

  /** First start, last end and the coarse span of the data rows. */
  datatype Extent = Extent(first: Option<real>, last: Option<real>, coarse: Option<nat>)

  function ExtentOf(data: seq<DataRow>): (e: Extent)
    ensures e.first.Some? <==> data != []
    ensures e.last.Some? <==> data != []
    ensures e.coarse.Some? <==> data != []
    ensures data != [] ==> forall x :: x in data ==> e.first.value <= x.start && x.end <= e.last.value
    ensures data != [] ==> exists x :: x in data && x.start == e.first.value
    ensures data != [] ==> exists x :: x in data && x.end == e.last.value
    ensures data != [] && e.first.value <= e.last.value ==>
      e.coarse.value as real <= e.last.value - e.first.value < e.coarse.value as real + 1.0
  {
    var times := Map(TimeOf, data);
    assert forall x :: x in data ==> TimeOf(x) in times;
    assert forall p :: p in times ==> exists x :: x in data && p == TimeOf(x);
    var first := FirstEpoch(times);
    var last := LastEpoch(times);
    Extent(first, last, CoarseSeconds(first, last))
  }

  /** `coarse_time_plain` (None without data) and `coarse_time_html` (`''` without data). */
  function CoarseCells(coarse: Option<nat>): (c: (Option<string>, string))
    ensures c.0.Some? <==> coarse.Some?
    ensures c.1 == "" <==> coarse.None?
    ensures coarse.Some? ==> ParseDuration(c.0.value) == Some((ClockOf(coarse.value as real), false))
    ensures coarse.Some? ==> ParseDuration(c.1) == Some((ClockOf(coarse.value as real), true))
  {
    match coarse
    case None => (None, "")
    case Some(t) => (FormatDuration(Some(t as real), false), FormatDuration(Some(t as real), true).value)
  }

  /**
   The columns of one member's row, from the data rows, the busy time and
   the reliability verdict.
   */
  function AssembleRow(a: Annotator, data: seq<DataRow>, isMqm: bool, busy: real, reliability: Reliability,
                       render: real -> string): (r: StatusRow)
    ensures r.username == a.username && r.isActive == a.isActive && r.totalItems == a.totalItems
    ensures r.annotations == AnnotationCount(data)
    ensures r.hasData <==> data != []
    ensures r.hasData <==> r.annotations > 0
    ensures (r.firstEpoch, r.lastEpoch, r.coarseSeconds) == (ExtentOf(data).first, ExtentOf(data).last, ExtentOf(data).coarse)
    ensures (r.coarsePlain, r.coarseHtml) == CoarseCells(r.coarseSeconds)
    ensures (r.stamps.firstFull, r.stamps.firstTrim) == TimestampStrings(r.firstEpoch, render)
    ensures (r.stamps.lastFull, r.stamps.lastTrim) == TimestampStrings(r.lastEpoch, render)
    ensures r.annotationTime == busy
    ensures r.annotationTimePlain == "n/a" <==> busy == 0.0
    ensures r.annotationTimeHtml == BusyCells(busy).1
    ensures !(isMqm && r.hasData) ==> r.annotationTimePlain == BusyCells(busy).0
    ensures busy != 0.0 && isMqm && r.hasData ==>
      r.annotationTimePlain == BusyCells(busy).0 + "--" + r.coarsePlain.value
    ensures r.reliability == reliability
    ensures r.status == DeriveStatus(a.isActive, r.annotations, a.totalItems, r.hasData)
    ensures r.progress == ProgressOf(r.annotations, a.totalItems)
  {
    var annotations := AnnotationCount(data);
    var hasData := data != [];
    var extent := ExtentOf(data);
    var busyCells := BusyCells(busy);
    var coarseCells := CoarseCells(extent.coarse);
    var plain := busyCells.0;
    var plain' :=
      if isMqm && plain != "n/a" && coarseCells.0.Some? && coarseCells.0.value != ""
      then plain + "--" + coarseCells.0.value
      else plain;
    assert coarseCells.0.Some? ==> coarseCells.0.value != "";
    assert plain' == "n/a" <==> busy == 0.0 by {
      if plain' != plain {
        assert |plain'| > 3;
      }
    }
    var first := TimestampStrings(extent.first, render);
    var last := TimestampStrings(extent.last, render);
    var stamps := Stamps(first.0, if hasData then first.1 else "", last.0, if hasData then last.1 else "");
    StatusRow(a.username, a.isActive, annotations, extent.first, extent.last, stamps, busy, plain', busyCells.1,
              extent.coarse, coarseCells.0, coarseCells.1, reliability,
              ProgressOf(annotations, a.totalItems),
              DeriveStatus(a.isActive, annotations, a.totalItems, hasData),
              a.totalItems, hasData)
  }

  /**
   `row` is the row the status page builds for member `a`: every column but
   the reliability follows from the member's results, and the reliability is
   a result `stat_reliable_testing` can give on the member's data rows.
   */
  ghost predicate Describes(row: StatusRow, kind: ResultKind, options: string, a: Annotator, env: Env)
  {
    && IsReliabilityOf(row.reliability, DataRowsOf(kind, options, a.results), options, kind, env.sqrt, env.test)
    && row == RowOf(kind, options, a, env, row.reliability)
  }

  /** `Describes` as a relation between a row and a member, for the collecting loop. */
  ghost function DescribesMember(kind: ResultKind, options: string, env: Env): (StatusRow, Annotator) -> bool
  {
    (r: StatusRow, m: Annotator) => Describes(r, kind, options, m, env)
  }

  lemma DescribesMemberIntro(row: StatusRow, kind: ResultKind, options: string, a: Annotator, env: Env)
    requires Describes(row, kind, options, a, env)
    ensures DescribesMember(kind, options, env)(row, a)
  {
  }

  /** The row of member `a`, given its reliability verdict. */
  function RowOf(kind: ResultKind, options: string, a: Annotator, env: Env, reliability: Reliability): StatusRow
  {
    AssembleRow(a, DataRowsOf(kind, options, a.results), BranchOf(kind, options) == Mqm,
                AnnotationTimeOf(env, TimePairsOf(kind, options, a.results)), reliability, env.render)
  }

  /** The body of the loop over team members: the row of one member. */
  method BuildRow(kind: ResultKind, options: string, a: Annotator, env: Env) returns (row: StatusRow)
    ensures Describes(row, kind, options, a, env)
  {
    var branch := BranchOf(kind, options);
    var results := DataResults(kind, a.results);
    var data := Map(Normalise(branch), results);
    var pairs;
    if branch == Mqm {
      var order;
      pairs, order := DocTimePairs(Map(DocTimeOf, results));
    } else {
      pairs := Map(TimeOf, data);
    }
    var reliability := StatReliableTesting(data, options, kind, env.sqrt, env.test);
    var busy := if pairs != [] then env.totalTime(pairs) else 0.0;
    row := AssembleRow(a, data, branch == Mqm, busy, reliability, env.render);
  }

  /** With a test that ignores pair order, a member has exactly one possible row. */
  lemma RowDeterministic(row: StatusRow, row': StatusRow, kind: ResultKind, options: string, a: Annotator, env: Env)
    requires PairOrderBlind(env.test)
    requires Describes(row, kind, options, a, env) && Describes(row', kind, options, a, env)
    ensures row == row'
  {
    ReliabilityDeterministic(row.reliability, row'.reliability, DataRowsOf(kind, options, a.results),
                             options, kind, env.sqrt, env.test);
  }

  /**
   A member without any data row: no timestamps, no times, `'n/a'` for the
   annotation time and the reliability, and an idle (or blocked, or
   unassigned) status.
   */
  lemma EmptyMemberRow(row: StatusRow, kind: ResultKind, options: string, a: Annotator, env: Env)
    requires Describes(row, kind, options, a, env)
    requires DataResults(kind, a.results) == []
    ensures !row.hasData && row.annotations == 0
    ensures row.firstEpoch.None? && row.lastEpoch.None? && row.coarseSeconds.None?
    ensures row.annotationTime == 0.0 && row.annotationTimePlain == "n/a"
    ensures row.reliability == NotAvailable
    ensures row.status == (if a.isActive then Idle else Blocked)
  {
    var data := DataRowsOf(kind, options, a.results);
    assert data == [];
    TimePairsIffData(kind, options, a.results);
    NoTargetOrNoControlNotAvailable(row.reliability, data, options, kind, env.sqrt, env.test);
  }

  /**
   `_collect_campaign_status_rows`: one row per team member, in team and
   member order (`members` lists them team after team).
   */
  method CollectStatusRows(kind: ResultKind, options: string, members: seq<Annotator>, env: Env)
    returns (rows: seq<StatusRow>)
    ensures Pointwise(DescribesMember(kind, options, env), rows, members)
  {
    rows := [];
    for i := 0 to |members|
      invariant Pointwise(DescribesMember(kind, options, env), rows, members[..i])
    {
      var row := BuildRow(kind, options, members[i], env);
      DescribesMemberIntro(row, kind, options, members[i], env);
      PointwiseStep(DescribesMember(kind, options, env), rows, members, i, row);
      rows := rows + [row];
    }
    assert members[..|members|] == members;
  }

  /** Read row by row: the i-th collected row is the row of the i-th member. */
  lemma CollectedRowDescribes(rows: seq<StatusRow>, kind: ResultKind, options: string, members: seq<Annotator>, env: Env, i: nat)
    requires Pointwise(DescribesMember(kind, options, env), rows, members)
    requires i < |members|
    ensures |rows| == |members|
    ensures Describes(rows[i], kind, options, members[i], env)
  {
    PointwiseAt(DescribesMember(kind, options, env), rows, members, i);
  }

  // ---------------------------------------------------------------------------
  // The ESA status page
  // ---------------------------------------------------------------------------

  /**
   The two times of a member with data on the ESA status page: the coarse
   upper bound (last end minus first start) and the busy time. Whenever
   every result ends after it starts, the busy time is at most the coarse
   bound, so the real-time column never exceeds the coarse one.
   */
  function EsaTimes(pairs: seq<TimePair>): (t: (real, real))
    requires pairs != []
    ensures (forall p :: p in pairs ==> p.start <= p.end) ==> 0.0 <= t.1 <= t.0
  {
    if forall p :: p in pairs ==> p.start <= p.end then
      BusyTimeWithinCoarseSpan(pairs);
      (LastEpoch(pairs).value - FirstEpoch(pairs).value, BusyTime(pairs))
    else
      (LastEpoch(pairs).value - FirstEpoch(pairs).value, BusyTime(pairs))
  }

  /**
   The two rendered time cells of the ESA page; on well-ordered data they
   are what `_format_duration(t, with_space=True)` prints.
   */
  function EsaTimeCells(pairs: seq<TimePair>): (cells: (string, string))
    requires pairs != []
    ensures (forall p :: p in pairs ==> p.start <= p.end) ==>
      cells == (Render(ClockOf(EsaTimes(pairs).0), true), Render(ClockOf(EsaTimes(pairs).1), true))
  {
    var t := EsaTimes(pairs);
    if forall p :: p in pairs ==> p.start <= p.end then
      EsaRenderAgrees(t.0);
      EsaRenderAgrees(t.1);
      (EsaRender(t.0), EsaRender(t.1))
    else
      (EsaRender(t.0), EsaRender(t.1))
  }
}
