/**
 Time estimates of one annotator's work on the campaign status pages.

 - The coarse span: the whole seconds between the first start and the
   last end, never negative.
 - The "real" busy time of the ESA status page: all start and end times
   in one sorted list, summing the gaps between neighbours that are
   shorter than ten minutes.
 - The per-document time pairs of MQM campaigns: the rows of one
   `documentID ||| targetID` key reduced to their earliest start and
   latest end.
 */
module Timing {
  import opened Base
  import opened Grouping
  import Duration

  /** Gaps of ten minutes or more count as breaks. */
  const IdleThreshold: real := 600.0

  /** `(start_time, end_time)` of one completed result, in epoch seconds. */
  datatype TimePair = TimePair(start: real, end: real)

  function Start(p: TimePair): real { p.start }
  function End(p: TimePair): real { p.end }

  // ---------------------------------------------------------------------------
  // First and last activity, coarse span
  // ---------------------------------------------------------------------------

  /** `min(start_times) if start_times else None` */
  function FirstEpoch(pairs: seq<TimePair>): (r: Option<real>)
    ensures r.None? <==> pairs == []
    ensures r.Some? ==> exists p :: p in pairs && p.start == r.value
    ensures r.Some? ==> forall p :: p in pairs ==> r.value <= p.start
  {
    if pairs == [] then None
    else
      var starts := Map(Start, pairs);
      assert forall p :: p in pairs ==> p.start in starts;
      Some(MinOf(starts))
  }

  /** `max(end_times) if end_times else None` */
  function LastEpoch(pairs: seq<TimePair>): (r: Option<real>)
    ensures r.None? <==> pairs == []
    ensures r.Some? ==> exists p :: p in pairs && p.end == r.value
    ensures r.Some? ==> forall p :: p in pairs ==> p.end <= r.value
  {
    if pairs == [] then None
    else
      var ends := Map(End, pairs);
      assert forall p :: p in pairs ==> p.end in ends;
      Some(MaxOf(ends))
  }

  /**
   `max(int(last_epoch - first_epoch), 0)` when both exist: the whole
   seconds of the span, truncated, and zero when the span is negative.
   */
  function CoarseSeconds(first: Option<real>, last: Option<real>): (r: Option<nat>)
    ensures r.None? <==> first.None? || last.None?
    ensures r.Some? && last.value < first.value ==> r.value == 0
    ensures r.Some? && first.value <= last.value ==>
      r.value as real <= last.value - first.value < r.value as real + 1.0
  {
    if first.Some? && last.Some? then
      var t := Duration.Trunc(last.value - first.value);
      Some(if t < 0 then 0 else t)
    else None
  }

  // ---------------------------------------------------------------------------
  // Busy time
  // ---------------------------------------------------------------------------

  predicate SortedReals(s: seq<real>)
  {
    forall i, j :: 0 <= i < j < |s| ==> s[i] <= s[j]
  }

  /** Inserts `x` into a sorted list, after every element not greater than it. */
  function Insert(t: seq<real>, x: real): (r: seq<real>)
    requires SortedReals(t)
    ensures SortedReals(r)
    ensures multiset(r) == multiset(t) + multiset{x}
  {
    if t == [] || t[|t| - 1] <= x then t + [x]
    else
      var r := Insert(t[..|t| - 1], x);
      InsertBeforeLast(t, x, r);
      r + [t[|t| - 1]]
  }

  /**
   The recursive step of `Insert`: when `x` goes before the last element,
   inserting it into the rest and putting the last element back is sorted
   and holds the right values.
   */
  lemma InsertBeforeLast(t: seq<real>, x: real, r: seq<real>)
    requires SortedReals(t) && t != [] && x < t[|t| - 1]
    requires SortedReals(r) && multiset(r) == multiset(t[..|t| - 1]) + multiset{x}
    ensures SortedReals(r + [t[|t| - 1]])
    ensures multiset(r + [t[|t| - 1]]) == multiset(t) + multiset{x}
  {
    var init := t[..|t| - 1];
    var last := t[|t| - 1];
    assert t == init + [last];
    forall k | 0 <= k < |r| ensures r[k] <= last {
      assert r[k] in multiset(r);
      if r[k] != x {
        assert r[k] in init;
      }
    }
  }

  /** Python's `sorted(times)`: the ascending rearrangement of the list. */
  function SortTimes(s: seq<real>): (r: seq<real>)
    ensures SortedReals(r)
    ensures multiset(r) == multiset(s)
  {
    if s == [] then []
    else
      assert s == s[..|s| - 1] + [s[|s| - 1]];
      Insert(SortTimes(s[..|s| - 1]), s[|s| - 1])
  }

  /** A gap shorter than the idle threshold counts in full, a longer one not at all. */
  function CountedGap(a: real, b: real): real
  {
    if b - a < IdleThreshold then b - a else 0.0
  }

  /** `sum([b - a for a, b in zip(times, times[1:]) if (b - a) < 10*60])` */
  function GapSum(times: seq<real>): real
  {
    if |times| < 2 then 0.0
    else GapSum(times[..|times| - 1]) + CountedGap(times[|times| - 2], times[|times| - 1])
  }

  /** All start times followed by all end times. */
  function AllTimes(pairs: seq<TimePair>): (r: seq<real>)
    ensures |r| == 2 * |pairs|
  {
    Map(Start, pairs) + Map(End, pairs)
  }

  /** The busy-time estimate of `campaign_status_esa`. */
  function BusyTime(pairs: seq<TimePair>): real
  {
    GapSum(SortTimes(AllTimes(pairs)))
  }

  /** Over a sorted list the counted gaps lie between zero and the distance from first to last. */
  lemma {:induction false} GapSumBounds(times: seq<real>)
    requires SortedReals(times)
    ensures 0.0 <= GapSum(times)
    ensures |times| > 0 ==> GapSum(times) <= times[|times| - 1] - times[0]
  {
    if |times| >= 2 {
      var init := times[..|times| - 1];
      assert SortedReals(init);
      GapSumBounds(init);
    }
  }

  lemma SortedLastIsMax(s: seq<real>, z: real)
    requires SortedReals(s) && z in s
    ensures z <= s[|s| - 1]
  {
  }

  lemma SortedFirstIsMin(s: seq<real>, z: real)
    requires SortedReals(s) && z in s
    ensures s[0] <= z
  {
  }

  /** Two sorted rearrangements of the same values end in the same value. */
  lemma SortedSameLast(a: seq<real>, b: seq<real>)
    requires SortedReals(a) && SortedReals(b) && a != []
    requires multiset(a) == multiset(b)
    ensures b != [] && a[|a| - 1] == b[|b| - 1]
  {
    var x := a[|a| - 1];
    assert x in multiset(b);
    var y := b[|b| - 1];
    assert y in multiset(a);
    SortedLastIsMax(a, y);
    SortedLastIsMax(b, x);
  }

  /** Two sorted rearrangements of the same values are the same list. */
  lemma {:induction false} SortedUnique(a: seq<real>, b: seq<real>)
    requires SortedReals(a) && SortedReals(b)
    requires multiset(a) == multiset(b)
    ensures a == b
  {
    if a == [] {
      assert |multiset(b)| == 0;
    } else {
      SortedSameLast(a, b);
      var x := a[|a| - 1];
      var a', b' := a[..|a| - 1], b[..|b| - 1];
      assert a == a' + [x];
      assert b == b' + [x];
      assert multiset(a') == multiset(a) - multiset{x};
      assert multiset(b') == multiset(b) - multiset{x};
      SortedUnique(a', b');
    }
  }

  /**
   The busy time lies between zero and the distance from the earliest to
   the latest timestamp.
   */
  lemma BusyTimeBounds(pairs: seq<TimePair>)
    requires pairs != []
    ensures 0.0 <= BusyTime(pairs) <= MaxOf(AllTimes(pairs)) - MinOf(AllTimes(pairs))
  {
    var all := AllTimes(pairs);
    var sorted := SortTimes(all);
    GapSumBounds(sorted);
    assert |multiset(sorted)| == |sorted| && |multiset(all)| == |all|;
    assert sorted[0] in multiset(sorted) && sorted[|sorted| - 1] in multiset(sorted);
    assert sorted[0] in all && sorted[|sorted| - 1] in all;
    assert MinOf(all) <= sorted[0];
    assert sorted[|sorted| - 1] <= MaxOf(all);
  }

  /**
   When every result ends no earlier than it starts, the busy time never
   exceeds the span from the first start to the last end, which the coarse
   estimate truncates.
   */
  lemma BusyTimeWithinCoarseSpan(pairs: seq<TimePair>)
    requires pairs != []
    requires forall p :: p in pairs ==> p.start <= p.end
    ensures 0.0 <= BusyTime(pairs) <= LastEpoch(pairs).value - FirstEpoch(pairs).value
  {
    BusyTimeBounds(pairs);
    var all := AllTimes(pairs);
    var first := FirstEpoch(pairs).value;
    var last := LastEpoch(pairs).value;
    forall t | t in all ensures first <= t <= last {
      var i :| 0 <= i < |all| && all[i] == t;
      if i < |pairs| {
        assert t == pairs[i].start && pairs[i] in pairs;
      } else {
        assert t == pairs[i - |pairs|].end && pairs[i - |pairs|] in pairs;
      }
    }
  }

  /** The busy time depends only on the collection of intervals, not on their order. */
  lemma BusyTimeOrderIndependent(pairs: seq<TimePair>, other: seq<TimePair>)
    requires multiset(pairs) == multiset(other)
    ensures BusyTime(pairs) == BusyTime(other)
  {
    MapMultiset(Start, pairs, other);
    MapMultiset(End, pairs, other);
    SortedUnique(SortTimes(AllTimes(pairs)), SortTimes(AllTimes(other)));
  }

  /** One interval counts in full when shorter than ten minutes, and not at all otherwise. */
  lemma BusyTimeSingle(s: real, e: real)
    requires s <= e
    ensures BusyTime([TimePair(s, e)]) == if e - s < IdleThreshold then e - s else 0.0
  {
    var all := AllTimes([TimePair(s, e)]);
    assert all == [s, e];
    var sorted := SortTimes(all);
    assert multiset(sorted) == multiset([s, e]);
    assert SortedReals([s, e]);
    SortedUnique(sorted, [s, e]);
    assert [s, e][..1] == [s];
    assert GapSum([s, e]) == GapSum([s]) + CountedGap(s, e);
    assert BusyTime([TimePair(s, e)]) == GapSum([s, e]);
  }

  // ---------------------------------------------------------------------------
  // MQM per-document time pairs
  // ---------------------------------------------------------------------------

  /** The fields of an MQM result row that the time grouping reads. */
  datatype DocTime = DocTime(documentID: string, targetID: string, time: TimePair)

  /** `f'{documentID} ||| {targetID}'` */
  function DocKey(r: DocTime): string
  {
    r.documentID + " ||| " + r.targetID
  }

  function Time(r: DocTime): TimePair { r.time }

  /** `(min(start for start, _ in rows), max(end for _, end in rows))` */
  function Span(rows: seq<TimePair>): (p: TimePair)
    requires rows != []
    ensures forall r :: r in rows ==> p.start <= r.start && r.end <= p.end
    ensures (exists r :: r in rows && r.start == p.start) && (exists r :: r in rows && r.end == p.end)
    ensures (forall r :: r in rows ==> r.start <= r.end) ==> p.start <= p.end
  {
    TimePair(FirstEpoch(rows).value, LastEpoch(rows).value)
  }

  /** The span of the rows carrying key `k`. */
  function KeySpan(rows: seq<DocTime>, k: string): TimePair
    requires k in Keys(rows, DocKey)
  {
    MembersHead(rows, DocKey, k);
    Span(Map(Time, Members(rows, DocKey, k)))
  }

  /** The spans of the keys `order`, in that order. */
  function SpansAlong(rows: seq<DocTime>, order: seq<string>): (r: seq<TimePair>)
    requires forall k :: k in order ==> k in Keys(rows, DocKey)
    ensures |r| == |order|
  {
    if order == [] then []
    else SpansAlong(rows, order[..|order| - 1]) + [KeySpan(rows, order[|order| - 1])]
  }

  /** The i-th span along `order` is the span of the i-th key's rows. */
  lemma {:induction false} SpansAlongAt(rows: seq<DocTime>, order: seq<string>, i: nat)
    requires forall k :: k in order ==> k in Keys(rows, DocKey)
    requires i < |order|
    ensures SpansAlong(rows, order)[i] == KeySpan(rows, order[i])
  {
    if i < |order| - 1 {
      SpansAlongAt(rows, order[..|order| - 1], i);
    }
  }

  /** The step of the loop in `DocTimePairs`: one more key adds its span. */
  lemma SpansAlongStep(rows: seq<DocTime>, order: seq<string>, i: nat)
    requires forall k :: k in order ==> k in Keys(rows, DocKey)
    requires i < |order|
    ensures SpansAlong(rows, order[..i + 1]) == SpansAlong(rows, order[..i]) + [KeySpan(rows, order[i])]
  {
    assert order[..i + 1][..i] == order[..i];
  }

  /** `[(min starts, max ends) for doc_rows in doc_time_pairs.values()]` */
  function DocSpans(rows: seq<DocTime>): (r: seq<TimePair>)
    ensures |r| == |KeyOrder(Keys(rows, DocKey))|
  {
    SpansAlong(rows, KeyOrder(Keys(rows, DocKey)))
  }

  /**
   Groups the MQM rows by document and target key and reduces each group
   to one time pair: one pair per distinct key, in first-appearance order,
   each the span of exactly that key's rows.
   */
  method DocTimePairs(rows: seq<DocTime>) returns (pairs: seq<TimePair>, order: seq<string>)
    ensures order == KeyOrder(Keys(rows, DocKey))
    ensures pairs == DocSpans(rows)
  {
    var groups;
    order, groups := GroupBy(rows, DocKey);
    pairs := [];
    assert forall k :: k in order ==> k in Keys(rows, DocKey);
    for i := 0 to |order|
      invariant pairs == SpansAlong(rows, order[..i])
    {
      var k := order[i];
      MembersHead(rows, DocKey, k);
      var span := Span(Map(Time, groups[k]));
      SpansAlongStep(rows, order, i);
      pairs := pairs + [span];
    }
    assert order[..|order|] == order;
  }

  /**
   Every MQM time pair is the span of one distinct key's rows: the pair at
   position i belongs to the i-th key in first-appearance order.
   */
  lemma DocSpanOfKey(rows: seq<DocTime>, i: nat)
    requires i < |KeyOrder(Keys(rows, DocKey))|
    ensures |DocSpans(rows)| == |KeyOrder(Keys(rows, DocKey))|
    ensures DocSpans(rows)[i] == KeySpan(rows, KeyOrder(Keys(rows, DocKey))[i])
  {
    SpansAlongAt(rows, KeyOrder(Keys(rows, DocKey)), i);
  }

  /** Each MQM time pair is ordered whenever every row it summarises is. */
  lemma DocTimePairOrdered(rows: seq<DocTime>, k: string)
    requires k in Keys(rows, DocKey)
    requires forall r :: r in rows ==> r.time.start <= r.time.end
    ensures Members(rows, DocKey, k) != []
    ensures Span(Map(Time, Members(rows, DocKey, k))).start <= Span(Map(Time, Members(rows, DocKey, k))).end
  {
    MembersHead(rows, DocKey, k);
    var m := Members(rows, DocKey, k);
    forall p | p in Map(Time, m) ensures p.start <= p.end {
      var i :| 0 <= i < |m| && Map(Time, m)[i] == p;
      assert m[i] in m;
    }
  }
}
