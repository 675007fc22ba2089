/**
 The reliability column (`stat_reliable_testing`): every score is turned
 into a z-score against the annotator's own mean and deviation, target
 (`TGT`) and control (`BAD`, `BAD.*`) items are matched by key, and a
 one-sided Mann-Whitney U test asks whether control items score lower
 than their targets. The square root and the test itself are library
 calls; they come in as function parameters.
 */
module Reliability {
  import opened Base
  import opened Grouping
  import opened Records
  import Duration

  // ---------------------------------------------------------------------------
  // Normalisation
  // ---------------------------------------------------------------------------

  /**
   `sum(metrics) / (annotations or 1)`. The sum runs over every row, the
   divisor is the number of distinct items.
   */
  function UserMean(rows: seq<DataRow>): real
  {
    var n := AnnotationCount(rows);
    Sum(Map(MetricOf, rows)) / (if n == 0 then 1 else n) as real
  }

  function SquaredDeviation(mean: real, cs: nat): DataRow -> real
    requires cs > 0
  {
    (r: DataRow) => (r.metric - mean) * (r.metric - mean) / cs as real
  }

  /**
   The sample deviation before any correction, `sqrt(sum((x - mean)**2 / cs))`
   with `cs = annotations - 1`; it needs at least one degree of freedom.
   */
  function RawStdev(rows: seq<DataRow>, sqrt: real -> real): real
    requires AnnotationCount(rows) > 1
  {
    var cs := AnnotationCount(rows) - 1;
    sqrt(Sum(Map(SquaredDeviation(UserMean(rows), cs), rows)))
  }

  /**
   The deviation used for z-scores: the raw deviation, replaced by 1 when
   there is no degree of freedom or when it truncates to 0. It is never
   within (-1, 1), so dividing by it is always defined.
   */
  function UserStdev(rows: seq<DataRow>, sqrt: real -> real): (sd: real)
    ensures sd >= 1.0 || sd <= -1.0
    ensures AnnotationCount(rows) <= 1 ==> sd == 1.0
    ensures AnnotationCount(rows) > 1 && Duration.Trunc(RawStdev(rows, sqrt)) == 0 ==> sd == 1.0
    ensures AnnotationCount(rows) > 1 && Duration.Trunc(RawStdev(rows, sqrt)) != 0 ==> sd == RawStdev(rows, sqrt)
  {
    var raw := if AnnotationCount(rows) > 1 then RawStdev(rows, sqrt) else 1.0;
    if Duration.Trunc(raw) == 0 then 1.0 else raw
  }

  /** `(x[2] - mean) / stdev` */
  function ZScore(r: DataRow, mean: real, sd: real): real
    requires sd != 0.0
  {
    (r.metric - mean) / sd
  }

  lemma CancelFactor(n: real, c: real)
    requires n != 0.0
    ensures (n * c) / n == c
  {
  }

  lemma {:induction false} SumConstant(s: seq<real>, c: real)
    requires forall i :: 0 <= i < |s| ==> s[i] == c
    ensures Sum(s) == |s| as real * c
  {
    if s != [] {
      SumConstant(s[..|s| - 1], c);
    }
  }

  /** With every row a different item, the mean divides by the number of rows. */
  lemma MeanOverDistinct(rows: seq<DataRow>)
    requires rows != []
    requires AnnotationCount(rows) == |rows|
    ensures UserMean(rows) == Sum(Map(MetricOf, rows)) / |rows| as real
  {
    var d := AnnotationCount(rows);
    assert (if d == 0 then 1 else d) == |rows|;
  }

  /**
   When every row is a different item and all share one score, the mean is
   that score and every z-score is 0. (With repeated saves of one item the
   mean is taken over more rows than items and this no longer holds.)
   */
  lemma ConstantMetricZeroZ(rows: seq<DataRow>, c: real, sqrt: real -> real)
    requires rows != []
    requires Distinct(Map(ItemKeyOf, rows))
    requires forall r :: r in rows ==> r.metric == c
    ensures UserMean(rows) == c
    ensures forall r :: r in rows ==> ZScore(r, UserMean(rows), UserStdev(rows, sqrt)) == 0.0
  {
    var keys := Map(ItemKeyOf, rows);
    DistinctCardinality(keys);
    assert AnnotationCount(rows) == |rows|;
    var metrics := Map(MetricOf, rows);
    forall i | 0 <= i < |metrics| ensures metrics[i] == c {
      assert rows[i] in rows;
    }
    SumConstant(metrics, c);
    var n := |rows| as real;
    assert Sum(metrics) == n * c;
    MeanOverDistinct(rows);
    CancelFactor(n, c);
    var mean := UserMean(rows);
    var sd := UserStdev(rows, sqrt);
    forall r | r in rows ensures ZScore(r, mean, sd) == 0.0 {
      assert r.metric - mean == 0.0;
    }
  }

  /**
   If the square root of 0 is 0, constant scores give the clamped deviation 1:
   the sum of squared deviations is 0, which truncates to 0.
   */
  lemma ConstantMetricUnitStdev(rows: seq<DataRow>, c: real, sqrt: real -> real)
    requires rows != []
    requires Distinct(Map(ItemKeyOf, rows))
    requires forall r :: r in rows ==> r.metric == c
    requires sqrt(0.0) == 0.0
    ensures UserStdev(rows, sqrt) == 1.0
  {
    ConstantMetricZeroZ(rows, c, sqrt);
    var n := AnnotationCount(rows);
    if n > 1 {
      var sq := Map(SquaredDeviation(UserMean(rows), n - 1), rows);
      forall i | 0 <= i < |sq| ensures sq[i] == 0.0 {
        assert rows[i] in rows;
        assert rows[i].metric - UserMean(rows) == 0.0;
      }
      SumConstant(sq, 0.0);
      assert Sum(sq) == 0.0;
      assert Duration.Trunc(RawStdev(rows, sqrt)) == 0;
    }
  }

  // ---------------------------------------------------------------------------
  // Item classes and match keys
  // ---------------------------------------------------------------------------

  datatype ItemClass = Target | Control | Ignored

  /** `TGT` is a target; `BAD` and every `BAD.`-prefixed type a control; the rest is skipped. */
  function ClassOf(itemType: string): (c: ItemClass)
    ensures c == Target <==> itemType == "TGT"
    ensures c == Control <==> itemType == "BAD" || StartsWith(itemType, "BAD.")
  {
    if itemType == "TGT" then Target
    else if itemType == "BAD" || StartsWith(itemType, "BAD.") then Control
    else Ignored
  }

  /**
   `key.replace("#bad", "")`: scans left to right and removes every
   non-overlapping occurrence of `#bad`.
   */
  function RemoveBad(s: string): (r: string)
    ensures |r| <= |s|
  {
    if |s| < 4 then s
    else if s[..4] == "#bad" then RemoveBad(s[4..])
    else [s[0]] + RemoveBad(s[1..])
  }

  /** A key without `#bad` is left as it is. */
  lemma {:induction false} RemoveBadNoOccurrence(s: string)
    requires !Contains(s, "#bad")
    ensures RemoveBad(s) == s
  {
    if |s| >= 4 {
      assert !OccursAt(s, "#bad", 0);
      NotContainedInTail(s, "#bad");
      RemoveBadNoOccurrence(s[1..]);
      assert [s[0]] + s[1..] == s;
    }
  }

  /**
   A `#bad` marker at the end of a key disappears without touching the rest:
   no occurrence can straddle the boundary, since no proper prefix of `#bad`
   is also a suffix of it.
   */
  lemma {:induction false} RemoveBadSuffix(s: string)
    ensures RemoveBad(s + "#bad") == RemoveBad(s)
  {
    var t := s + "#bad";
    if s == [] {
      assert t == "#bad";
      assert RemoveBad(t) == RemoveBad(t[4..]);
      assert t[4..] == [];
    } else if |s| >= 4 && s[..4] == "#bad" {
      assert t[..4] == "#bad";
      assert t[4..] == s[4..] + "#bad";
      RemoveBadSuffix(s[4..]);
    } else {
      assert t[..4] != "#bad" by {
        if |s| >= 4 {
          assert t[..4] == s[..4];
        } else if |s| == 1 {
          assert t[1] == '#';
        } else if |s| == 2 {
          assert t[2] == '#';
        } else {
          assert t[3] == '#';
        }
      }
      assert t[1..] == s[1..] + "#bad";
      RemoveBadSuffix(s[1..]);
      if |s| < 4 {
        if |s[1..]| < 4 {
          assert [s[0]] + s[1..] == s;
        }
      }
    }
  }

  /**
   The matching key of a row: `targetID` for data assessment results,
   `itemID-targetID` otherwise; with the `esa` option every `#bad` is
   stripped from it.
   */
  function MatchKey(kind: ResultKind, esa: bool, r: DataRow): string
  {
    var key := if kind == DataAssessment then r.targetID else r.itemID + "-" + r.targetID;
    if esa && Contains(key, "#bad") then RemoveBad(key) else key
  }

  /**
   Under the `esa` option a control row whose target id only adds `#bad` to
   its target's id gets the target's key, so the two are matched.
   */
  lemma BadVariantMatchesTarget(kind: ResultKind, tgt: DataRow, bad: DataRow)
    requires bad.itemID == tgt.itemID && bad.targetID == tgt.targetID + "#bad"
    ensures MatchKey(kind, true, bad) == RemoveBad(MatchKey(kind, false, tgt))
    ensures MatchKey(kind, true, bad) == MatchKey(kind, true, tgt)
  {
    var key := if kind == DataAssessment then tgt.targetID else tgt.itemID + "-" + tgt.targetID;
    var badKey := if kind == DataAssessment then bad.targetID else bad.itemID + "-" + bad.targetID;
    assert badKey == key + "#bad";
    assert OccursAt(badKey, "#bad", |key|);
    RemoveBadSuffix(key);
    if !Contains(key, "#bad") {
      RemoveBadNoOccurrence(key);
    }
  }

  // ---------------------------------------------------------------------------
  // Partition into target and control groups
  // ---------------------------------------------------------------------------

  /** The normalisation parameters and the key policy of one call. */
  datatype Scoring = Scoring(kind: ResultKind, esa: bool, mean: real, sd: real)

  predicate ValidScoring(sc: Scoring)
  {
    sc.sd != 0.0
  }

  function IsTarget(r: DataRow): bool { ClassOf(r.itemType) == Target }
  function IsControl(r: DataRow): bool { ClassOf(r.itemType) == Control }

  function KeyFn(sc: Scoring): DataRow -> string
  {
    r => MatchKey(sc.kind, sc.esa, r)
  }

  function ZFn(sc: Scoring): DataRow -> real
    requires ValidScoring(sc)
  {
    r => ZScore(r, sc.mean, sc.sd)
  }

  /**
   The map a class of rows fills: for each key, the z-scores of that key's
   rows of the class, in row order (the `_tgt` or `_bad` dictionary).
   */
  ghost predicate IsScoreMap(m: map<string, seq<real>>, rows: seq<DataRow>, sc: Scoring, inClass: DataRow -> bool)
    requires ValidScoring(sc)
  {
    IsGroupMap(m, Filter(inClass, rows), KeyFn(sc), ZFn(sc))
  }

  /** Every list in a score map has at least one z-score. */
  lemma ScoreListsNonEmpty(m: map<string, seq<real>>, rows: seq<DataRow>, sc: Scoring, inClass: DataRow -> bool, k: string)
    requires ValidScoring(sc) && IsScoreMap(m, rows, sc, inClass) && k in m
    ensures m[k] != []
  {
    MembersHead(Filter(inClass, rows), KeyFn(sc), k);
  }

  /** One row appended to the rows already seen updates the map of its class only. */
  lemma ScoreMapStep(m: map<string, seq<real>>, rows: seq<DataRow>, x: DataRow, sc: Scoring, inClass: DataRow -> bool)
    requires ValidScoring(sc) && IsScoreMap(m, rows, sc, inClass)
    ensures inClass(x) ==>
      var k := MatchKey(sc.kind, sc.esa, x);
      IsScoreMap(m[k := (if k in m then m[k] else []) + [ZScore(x, sc.mean, sc.sd)]], rows + [x], sc, inClass)
    ensures !inClass(x) ==> IsScoreMap(m, rows + [x], sc, inClass)
  {
    assert (rows + [x])[..|rows|] == rows;
    if inClass(x) {
      assert Filter(inClass, rows + [x]) == Filter(inClass, rows) + [x];
      GroupMapSnoc(m, Filter(inClass, rows), x, KeyFn(sc), ZFn(sc));
    } else {
      assert Filter(inClass, rows + [x]) == Filter(inClass, rows);
    }
  }

  /**
   The loop over the rows that appends each target and control z-score to
   the list of its key, skipping every other item type.
   */
  method Partition(rows: seq<DataRow>, sc: Scoring) returns (tgt: map<string, seq<real>>, bad: map<string, seq<real>>)
    requires ValidScoring(sc)
    ensures IsScoreMap(tgt, rows, sc, IsTarget)
    ensures IsScoreMap(bad, rows, sc, IsControl)
  {
    tgt := map[];
    bad := map[];
    for i := 0 to |rows|
      invariant IsScoreMap(tgt, rows[..i], sc, IsTarget)
      invariant IsScoreMap(bad, rows[..i], sc, IsControl)
    {
      var x := rows[i];
      assert rows[..i + 1] == rows[..i] + [x];
      ScoreMapStep(tgt, rows[..i], x, sc, IsTarget);
      ScoreMapStep(bad, rows[..i], x, sc, IsControl);
      var cls := ClassOf(x.itemType);
      if cls == Ignored {
        continue;
      }
      var z := ZScore(x, sc.mean, sc.sd);
      var key := MatchKey(sc.kind, sc.esa, x);
      if cls == Target {
        tgt := tgt[key := (if key in tgt then tgt[key] else []) + [z]];
      } else {
        bad := bad[key := (if key in bad then bad[key] else []) + [z]];
      }
    }
    assert rows[..|rows|] == rows;
  }

  // ---------------------------------------------------------------------------
  // Matched means and the test
  // ---------------------------------------------------------------------------

  /** `sum(l) / float(len(l))` */
  function Mean(s: seq<real>): real
    requires s != []
  {
    Sum(s) / |s| as real
  }

  /**
   The control mean and the target mean of one key. Only keys present in
   both maps, with non-empty lists, are ever asked for; the fallback pair
   keeps the function total.
   */
  function MeanPair(tgt: map<string, seq<real>>, bad: map<string, seq<real>>, k: string): (real, real)
  {
    if k in tgt && k in bad && tgt[k] != [] && bad[k] != [] then (Mean(bad[k]), Mean(tgt[k])) else (0.0, 0.0)
  }

  function First(p: (real, real)): real { p.0 }
  function Second(p: (real, real)): real { p.1 }

  predicate NonEmptyLists(m: map<string, seq<real>>)
  {
    forall k :: k in m ==> m[k] != []
  }

  /** The pairs of means along a key order. */
  function MeanPairs(tgt: map<string, seq<real>>, bad: map<string, seq<real>>, keys: seq<string>): seq<(real, real)>
  {
    Map(k => MeanPair(tgt, bad, k), keys)
  }

  /**
   The loop over the keys present in both maps (in whatever order the set
   yields them) that builds the index-aligned lists X (control means) and
   Y (target means).
   */
  method MatchedMeans(tgt: map<string, seq<real>>, bad: map<string, seq<real>>)
    returns (keys: seq<string>, xs: seq<real>, ys: seq<real>)
    requires NonEmptyLists(tgt) && NonEmptyLists(bad)
    ensures Distinct(keys)
    ensures forall k :: k in keys <==> k in tgt && k in bad
    ensures |xs| == |ys| == |keys|
    ensures forall i :: 0 <= i < |keys| ==> xs[i] == Mean(bad[keys[i]]) && ys[i] == Mean(tgt[keys[i]])
  {
    var remaining := tgt.Keys * bad.Keys;
    keys, xs, ys := [], [], [];
    while remaining != {}
      invariant remaining <= tgt.Keys * bad.Keys
      invariant Distinct(keys)
      invariant forall k :: k in keys ==> k !in remaining
      invariant forall k :: k in keys || k in remaining <==> k in tgt && k in bad
      invariant |xs| == |ys| == |keys|
      invariant forall i :: 0 <= i < |keys| ==> xs[i] == Mean(bad[keys[i]]) && ys[i] == Mean(tgt[keys[i]])
      decreases remaining
    {
      var k :| k in remaining;
      xs := xs + [Sum(bad[k]) / |bad[k]| as real];
      ys := ys + [Sum(tgt[k]) / |tgt[k]| as real];
      keys := keys + [k];
      remaining := remaining - {k};
    }
  }

  /** What the test reports: a p-value, or a `ValueError`. */
  datatype TestOutcome = PValue(p: real) | DomainError

  /** The reliability cell: a p-value, or `'n/a'`. */
  datatype Reliability = NotAvailable | Score(p: real)

  /**
   The verdict: `'n/a'` when no key matched, when the test raised, or when
   the p-value is 0; the p-value otherwise.
   */
  function Verdict(test: (seq<real>, seq<real>) -> TestOutcome, xs: seq<real>, ys: seq<real>): (r: Reliability)
    ensures xs == [] || ys == [] ==> r == NotAvailable
    ensures r.Score? <==> xs != [] && ys != [] && test(xs, ys).PValue? && test(xs, ys).p != 0.0
    ensures r.Score? ==> r.p == test(xs, ys).p
  {
    if xs != [] && ys != [] then
      match test(xs, ys)
      case DomainError => NotAvailable
      case PValue(p) => if p != 0.0 then Score(p) else NotAvailable
    else NotAvailable
  }

  /** The normalisation and key policy `stat_reliable_testing` derives from its arguments. */
  function ScoringOf(rows: seq<DataRow>, options: string, kind: ResultKind, sqrt: real -> real): (sc: Scoring)
    ensures ValidScoring(sc)
  {
    Scoring(kind, HasOption(options, "esa"), UserMean(rows), UserStdev(rows, sqrt))
  }

  /**
   `r` is a result `stat_reliable_testing` can give on these rows: for the
   target and control maps the rows determine, and for some enumeration of
   the keys present in both, `r` is the verdict on the means taken in that
   order.
   */
  ghost predicate IsReliabilityOf(r: Reliability, rows: seq<DataRow>, options: string, kind: ResultKind,
                                  sqrt: real -> real, test: (seq<real>, seq<real>) -> TestOutcome)
  {
    exists keys: seq<string>, tgt: map<string, seq<real>>, bad: map<string, seq<real>> ::
      ReliabilityWitness(r, rows, ScoringOf(rows, options, kind, sqrt), test, keys, tgt, bad)
  }

  /** The maps and the key enumeration behind one possible result `r`. */
  ghost predicate ReliabilityWitness(r: Reliability, rows: seq<DataRow>, sc: Scoring,
                                     test: (seq<real>, seq<real>) -> TestOutcome,
                                     keys: seq<string>, tgt: map<string, seq<real>>, bad: map<string, seq<real>>)
    requires ValidScoring(sc)
  {
    && IsScoreMap(tgt, rows, sc, IsTarget)
    && IsScoreMap(bad, rows, sc, IsControl)
    && Distinct(keys)
    && (forall k :: k in keys <==> k in tgt && k in bad)
    && r == Verdict(test, Map(First, MeanPairs(tgt, bad, keys)), Map(Second, MeanPairs(tgt, bad, keys)))
  }

  /** `stat_reliable_testing(rows, campaign_opts, result_type)` */
  method StatReliableTesting(
    rows: seq<DataRow>, options: string, kind: ResultKind,
    sqrt: real -> real, test: (seq<real>, seq<real>) -> TestOutcome)
    returns (r: Reliability)
    ensures IsReliabilityOf(r, rows, options, kind, sqrt, test)
  {
    var mean := UserMean(rows);
    var sd := UserStdev(rows, sqrt);
    var sc := Scoring(kind, HasOption(options, "esa"), mean, sd);
    var tgt, bad := Partition(rows, sc);
    forall k | k in tgt ensures tgt[k] != [] {
      ScoreListsNonEmpty(tgt, rows, sc, IsTarget, k);
    }
    forall k | k in bad ensures bad[k] != [] {
      ScoreListsNonEmpty(bad, rows, sc, IsControl, k);
    }
    var keys, xs, ys := MatchedMeans(tgt, bad);
    var pairs := MeanPairs(tgt, bad, keys);
    assert xs == Map(First, pairs);
    assert ys == Map(Second, pairs);
    if xs != [] && ys != [] {
      var outcome := test(xs, ys);
      if outcome.PValue? && outcome.p != 0.0 {
        r := Score(outcome.p);
      } else {
        r := NotAvailable;
      }
    } else {
      r := NotAvailable;
    }
    assert r == Verdict(test, Map(First, pairs), Map(Second, pairs));
    assert sc == ScoringOf(rows, options, kind, sqrt);
    assert ReliabilityWitness(r, rows, sc, test, keys, tgt, bad);
  }

  /** The rows determine each score map completely. */
  lemma ScoreMapUnique(m: map<string, seq<real>>, m': map<string, seq<real>>, rows: seq<DataRow>, sc: Scoring, inClass: DataRow -> bool)
    requires ValidScoring(sc)
    requires IsScoreMap(m, rows, sc, inClass) && IsScoreMap(m', rows, sc, inClass)
    ensures m == m'
  {
    assert m.Keys == m'.Keys;
  }

  /**
   With a test that ignores the order of the pairs, `stat_reliable_testing`
   has a single possible result on given rows, whatever order the set of
   matched keys is enumerated in.
   */
  lemma ReliabilityDeterministic(r: Reliability, r': Reliability, rows: seq<DataRow>, options: string, kind: ResultKind,
                                 sqrt: real -> real, test: (seq<real>, seq<real>) -> TestOutcome)
    requires PairOrderBlind(test)
    requires IsReliabilityOf(r, rows, options, kind, sqrt, test)
    requires IsReliabilityOf(r', rows, options, kind, sqrt, test)
    ensures r == r'
  {
    var sc := ScoringOf(rows, options, kind, sqrt);
    var keys, tgt, bad :| ReliabilityWitness(r, rows, sc, test, keys, tgt, bad);
    var keys', tgt', bad' :| ReliabilityWitness(r', rows, sc, test, keys', tgt', bad');
    ScoreMapUnique(tgt, tgt', rows, sc, IsTarget);
    ScoreMapUnique(bad, bad', rows, sc, IsControl);
    VerdictIndependentOfKeyOrder(test, tgt, bad, keys, keys');
  }

  /** An annotator without a single target row, or without a single control row, gets `'n/a'`. */
  lemma NoTargetOrNoControlNotAvailable(r: Reliability, rows: seq<DataRow>, options: string, kind: ResultKind,
                                        sqrt: real -> real, test: (seq<real>, seq<real>) -> TestOutcome)
    requires IsReliabilityOf(r, rows, options, kind, sqrt, test)
    requires (forall x :: x in rows ==> !IsTarget(x)) || (forall x :: x in rows ==> !IsControl(x))
    ensures r == NotAvailable
  {
    var sc := ScoringOf(rows, options, kind, sqrt);
    var keys, tgt, bad :| ReliabilityWitness(r, rows, sc, test, keys, tgt, bad);
    if forall x :: x in rows ==> !IsTarget(x) {
      FilterNone(IsTarget, rows);
      assert Keys(Filter(IsTarget, rows), KeyFn(sc)) == [];
      assert forall k :: k !in tgt;
    } else {
      FilterNone(IsControl, rows);
      assert Keys(Filter(IsControl, rows), KeyFn(sc)) == [];
      assert forall k :: k !in bad;
    }
    NoMatchedKeyNotAvailable(test, tgt, bad, keys);
  }

  /** Without any key holding both a target and a control row the verdict is `'n/a'`. */
  lemma NoMatchedKeyNotAvailable(test: (seq<real>, seq<real>) -> TestOutcome,
                                 tgt: map<string, seq<real>>, bad: map<string, seq<real>>, keys: seq<string>)
    requires Distinct(keys)
    requires forall k :: k in keys <==> k in tgt && k in bad
    requires forall k :: k in tgt ==> k !in bad
    ensures Verdict(test, Map(First, MeanPairs(tgt, bad, keys)), Map(Second, MeanPairs(tgt, bad, keys))) == NotAvailable
  {
    assert Elements(keys) == {};
    DistinctCardinality(keys);
  }

  /**
   A test whose answer depends only on the collection of (X, Y) pairs, not
   on their order, as the rank-sum test's does.
   */
  ghost predicate PairOrderBlind(test: (seq<real>, seq<real>) -> TestOutcome)
  {
    forall ps: seq<(real, real)>, qs: seq<(real, real)> ::
      multiset(ps) == multiset(qs) ==> test(Map(First, ps), Map(Second, ps)) == test(Map(First, qs), Map(Second, qs))
  }

  /**
   The verdict does not depend on the order in which the matched keys are
   visited: any two enumerations of the keys in both maps give the same
   result, provided the test ignores the order of the pairs.
   */
  lemma VerdictIndependentOfKeyOrder(test: (seq<real>, seq<real>) -> TestOutcome,
                                     tgt: map<string, seq<real>>, bad: map<string, seq<real>>,
                                     keys: seq<string>, other: seq<string>)
    requires PairOrderBlind(test)
    requires Distinct(keys) && Distinct(other)
    requires forall k :: k in keys <==> k in tgt && k in bad
    requires forall k :: k in other <==> k in tgt && k in bad
    ensures Verdict(test, Map(First, MeanPairs(tgt, bad, keys)), Map(Second, MeanPairs(tgt, bad, keys)))
         == Verdict(test, Map(First, MeanPairs(tgt, bad, other)), Map(Second, MeanPairs(tgt, bad, other)))
  {
    DistinctSameElements(keys, other);
    MapMultiset(k => MeanPair(tgt, bad, k), keys, other);
    var ps := MeanPairs(tgt, bad, keys);
    var qs := MeanPairs(tgt, bad, other);
    assert multiset(ps) == multiset(qs);
    assert |keys| == |other| by {
      assert |multiset(keys)| == |keys| && |multiset(other)| == |other|;
    }
  }
}
