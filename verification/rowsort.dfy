/**
 Ordering of the campaign status rows (`_sort_campaign_rows`): the sort
 key named by the request picks one of six key functions (seven for staff,
 who also see the reliability column), and the rows are sorted in place,
 stably, by that key.
 */
module RowSort {
  import opened Base
  import opened Reliability
  import opened StatusRows

  // ---------------------------------------------------------------------------
  // Key values and their order
  // ---------------------------------------------------------------------------

  /** A float key, with `float('inf')` above every finite value. */
  datatype Ext = Finite(v: real) | PosInf

  predicate ExtLess(a: Ext, b: Ext)
  {
    match (a, b)
    case (Finite(x), Finite(y)) => x < y
    case (Finite(_), PosInf) => true
    case (PosInf, _) => false
  }

  /** A key value: a lower-cased username, or a number. */
  datatype Key = Text(s: string) | Num(x: Ext)

  /** Python's string comparison: code point by code point, a proper prefix first. */
  predicate LexLess(a: string, b: string)
  {
    if a == [] then b != []
    else b != [] && (a[0] < b[0] || (a[0] == b[0] && LexLess(a[1..], b[1..])))
  }

  predicate KeyLess(a: Key, b: Key)
  {
    match (a, b)
    case (Text(s), Text(t)) => LexLess(s, t)
    case (Num(x), Num(y)) => ExtLess(x, y)
    case _ => false
  }

  predicate SameKind(a: Key, b: Key)
  {
    a.Text? == b.Text?
  }

  lemma {:induction false} LexIrreflexive(a: string)
    ensures !LexLess(a, a)
  {
    if a != [] {
      LexIrreflexive(a[1..]);
    }
  }

  lemma {:induction false} LexTrichotomy(a: string, b: string)
    ensures a == b || LexLess(a, b) || LexLess(b, a)
    ensures !(LexLess(a, b) && LexLess(b, a))
  {
    if a != [] && b != [] {
      LexTrichotomy(a[1..], b[1..]);
      if a[0] == b[0] && a[1..] == b[1..] {
        assert a == [a[0]] + a[1..] && b == [b[0]] + b[1..];
      }
    }
  }

  lemma {:induction false} LexTransitive(a: string, b: string, c: string)
    requires LexLess(a, b) && LexLess(b, c)
    ensures LexLess(a, c)
  {
    if a != [] && a[0] == b[0] && b[0] == c[0] {
      LexTransitive(a[1..], b[1..], c[1..]);
    }
  }

  /**
   Between two keys of one kind exactly one of "less", "equal" and
   "greater" holds, and "not greater" is transitive: the keys of one sort
   function are totally ordered.
   */
  lemma KeyTotalOrder(a: Key, b: Key, c: Key)
    requires SameKind(a, b) && SameKind(b, c)
    ensures !KeyLess(a, a)
    ensures a == b || KeyLess(a, b) || KeyLess(b, a)
    ensures !(KeyLess(a, b) && KeyLess(b, a))
    ensures !KeyLess(b, a) && !KeyLess(c, b) ==> !KeyLess(c, a)
  {
    if a.Text? {
      LexIrreflexive(a.s);
      LexTrichotomy(a.s, b.s);
      LexTrichotomy(b.s, c.s);
      LexTrichotomy(a.s, c.s);
      if LexLess(a.s, b.s) && LexLess(b.s, c.s) {
        LexTransitive(a.s, b.s, c.s);
      }
    }
  }

  // ---------------------------------------------------------------------------
  // The sort functions
  // ---------------------------------------------------------------------------

  /**
   The p-value in millionths as `f'{p:1.6f}'` writes it: the nearest
   integer to `p * 10^6`, a tie going to the even neighbour.
   */
  function Micros(p: real): (k: int)
    ensures -0.5 <= k as real - p * 1000000.0 <= 0.5
    ensures (k as real - p * 1000000.0 == 0.5 || p * 1000000.0 - k as real == 0.5) ==> k % 2 == 0
  {
    var x := p * 1000000.0;
    var f := x.Floor;
    var frac := x - f as real;
    if frac < 0.5 then f
    else if frac > 0.5 then f + 1
    else if f % 2 == 0 then f
    else f + 1
  }

  /** `float(f'{p:1.6f}')`: the p-value the reliability column holds, read back as a number. */
  function Round6(p: real): real
  {
    Micros(p) as real / 1000000.0
  }

  /**
   `_reliability_sort_value` of the reliability column: a p-value sorts as
   its six-decimal rendering read back, `'n/a'` last.
   */
  function ReliabilitySortValue(r: Reliability): (e: Ext)
    ensures e == PosInf <==> r == NotAvailable
    ensures r.Score? ==> e == Finite(Round6(r.p))
    ensures r.Score? ==> -0.0000005 <= e.v - r.p <= 0.0000005
  {
    match r
    case Score(p) => Finite(Round6(p))
    case NotAvailable => PosInf
  }

  /** Rounding never inverts two p-values: a smaller one never sorts after a larger one. */
  lemma Round6Monotone(p: real, p': real)
    requires p <= p'
    ensures Micros(p) <= Micros(p')
    ensures Round6(p) <= Round6(p')
  {
  }

  /**
   P-values that agree to six decimals tie: `4e-7` and `1e-7` both render
   as `0.000000`, so their rows keep their input order.
   */
  lemma SixDecimalTie()
    ensures ReliabilitySortValue(Score(0.0000004)) == ReliabilitySortValue(Score(0.0000001)) == Finite(0.0)
  {
    assert Micros(0.0000004) == 0;
    assert Micros(0.0000001) == 0;
  }

  /** A missing timestamp sorts after every real one. */
  function EpochKey(e: Option<real>): (k: Ext)
    ensures k == PosInf <==> e.None?
    ensures e.Some? ==> k == Finite(e.value)
  {
    match e
    case Some(t) => Finite(t)
    case None => PosInf
  }

  /** `len(sort_functions)` */
  function SortFunctionCount(includeStaff: bool): nat
  {
    if includeStaff then 7 else 6
  }

  /**
   `sort_functions[index](row)`: username (lower-cased), active flag,
   annotations, first and last modification, annotation time, reliability.
   */
  function SortKeyOf(index: nat, row: StatusRow): (k: Key)
    ensures k.Text? <==> index == 0
  {
    match index
    case 0 => Text(Lower(row.username))
    case 1 => Num(Finite(if row.isActive then 1.0 else 0.0))
    case 2 => Num(Finite(row.annotations as real))
    case 3 => Num(EpochKey(row.firstEpoch))
    case 4 => Num(EpochKey(row.lastEpoch))
    case 5 => Num(Finite(row.annotationTime))
    case _ => Num(ReliabilitySortValue(row.reliability))
  }

  /**
   The index of the sort function: the requested key read as an integer
   when that succeeds and lands within the list, 2 (annotations) otherwise.
   */
  function SortIndex(sortKey: Option<string>, includeStaff: bool): (i: nat)
    ensures i < SortFunctionCount(includeStaff)
    ensures sortKey.None? ==> i == 2
    ensures sortKey.Some? && ParseInt(sortKey.value).Some?
            && 0 <= ParseInt(sortKey.value).value < SortFunctionCount(includeStaff)
            ==> i == ParseInt(sortKey.value).value
    ensures sortKey.Some? && (ParseInt(sortKey.value).None?
            || !(0 <= ParseInt(sortKey.value).value < SortFunctionCount(includeStaff)))
            ==> i == 2
  {
    match sortKey
    case None => 2
    case Some(text) =>
      match ParseInt(text)
      case None => 2
      case Some(n) => if n < 0 || n >= SortFunctionCount(includeStaff) then 2 else n
  }

  /** Asking for a column by its number selects that column; the reliability column only for staff. */
  lemma SortIndexOfNumber(k: nat, includeStaff: bool)
    ensures k < SortFunctionCount(includeStaff) ==> SortIndex(Some(IntText(k)), includeStaff) == k
    ensures k >= SortFunctionCount(includeStaff) ==> SortIndex(Some(IntText(k)), includeStaff) == 2
  {
    IntTextRoundTrip(k);
  }

  // ---------------------------------------------------------------------------
  // The sorted order
  // ---------------------------------------------------------------------------

  predicate RowLess(index: nat, a: StatusRow, b: StatusRow)
  {
    KeyLess(SortKeyOf(index, a), SortKeyOf(index, b))
  }

  /**
   `x` placed into `t` after every row it is not strictly below, scanning
   from the back: the place a stable insertion sort puts it.
   */
  function InsertStable(index: nat, t: seq<StatusRow>, x: StatusRow): (r: seq<StatusRow>)
    ensures |r| == |t| + 1
  {
    if t == [] then [x]
    else if RowLess(index, x, t[|t| - 1]) then InsertStable(index, t[..|t| - 1], x) + [t[|t| - 1]]
    else t + [x]
  }

  /** The rows in the order `list.sort(key=sort_functions[index])` leaves them. */
  function SortedBy(index: nat, s: seq<StatusRow>): (r: seq<StatusRow>)
    ensures |r| == |s|
  {
    if s == [] then [] else InsertStable(index, SortedBy(index, s[..|s| - 1]), s[|s| - 1])
  }

  /** No row is strictly below a row before it. */
  ghost predicate Ordered(index: nat, s: seq<StatusRow>)
  {
    forall i, j :: 0 <= i < j < |s| ==> !RowLess(index, s[j], s[i])
  }

  lemma RowOrder(index: nat, a: StatusRow, b: StatusRow, c: StatusRow)
    ensures !RowLess(index, a, a)
    ensures !(RowLess(index, a, b) && RowLess(index, b, a))
    ensures !RowLess(index, b, a) && !RowLess(index, c, b) ==> !RowLess(index, c, a)
  {
    KeyTotalOrder(SortKeyOf(index, a), SortKeyOf(index, b), SortKeyOf(index, c));
  }

  lemma {:induction false} InsertStableOrdered(index: nat, t: seq<StatusRow>, x: StatusRow)
    requires Ordered(index, t)
    ensures Ordered(index, InsertStable(index, t, x))
    ensures multiset(InsertStable(index, t, x)) == multiset(t) + multiset{x}
  {
    if t != [] {
      var init := t[..|t| - 1];
      var last := t[|t| - 1];
      if RowLess(index, x, last) {
        assert Ordered(index, init);
        InsertStableOrdered(index, init, x);
        InsertBelowOrdered(index, t, x);
      } else {
        assert InsertStable(index, t, x) == t + [x];
        forall i | 0 <= i < |t| ensures !RowLess(index, x, t[i]) {
          RowOrder(index, t[i], last, x);
        }
      }
    }
  }

  /** The step of `InsertStableOrdered` where `x` goes below the last row. */
  lemma InsertBelowOrdered(index: nat, t: seq<StatusRow>, x: StatusRow)
    requires Ordered(index, t) && t != [] && RowLess(index, x, t[|t| - 1])
    requires Ordered(index, InsertStable(index, t[..|t| - 1], x))
    requires multiset(InsertStable(index, t[..|t| - 1], x)) == multiset(t[..|t| - 1]) + multiset{x}
    ensures Ordered(index, InsertStable(index, t, x))
    ensures multiset(InsertStable(index, t, x)) == multiset(t) + multiset{x}
  {
    var init := t[..|t| - 1];
    var last := t[|t| - 1];
    var u := InsertStable(index, init, x);
    assert InsertStable(index, t, x) == u + [last];
    assert t == init + [last];
    forall i | 0 <= i < |u| ensures !RowLess(index, last, u[i]) {
      assert u[i] in multiset(init) + multiset{x};
      if u[i] == x {
        RowOrder(index, x, last, x);
      } else {
        assert u[i] in init;
        var k :| 0 <= k < |init| && init[k] == u[i];
        assert t[k] == u[i];
      }
    }
  }

  /** The result is ordered by the key. */
  lemma {:induction false} SortedByOrdered(index: nat, s: seq<StatusRow>)
    ensures Ordered(index, SortedBy(index, s))
  {
    if s != [] {
      SortedByOrdered(index, s[..|s| - 1]);
      InsertStableOrdered(index, SortedBy(index, s[..|s| - 1]), s[|s| - 1]);
    }
  }

  /** The result holds the same rows, each as often. */
  lemma {:induction false} SortedByPermutes(index: nat, s: seq<StatusRow>)
    ensures multiset(SortedBy(index, s)) == multiset(s)
  {
    if s != [] {
      SortedByPermutes(index, s[..|s| - 1]);
      SortedByOrdered(index, s[..|s| - 1]);
      InsertStableOrdered(index, SortedBy(index, s[..|s| - 1]), s[|s| - 1]);
      assert s == s[..|s| - 1] + [s[|s| - 1]];
    }
  }

  /** `[x]` when `x` has key `v`, nothing otherwise. */
  function Own(index: nat, v: Key, x: StatusRow): seq<StatusRow>
  {
    if SortKeyOf(index, x) == v then [x] else []
  }

  /** The rows whose key under sort function `index` is `v`, in their order. */
  function RowsWithKey(index: nat, v: Key, s: seq<StatusRow>): seq<StatusRow>
  {
    if s == [] then []
    else RowsWithKey(index, v, s[..|s| - 1]) + Own(index, v, s[|s| - 1])
  }

  lemma {:induction false} RowsWithKeyAppend(index: nat, v: Key, a: seq<StatusRow>, b: seq<StatusRow>)
    ensures RowsWithKey(index, v, a + b) == RowsWithKey(index, v, a) + RowsWithKey(index, v, b)
  {
    if b == [] {
      assert a + b == a;
    } else {
      var init := b[..|b| - 1];
      RowsWithKeyAppend(index, v, a, init);
      assert (a + b)[..|a + b| - 1] == a + init;
      assert (a + b)[|a + b| - 1] == b[|b| - 1];
    }
  }

  lemma RowsWithKeySingle(index: nat, v: Key, x: StatusRow)
    ensures RowsWithKey(index, v, [x]) == Own(index, v, x)
  {
    assert [x][..0] == [];
  }

  lemma {:induction false} InsertStableStable(index: nat, t: seq<StatusRow>, x: StatusRow, v: Key)
    ensures RowsWithKey(index, v, InsertStable(index, t, x)) == RowsWithKey(index, v, t) + Own(index, v, x)
  {
    RowsWithKeySingle(index, v, x);
    if t == [] {
      assert InsertStable(index, t, x) == [] + [x];
      RowsWithKeyAppend(index, v, [], [x]);
    } else if RowLess(index, x, t[|t| - 1]) {
      InsertStableStable(index, t[..|t| - 1], x, v);
      InsertBelowStable(index, t, x, v);
    } else {
      assert InsertStable(index, t, x) == t + [x];
      RowsWithKeyAppend(index, v, t, [x]);
    }
  }

  /** The step of `InsertStableStable` where `x` goes below the last row. */
  lemma InsertBelowStable(index: nat, t: seq<StatusRow>, x: StatusRow, v: Key)
    requires t != [] && RowLess(index, x, t[|t| - 1])
    requires RowsWithKey(index, v, InsertStable(index, t[..|t| - 1], x)) == RowsWithKey(index, v, t[..|t| - 1]) + Own(index, v, x)
    ensures RowsWithKey(index, v, InsertStable(index, t, x)) == RowsWithKey(index, v, t) + Own(index, v, x)
  {
    var init := t[..|t| - 1];
    var last := t[|t| - 1];
    var u := InsertStable(index, init, x);
    assert InsertStable(index, t, x) == u + [last];
    RowsWithKeyAppend(index, v, u, [last]);
    RowsWithKeySingle(index, v, last);
    var rest := RowsWithKey(index, v, init);
    var mine, theirs := Own(index, v, x), Own(index, v, last);
    assert RowsWithKey(index, v, t) == rest + theirs;
    OwnExclusive(index, v, x, last);
    SwapAroundEmpty(rest, mine, theirs);
  }

  /** Two rows strictly ordered by their keys never share one key. */
  lemma OwnExclusive(index: nat, v: Key, x: StatusRow, y: StatusRow)
    requires RowLess(index, x, y)
    ensures Own(index, v, x) == [] || Own(index, v, y) == []
  {
    if SortKeyOf(index, x) == v && SortKeyOf(index, y) == v {
      KeyTotalOrder(v, v, v);
    }
  }

  /** Rows with equal keys keep their relative order: the sort is stable. */
  lemma {:induction false} SortedByStable(index: nat, s: seq<StatusRow>, v: Key)
    ensures RowsWithKey(index, v, SortedBy(index, s)) == RowsWithKey(index, v, s)
  {
    if s != [] {
      var init := s[..|s| - 1];
      SortedByStable(index, init, v);
      InsertStableStable(index, SortedBy(index, init), s[|s| - 1], v);
    }
  }

  // ---------------------------------------------------------------------------
  // The in-place sort
  // ---------------------------------------------------------------------------

  /** One step of the backward scan: passing a row `x` is strictly below. */
  lemma InsertStableStep(index: nat, t: seq<StatusRow>, j: nat, x: StatusRow)
    requires 0 < j <= |t| && RowLess(index, x, t[j - 1])
    ensures InsertStable(index, t[..j], x) == InsertStable(index, t[..j - 1], x) + [t[j - 1]]
  {
    assert t[..j][..j - 1] == t[..j - 1];
  }

  /** The scan invariant survives passing one more row. */
  lemma InsertStableShift(index: nat, t: seq<StatusRow>, j: nat, x: StatusRow)
    requires 0 < j <= |t| && RowLess(index, x, t[j - 1])
    requires InsertStable(index, t, x) == InsertStable(index, t[..j], x) + t[j..]
    ensures InsertStable(index, t, x) == InsertStable(index, t[..j - 1], x) + t[j - 1..]
  {
    InsertStableStep(index, t, j, x);
    assert t[j - 1..] == [t[j - 1]] + t[j..];
  }

  /**
   The inner loop of the insertion sort: `a[i]` moves down past every row
   it is strictly below, the rows it passes move up by one.
   */
  method InsertAt(a: array<StatusRow>, i: nat, index: nat)
    requires i < a.Length
    modifies a
    ensures a[..i + 1] == InsertStable(index, old(a[..i]), old(a[i]))
    ensures a[i + 1..] == old(a[i + 1..])
  {
    ghost var t := a[..i];
    var x := a[i];
    var j := i;
    assert t[..j] == t && t[j..] == [];
    assert a[..i + 1] == t[..j] + [a[j]] + t[j..];
    while j > 0 && RowLess(index, x, a[j - 1])
      invariant 0 <= j <= i
      invariant a[..i + 1] == t[..j] + [a[j]] + t[j..]
      invariant a[i + 1..] == old(a[i + 1..])
      invariant InsertStable(index, t, x) == InsertStable(index, t[..j], x) + t[j..]
    {
      InsertStableShift(index, t, j, x);
      ShiftDown(a[..i + 1], t, j);
      a[j] := a[j - 1];
      j := j - 1;
    }
    InsertStableStop(index, t, j, x);
    ShiftPlace(a[..i + 1], t, j, x);
    a[j] := x;
  }

  /** One step of the shifting loop: the slot moves one place down. */
  lemma ShiftDown<T>(s: seq<T>, t: seq<T>, j: nat)
    requires 0 < j <= |t| && |s| == |t| + 1 && s == t[..j] + [s[j]] + t[j..]
    ensures s[j := s[j - 1]] == t[..j - 1] + [s[j - 1]] + t[j - 1..]
  {
    assert s[j - 1] == t[j - 1];
    assert t[j - 1..] == [t[j - 1]] + t[j..];
  }

  /** Filling the slot with the carried element. */
  lemma ShiftPlace<T>(s: seq<T>, t: seq<T>, j: nat, x: T)
    requires j <= |t| && |s| == |t| + 1 && s == t[..j] + [s[j]] + t[j..]
    ensures s[j := x] == t[..j] + [x] + t[j..]
  {
  }

  /** Where the backward scan stops, `x` goes right after the rows before it. */
  lemma InsertStableStop(index: nat, t: seq<StatusRow>, j: nat, x: StatusRow)
    requires j <= |t|
    requires j > 0 ==> !RowLess(index, x, t[j - 1])
    ensures InsertStable(index, t[..j], x) == t[..j] + [x]
  {
    if j > 0 {
      assert t[..j][..j - 1] == t[..j - 1];
    }
  }

  /** Stable insertion sort of the rows by sort function `index`. */
  method SortRows(a: array<StatusRow>, index: nat)
    modifies a
    ensures a[..] == SortedBy(index, old(a[..]))
  {
    ghost var s := a[..];
    for i := 0 to a.Length
      invariant a[..i] == SortedBy(index, s[..i])
      invariant a[i..] == s[i..]
    {
      assert s[..i + 1] == s[..i] + [s[i]];
      assert a[i] == s[i];
      InsertAt(a, i, index);
      assert a[i + 1..] == s[i + 1..];
    }
    assert s[..a.Length] == s;
  }

  /** `_sort_campaign_rows(rows, sort_key, include_staff)` */
  method SortCampaignRows(rows: array<StatusRow>, sortKey: Option<string>, includeStaff: bool)
    modifies rows
    ensures rows[..] == SortedBy(SortIndex(sortKey, includeStaff), old(rows[..]))
  {
    SortRows(rows, SortIndex(sortKey, includeStaff));
  }
}
