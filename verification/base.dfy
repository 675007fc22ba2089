/**
 Shared vocabulary of the model: an Option type for Python's `None`,
 a few sequence helpers over the record lists the analytics walk, the
 ASCII string operations the source applies to option strings and keys
 (`lower()`, `split(';')`, `startswith`, `in`), and the decimal rendering
 behind `f'{n}'` and `f'{n:0>2d}'`.
 */
module Base {

  datatype Option<+T> = None | Some(value: T)

  // ---------------------------------------------------------------------------
  // Sequences
  // ---------------------------------------------------------------------------

  /** `[f(x) for x in s]` */
  function Map<A, B>(f: A -> B, s: seq<A>): (r: seq<B>)
    ensures |r| == |s|
    ensures forall i :: 0 <= i < |s| ==> r[i] == f(s[i])
  {
    seq(|s|, i requires 0 <= i < |s| => f(s[i]))
  }

  /** Mapping commutes with concatenation. */
  lemma MapAppend<A, B>(f: A -> B, u: seq<A>, v: seq<A>)
    ensures Map(f, u + v) == Map(f, u) + Map(f, v)
  {
  }

  /** Mapping two rearrangements of one sequence gives two rearrangements of one result. */
  lemma {:induction false} MapMultiset<A, B>(f: A -> B, a: seq<A>, b: seq<A>)
    requires multiset(a) == multiset(b)
    ensures multiset(Map(f, a)) == multiset(Map(f, b))
  {
    if a != [] {
      var init, x := a[..|a| - 1], a[|a| - 1];
      MapSnoc(f, a);
      assert x in multiset(b) by {
        assert x in multiset(a);
      }
      var i :| 0 <= i < |b| && b[i] == x;
      MapPick(f, b, i);
      MapMultiset(f, init, b[..i] + b[i + 1..]);
    }
  }

  /** Splitting off the last element, before and after mapping. */
  lemma MapSnoc<A, B>(f: A -> B, a: seq<A>)
    requires a != []
    ensures multiset(a[..|a| - 1]) == multiset(a) - multiset{a[|a| - 1]}
    ensures multiset(Map(f, a)) == multiset(Map(f, a[..|a| - 1])) + multiset{f(a[|a| - 1])}
  {
    var init, x := a[..|a| - 1], a[|a| - 1];
    assert a == init + [x];
    MapAppend(f, init, [x]);
    assert Map(f, a) == Map(f, init) + [f(x)];
  }

  /** Taking the element at `i` out of a sequence, before and after mapping. */
  lemma MapPick<A, B>(f: A -> B, b: seq<A>, i: nat)
    requires i < |b|
    ensures multiset(b[..i] + b[i + 1..]) == multiset(b) - multiset{b[i]}
    ensures multiset(Map(f, b)) == multiset(Map(f, b[..i] + b[i + 1..])) + multiset{f(b[i])}
  {
    var left, y, right := b[..i], b[i], b[i + 1..];
    assert b == left + [y] + right;
    assert multiset(b) == multiset(left) + multiset{y} + multiset(right);
    MapAppend(f, left + [y], right);
    MapAppend(f, left, [y]);
    MapAppend(f, left, right);
    assert Map(f, [y]) == [f(y)];
    assert Map(f, b) == Map(f, left) + [f(y)] + Map(f, right);
    assert multiset(Map(f, b)) == multiset(Map(f, left)) + multiset{f(y)} + multiset(Map(f, right));
  }

  /** `[x for x in s if p(x)]`, written from the back so that it follows a loop that appends. */
  function Filter<T(!new)>(p: T -> bool, s: seq<T>): (r: seq<T>)
    ensures |r| <= |s|
    ensures forall x :: x in r <==> x in s && p(x)
  {
    if s == [] then []
    else Filter(p, s[..|s| - 1]) + (if p(s[|s| - 1]) then [s[|s| - 1]] else [])
  }

  /** Filtering a concatenation filters each part, keeping their order. */
  lemma {:induction false} FilterAppend<T(!new)>(p: T -> bool, s: seq<T>, t: seq<T>)
    ensures Filter(p, s + t) == Filter(p, s) + Filter(p, t)
  {
    if t != [] {
      var u := t[..|t| - 1];
      FilterAppend(p, s, u);
      assert (s + t)[..|s + t| - 1] == s + u;
      assert (s + t)[|s + t| - 1] == t[|t| - 1];
    } else {
      assert s + t == s;
    }
  }

  /** One element is kept exactly when it satisfies `p`. */
  lemma FilterSingle<T(!new)>(p: T -> bool, x: T)
    ensures Filter(p, [x]) == if p(x) then [x] else []
  {
    assert [x][..0] == [];
  }

  /**
   `p` relates `xs` and `ys` position by position. Written from the back, like
   a loop that appends, so that it unfolds one position at a time.
   */
  ghost predicate Pointwise<A, B>(p: (A, B) -> bool, xs: seq<A>, ys: seq<B>)
  {
    && |xs| == |ys|
    && (xs != [] ==> Pointwise(p, xs[..|xs| - 1], ys[..|ys| - 1]) && p(xs[|xs| - 1], ys[|ys| - 1]))
  }

  lemma PointwiseSnoc<A, B>(p: (A, B) -> bool, xs: seq<A>, ys: seq<B>, x: A, y: B)
    requires Pointwise(p, xs, ys) && p(x, y)
    ensures Pointwise(p, xs + [x], ys + [y])
  {
    assert (xs + [x])[..|xs|] == xs;
    assert (ys + [y])[..|ys|] == ys;
  }

  /** The step of a loop that appends one result per input. */
  lemma PointwiseStep<A, B>(p: (A, B) -> bool, xs: seq<A>, ys: seq<B>, i: nat, x: A)
    requires i < |ys| && Pointwise(p, xs, ys[..i]) && p(x, ys[i])
    ensures Pointwise(p, xs + [x], ys[..i + 1])
  {
    assert ys[..i + 1] == ys[..i] + [ys[i]];
    PointwiseSnoc(p, xs, ys[..i], x, ys[i]);
  }

  /** Read position by position: `p` holds of the pair at every index. */
  lemma {:induction false} PointwiseAt<A, B>(p: (A, B) -> bool, xs: seq<A>, ys: seq<B>, i: nat)
    requires Pointwise(p, xs, ys) && i < |xs|
    ensures |xs| == |ys|
    ensures p(xs[i], ys[i])
  {
    if i < |xs| - 1 {
      PointwiseAt(p, xs[..|xs| - 1], ys[..|ys| - 1], i);
    }
  }

  /** Two pieces of which one is empty can be appended in either order. */
  lemma SwapAroundEmpty<T>(s: seq<T>, a: seq<T>, b: seq<T>)
    requires a == [] || b == []
    ensures s + a + b == s + b + a
  {
    if a == [] {
      assert s + a == s;
    } else {
      assert s + b == s;
    }
  }

  /** Nothing passes a filter that no element satisfies. */
  lemma {:induction false} FilterNone<T(!new)>(p: T -> bool, s: seq<T>)
    requires forall x :: x in s ==> !p(x)
    ensures Filter(p, s) == []
  {
    if s != [] {
      FilterNone(p, s[..|s| - 1]);
    }
  }

  /** Python's `sum(s)` over floats. */
  function Sum(s: seq<real>): real
  {
    if s == [] then 0.0 else Sum(s[..|s| - 1]) + s[|s| - 1]
  }

  /** Python's `min(s)`. */
  function MinOf(s: seq<real>): (r: real)
    requires |s| > 0
    ensures r in s
    ensures forall x :: x in s ==> r <= x
  {
    if |s| == 1 then s[0]
    else
      var m := MinOf(s[..|s| - 1]);
      assert forall x :: x in s ==> x in s[..|s| - 1] || x == s[|s| - 1];
      if s[|s| - 1] < m then s[|s| - 1] else m
  }

  /** Python's `max(s)`. */
  function MaxOf(s: seq<real>): (r: real)
    requires |s| > 0
    ensures r in s
    ensures forall x :: x in s ==> x <= r
  {
    if |s| == 1 then s[0]
    else
      var m := MaxOf(s[..|s| - 1]);
      assert forall x :: x in s ==> x in s[..|s| - 1] || x == s[|s| - 1];
      if s[|s| - 1] > m then s[|s| - 1] else m
  }

  /** The elements of `s` as a set: `set(s)`. */
  function Elements<T(!new)>(s: seq<T>): (r: set<T>)
    ensures forall x :: x in r <==> x in s
  {
    set x | x in s
  }

  /** No element occurs twice. */
  predicate Distinct<T(==)>(s: seq<T>)
  {
    forall i, j :: 0 <= i < j < |s| ==> s[i] != s[j]
  }

  /** A sequence without repetitions has as many elements as its set: `len(set(s)) == len(s)`. */
  lemma {:induction false} DistinctCardinality<T(!new)>(s: seq<T>)
    requires Distinct(s)
    ensures |Elements(s)| == |s|
  {
    if s != [] {
      var init := s[..|s| - 1];
      var last := s[|s| - 1];
      assert Distinct(init);
      DistinctCardinality(init);
      assert last !in init;
      assert Elements(s) == Elements(init) + {last};
    }
  }

  /** In a sequence without repetitions every element occurs once. */
  lemma {:induction false} DistinctMultiplicity<T>(s: seq<T>, x: T)
    requires Distinct(s)
    ensures multiset(s)[x] == if x in s then 1 else 0
  {
    if s != [] {
      var init := s[..|s| - 1];
      assert s == init + [s[|s| - 1]];
      assert Distinct(init);
      DistinctMultiplicity(init, x);
      assert s[|s| - 1] !in init;
    }
  }

  /** Two repetition-free enumerations of one set are rearrangements of each other. */
  lemma DistinctSameElements<T>(a: seq<T>, b: seq<T>)
    requires Distinct(a) && Distinct(b)
    requires forall x :: x in a <==> x in b
    ensures multiset(a) == multiset(b)
  {
    forall x ensures multiset(a)[x] == multiset(b)[x] {
      DistinctMultiplicity(a, x);
      DistinctMultiplicity(b, x);
    }
  }

  /** Any sequence has at most as many distinct elements as entries. */
  lemma {:induction false} ElementsBound<T(!new)>(s: seq<T>)
    ensures |Elements(s)| <= |s|
  {
    if s != [] {
      var init := s[..|s| - 1];
      ElementsBound(init);
      assert Elements(s) == Elements(init) + {s[|s| - 1]};
    }
  }

  // ---------------------------------------------------------------------------
  // Strings (ASCII)
  // ---------------------------------------------------------------------------

  /** `s.startswith(prefix)` */
  predicate StartsWith(s: string, prefix: string)
  {
    |prefix| <= |s| && s[..|prefix|] == prefix
  }

  /** `pat in s` for strings: `pat` occurs somewhere in `s`. */
  predicate Contains(s: string, pat: string)
  {
    exists i | 0 <= i <= |s| :: OccursAt(s, pat, i)
  }

  /** `pat` occurs in `s` starting at index `i`. */
  predicate OccursAt(s: string, pat: string, i: int)
  {
    0 <= i && i + |pat| <= |s| && s[i..i + |pat|] == pat
  }

  /** A pattern absent from a string is absent from its tail too. */
  lemma NotContainedInTail(s: string, pat: string)
    requires s != [] && !Contains(s, pat)
    ensures !Contains(s[1..], pat)
  {
    forall i | 0 <= i <= |s[1..]| ensures !OccursAt(s[1..], pat, i) {
      assert !OccursAt(s, pat, i + 1);
      if i + |pat| <= |s[1..]| {
        assert s[1..][i..i + |pat|] == s[i + 1..i + 1 + |pat|];
      }
    }
  }

  /** Lower-casing of one character, ASCII letters only. */
  function LowerChar(c: char): (d: char)
    ensures 'A' <= c <= 'Z' ==> 'a' <= d <= 'z' && d as int - c as int == 32
    ensures !('A' <= c <= 'Z') ==> d == c
  {
    if 'A' <= c <= 'Z' then (c as int + 32) as char else c
  }

  /** `s.lower()`, ASCII letters only. */
  function Lower(s: string): (r: string)
    ensures |r| == |s|
    ensures forall i :: 0 <= i < |s| ==> r[i] == LowerChar(s[i])
  {
    Map(LowerChar, s)
  }

  /** `s.split(sep)` for a one-character separator: never empty, and no piece holds `sep`. */
  function Split(s: string, sep: char): (r: seq<string>)
    ensures |r| >= 1
    ensures forall i :: 0 <= i < |r| ==> sep !in r[i]
  {
    if s == [] then [[]]
    else
      var rest := Split(s[1..], sep);
      if s[0] == sep then [[]] + rest
      else [[s[0]] + rest[0]] + rest[1..]
  }

  /** `sep.join(parts)` */
  function Join(parts: seq<string>, sep: char): string
    requires |parts| >= 1
  {
    if |parts| == 1 then parts[0] else parts[0] + [sep] + Join(parts[1..], sep)
  }

  /** Splitting loses nothing: joining the pieces back gives the original string. */
  lemma {:induction false} JoinSplit(s: string, sep: char)
    ensures Join(Split(s, sep), sep) == s
  {
    if s != [] {
      var rest := Split(s[1..], sep);
      JoinSplit(s[1..], sep);
      if s[0] != sep {
        if |rest| > 1 {
          assert Join([[s[0]] + rest[0]] + rest[1..], sep)
              == [s[0]] + rest[0] + [sep] + Join(rest[1..], sep);
          assert Join(rest, sep) == rest[0] + [sep] + Join(rest[1..], sep);
        }
      }
    }
  }

  /** Joining one more piece appends the separator and that piece. */
  lemma {:induction false} JoinSnoc(parts: seq<string>, p: string, sep: char)
    requires |parts| >= 1
    ensures Join(parts + [p], sep) == Join(parts, sep) + [sep] + p
  {
    if |parts| > 1 {
      JoinSnoc(parts[1..], p, sep);
      assert (parts + [p])[1..] == parts[1..] + [p];
    }
  }

  /** The first piece of a split is a prefix of the string. */
  lemma SplitFirstPrefix(s: string, sep: char)
    ensures StartsWith(s, Split(s, sep)[0])
  {
    var pieces := Split(s, sep);
    JoinSplit(s, sep);
    if |pieces| > 1 {
      assert Join(pieces, sep) == pieces[0] + ([sep] + Join(pieces[1..], sep));
    }
  }

  /** The first piece of a split runs to the end of the string or stops at the first separator. */
  lemma {:induction false} SplitFirstStops(s: string, sep: char)
    ensures |Split(s, sep)[0]| == |s| || (|Split(s, sep)[0]| < |s| && s[|Split(s, sep)[0]|] == sep)
  {
    if s != [] && s[0] != sep {
      var rest := Split(s[1..], sep);
      SplitFirstStops(s[1..], sep);
      assert Split(s, sep)[0] == [s[0]] + rest[0];
      assert |rest[0]| < |s[1..]| ==> s[1..][|rest[0]|] == s[|rest[0]| + 1];
    }
  }

  /** Splitting inverts joining when no piece holds the separator. */
  lemma {:induction false} SplitJoin(parts: seq<string>, sep: char)
    requires |parts| >= 1
    requires forall i :: 0 <= i < |parts| ==> sep !in parts[i]
    ensures Split(Join(parts, sep), sep) == parts
  {
    if |parts| == 1 {
      SplitPiece(parts[0], sep);
    } else {
      SplitJoin(parts[1..], sep);
      SplitAppend(parts[0], Join(parts[1..], sep), sep);
      assert Join(parts, sep) == parts[0] + ([sep] + Join(parts[1..], sep));
    }
  }

  lemma {:induction false} SplitPiece(p: string, sep: char)
    requires sep !in p
    ensures Split(p, sep) == [p]
  {
    if p != [] {
      SplitPiece(p[1..], sep);
      assert p[0] != sep;
      assert [p[0]] + p[1..] == p;
    }
  }

  lemma {:induction false} SplitAppend(p: string, rest: string, sep: char)
    requires sep !in p
    ensures Split(p + [sep] + rest, sep) == [p] + Split(rest, sep)
  {
    if p == [] {
      assert p + [sep] + rest == [sep] + rest;
      assert ([sep] + rest)[1..] == rest;
    } else {
      SplitAppend(p[1..], rest, sep);
      var whole := p + [sep] + rest;
      assert whole[0] == p[0] != sep;
      assert whole[1..] == p[1..] + [sep] + rest;
      assert [p[0]] + p[1..] == p;
    }
  }

  /**
   `token in s.lower().split(';')`: the campaign option string holds `token`
   as one whole `;`-separated option, compared after lower-casing.
   */
  predicate HasOption(options: string, token: string)
  {
    token in Split(Lower(options), ';')
  }

  // ---------------------------------------------------------------------------
  // Decimal rendering
  // ---------------------------------------------------------------------------

  function DigitChar(d: nat): (c: char)
    requires d < 10
    ensures '0' <= c <= '9'
  {
    ('0' as int + d) as char
  }

  predicate IsDigit(c: char)
  {
    '0' <= c <= '9'
  }

  predicate AllDigits(s: string)
  {
    forall i :: 0 <= i < |s| ==> IsDigit(s[i])
  }

  /** `str(n)` for a natural number: the shortest decimal rendering. */
  function Decimal(n: nat): (s: string)
    ensures |s| >= 1
    ensures forall i :: 0 <= i < |s| ==> IsDigit(s[i])
    ensures n < 10 <==> |s| == 1
  {
    if n < 10 then [DigitChar(n)] else Decimal(n / 10) + [DigitChar(n % 10)]
  }

  /** The number a string of decimal digits denotes. */
  function DecimalValue(s: string): nat
    requires forall i :: 0 <= i < |s| ==> IsDigit(s[i])
  {
    if s == [] then 0
    else
      assert IsDigit(s[|s| - 1]);
      DecimalValue(s[..|s| - 1]) * 10 + (s[|s| - 1] as int - '0' as int)
  }

  /** Rendering a number in decimal and reading it back gives the number. */
  lemma {:induction false} DecimalRoundTrip(n: nat)
    ensures DecimalValue(Decimal(n)) == n
  {
    if n >= 10 {
      DecimalRoundTrip(n / 10);
      var s := Decimal(n);
      assert s[..|s| - 1] == Decimal(n / 10);
    }
  }

  /** Leading zeros do not change the value of a decimal string. */
  lemma {:induction false} DecimalValueLeadingZero(s: string)
    requires forall i :: 0 <= i < |s| ==> IsDigit(s[i])
    ensures DecimalValue("0" + s) == DecimalValue(s)
  {
    if s != [] {
      var t := "0" + s;
      assert t[..|t| - 1] == "0" + s[..|s| - 1];
      DecimalValueLeadingZero(s[..|s| - 1]);
    }
  }

  /** `f'{n:0>2d}'`: the decimal rendering, padded on the left with zeros to two characters. */
  function Pad2(n: nat): (s: string)
    ensures |s| >= 2
    ensures forall i :: 0 <= i < |s| ==> IsDigit(s[i])
    ensures DecimalValue(s) == n
    ensures n < 100 ==> |s| == 2
  {
    var d := Decimal(n);
    DecimalRoundTrip(n);
    if |d| < 2 then
      DecimalValueLeadingZero(d);
      "0" + d
    else
      assert n >= 10;
      assert n < 100 ==> |Decimal(n / 10)| == 1;
      d
  }

  /** `str(i)` for an integer: a `-` sign, then the digits of its magnitude. */
  function IntText(i: int): (s: string)
    ensures |s| >= 1
    ensures i < 0 <==> s[0] == '-'
  {
    if i < 0 then "-" + Decimal(-i) else Decimal(i)
  }

  /**
   `int(s)` on an optional sign followed by decimal digits; `None` stands for
   the `ValueError` raised on anything else.
   */
  function ParseInt(s: string): (r: Option<int>)
    ensures r.Some? <==> s != [] && (if s[0] == '-' || s[0] == '+' then |s| > 1 && AllDigits(s[1..]) else AllDigits(s))
    ensures r.Some? && s[0] == '-' ==> r.value == -(DecimalValue(s[1..]) as int)
    ensures r.Some? && s[0] == '+' ==> r.value == DecimalValue(s[1..])
    ensures r.Some? && s[0] != '-' && s[0] != '+' ==> r.value == DecimalValue(s)
  {
    if s == [] then None
    else if s[0] == '-' || s[0] == '+' then
      var digits := s[1..];
      if digits != [] && AllDigits(digits) then
        var v: int := DecimalValue(digits);
        Some(if s[0] == '-' then -v else v)
      else None
    else if AllDigits(s) then Some(DecimalValue(s))
    else None
  }

  /** Reading back the rendering of an integer gives the integer. */
  lemma IntTextRoundTrip(i: int)
    ensures ParseInt(IntText(i)) == Some(i)
  {
    var s := IntText(i);
    if i < 0 {
      var d := Decimal(-i);
      assert s == "-" + d && s[0] == '-';
      assert s[1..] == d;
      DecimalRoundTrip(-i);
    } else {
      assert s == Decimal(i);
      assert IsDigit(s[0]);
      DecimalRoundTrip(i);
    }
  }
}
