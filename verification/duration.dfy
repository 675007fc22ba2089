/**
 Duration formatting of the campaign status pages (`_format_duration`):
 a number of seconds becomes `HHhMMm`, or `HHh MMm` with the separator,
 by truncating to whole hours and whole minutes, never rounding.
 */
module Duration {
  import opened Base

  /** Python's `int(x)` on a float: truncation toward zero. */
  function Trunc(x: real): (r: int)
    ensures x >= 0.0 ==> r >= 0 && r as real <= x < r as real + 1.0
    ensures x < 0.0 ==> r <= 0 && r as real - 1.0 < x <= r as real
  {
    if x >= 0.0 then x.Floor else -((-x).Floor)
  }

  /** Whole hours and whole remaining minutes of a duration. */
  datatype Clock = Clock(hours: nat, minutes: nat)

  /**
   `max(0, int(seconds))` split by floor division into hours and minutes:
   negative inputs clamp to zero, minutes stay below 60, and the clock
   reading is the largest whole minute not beyond `seconds`.
   */
  function ClockOf(seconds: real): (c: Clock)
    ensures c.minutes < 60
    ensures seconds < 0.0 ==> c == Clock(0, 0)
    ensures seconds >= 0.0 ==>
      (c.hours * 3600 + c.minutes * 60) as real <= seconds < (c.hours * 3600 + c.minutes * 60 + 60) as real
  {
    var t := Trunc(seconds);
    var total: nat := if t < 0 then 0 else t;
    Clock(total / 3600, (total % 3600) / 60)
  }

  /** `f'{hours:0>2d}h{separator}{minutes:0>2d}m'` */
  function Render(c: Clock, withSpace: bool): string
  {
    Pad2(c.hours) + "h" + (if withSpace then " " else "") + Pad2(c.minutes) + "m"
  }

  /** `_format_duration(seconds, with_space)`: `None` stays `None`. */
  function FormatDuration(seconds: Option<real>, withSpace: bool): (r: Option<string>)
    ensures r.None? <==> seconds.None?
    ensures r.Some? ==> ParseDuration(r.value) == Some((ClockOf(seconds.value), withSpace))
    ensures r.Some? && ClockOf(seconds.value).hours < 100 ==>
              |r.value| == (if withSpace then 7 else 6) && r.value[2] == 'h'
  {
    match seconds
    case None => None
    case Some(s) =>
      var c := ClockOf(s);
      ParseRender(c, withSpace);
      Some(Render(c, withSpace))
  }

  // ---------------------------------------------------------------------------
  // The ESA status page's own rendering
  // ---------------------------------------------------------------------------

  /**
   `int(floor(t / 3600))` and `int(floor((t % 3600) / 60))`, with Python's
   floored float modulo: whole hours and whole remaining minutes, for any
   sign of `t`.
   */
  function FlooredClock(t: real): (hm: (int, int))
    ensures 0 <= hm.1 < 60
    ensures (hm.0 * 3600 + hm.1 * 60) as real <= t < (hm.0 * 3600 + hm.1 * 60 + 60) as real
  {
    var h := (t / 3600.0).Floor;
    var rest := t - 3600.0 * h as real;
    assert 0.0 <= rest < 3600.0;
    var m := (rest / 60.0).Floor;
    assert m as real * 60.0 <= rest < m as real * 60.0 + 60.0;
    (h, m)
  }

  /** `f'{n:0>2d}'` for any integer: a negative number is wide enough already. */
  function PadInt(n: int): (s: string)
    ensures |s| >= 2
  {
    if n < 0 then IntText(n) else Pad2(n)
  }

  /** `f'{hours:0>2d}h {minutes:0>2d}m'` as the ESA status page writes it inline. */
  function EsaRender(t: real): string
  {
    var hm := FlooredClock(t);
    PadInt(hm.0) + "h " + Pad2(hm.1) + "m"
  }

  /** A whole-minute reading is pinned down by the number of seconds it brackets. */
  lemma ClockUnique(h: int, m: int, h': int, m': int, t: real)
    requires 0 <= m < 60 && 0 <= m' < 60
    requires (h * 3600 + m * 60) as real <= t < (h * 3600 + m * 60 + 60) as real
    requires (h' * 3600 + m' * 60) as real <= t < (h' * 3600 + m' * 60 + 60) as real
    ensures h == h' && m == m'
  {
    var a := h * 60 + m;
    var b := h' * 60 + m';
    assert a == b;
    assert h == a / 60 && m == a % 60;
    assert h' == b / 60 && m' == b % 60;
  }

  /**
   On non-negative times the ESA page's inline rendering and
   `_format_duration(t, with_space=True)` print the same text.
   */
  lemma EsaRenderAgrees(t: real)
    requires t >= 0.0
    ensures EsaRender(t) == Render(ClockOf(t), true)
  {
    var hm := FlooredClock(t);
    var c := ClockOf(t);
    ClockUnique(hm.0, hm.1, c.hours, c.minutes, t);
  }

  // ---------------------------------------------------------------------------
  // Reading a rendered duration back
  // ---------------------------------------------------------------------------

  /** Index of the first `c` in `s`, or `|s|` when there is none. */
  function IndexOf(s: string, c: char): (i: nat)
    ensures i <= |s|
    ensures forall j :: 0 <= j < i ==> s[j] != c
    ensures i < |s| ==> s[i] == c
  {
    if s == [] then 0 else if s[0] == c then 0 else 1 + IndexOf(s[1..], c)
  }

  /**
   Reads `<digits>h<digits>m` or `<digits>h <digits>m` back into the clock
   reading and whether the separator was present.
   */
  function ParseDuration(text: string): Option<(Clock, bool)>
  {
    if |text| == 0 || text[|text| - 1] != 'm' then None
    else
      var body := text[..|text| - 1];
      var i := IndexOf(body, 'h');
      if i == |body| then None
      else
        var hoursText := body[..i];
        var rest := body[i + 1..];
        var spaced := |rest| > 0 && rest[0] == ' ';
        var minutesText := if spaced then rest[1..] else rest;
        if hoursText == [] || minutesText == [] || !AllDigits(hoursText) || !AllDigits(minutesText) then None
        else Some((Clock(DecimalValue(hoursText), DecimalValue(minutesText)), spaced))
  }

  /** The rendering keeps both numbers and the separator choice: parsing it gives them back. */
  lemma ParseRender(c: Clock, withSpace: bool)
    ensures ParseDuration(Render(c, withSpace)) == Some((c, withSpace))
  {
    ParseShape(Pad2(c.hours), Pad2(c.minutes), withSpace);
  }

  lemma ParseShape(h: string, m: string, withSpace: bool)
    requires h != [] && m != [] && AllDigits(h) && AllDigits(m)
    ensures ParseDuration(h + "h" + (if withSpace then " " else "") + m + "m")
         == Some((Clock(DecimalValue(h), DecimalValue(m)), withSpace))
  {
    var sep := if withSpace then " " else "";
    var tail := sep + m;
    assert h + "h" + sep + m + "m" == h + "h" + tail + "m";
    SplitAtHours(h, tail);
    if withSpace {
      assert tail[0] == ' ' && tail[1..] == m;
    } else {
      assert tail == m;
      assert m[0] != ' ';
    }
  }

  /** The body before the final `m` splits at the first `h`, right after the hours. */
  lemma SplitAtHours(h: string, tail: string)
    requires AllDigits(h)
    ensures var text := h + "h" + tail + "m";
            var body := h + "h" + tail;
            && text[..|text| - 1] == body
            && IndexOf(body, 'h') == |h|
            && body[..|h|] == h
            && body[|h| + 1..] == tail
  {
    var body := h + "h" + tail;
    assert (body + "m")[..|body|] == body;
    IndexOfAfterDigits(h, tail);
  }

  lemma {:induction false} IndexOfAfterDigits(d: string, rest: string)
    requires AllDigits(d)
    ensures IndexOf(d + "h" + rest, 'h') == |d|
  {
    if d != [] {
      assert (d + "h" + rest)[1..] == d[1..] + "h" + rest;
      IndexOfAfterDigits(d[1..], rest);
    }
  }
}
