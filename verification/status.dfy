/**
 Per-annotator status symbol (`_derive_status_emoji`) and progress text
 of the campaign status rows. The total number of assigned items comes
 from the task agenda lookup, which is outside this model: `None` means
 the lookup found no task.
 */
module Status {
  import opened Base

  /** The five status symbols: 🚫 ❌ ✅ 🛠️ 💤 */
  datatype Emoji = Blocked | Error | Complete | InProgress | Idle

  /** The symbol shown next to the username. */
  function Symbol(e: Emoji): string
  {
    match e
    case Blocked => "\U{1F6AB}"
    case Error => "\U{274C}"
    case Complete => "\U{2705}"
    case InProgress => "\U{1F6E0}\U{FE0F}"
    case Idle => "\U{1F4A4}"
  }

  /**
   `_derive_status_emoji(is_active, annotations, total_items, has_data)`.
   An inactive account is always blocked; a known, non-zero total decides by
   comparing it with the annotation count; without one, any annotation or
   data means work in progress, except that annotations with no task at all
   are an error.
   */
  function DeriveStatus(isActive: bool, annotations: nat, total: Option<nat>, hasData: bool): (e: Emoji)
    ensures e == Blocked <==> !isActive
    ensures e == Error <==> isActive && annotations > 0 && total.None?
    ensures e == Complete <==> isActive && total.Some? && total.value > 0 && annotations >= total.value
    ensures e == InProgress <==>
              isActive && (match total
                           case Some(t) => if t > 0 then 0 < annotations < t else annotations > 0 || hasData
                           case None => annotations == 0 && hasData)
    ensures e == Idle <==> isActive && annotations == 0 && ((total.Some? && total.value > 0) || !hasData)
  {
    if !isActive then Blocked
    else if annotations != 0 && total.None? then Error
    else if total.Some? && total.value != 0 then
      if annotations >= total.value then Complete
      else if annotations > 0 then InProgress
      else Idle
    else if annotations != 0 || hasData then InProgress
    else Idle
  }

  /**
   The progress cell: `'Task not found'`, `'No task assigned'`, `'0/0'`, or
   `'{annotations}/{total} ({ratio:.0%})'` with the ratio capped at 1.0.
   */
  datatype Progress = TaskNotFound | NoTaskAssigned | ZeroOfZero | Fraction(done: nat, total: nat, ratio: real)

  function ProgressOf(annotations: nat, total: Option<nat>): (p: Progress)
    ensures total.None? ==> (p == TaskNotFound <==> annotations > 0) && (p == NoTaskAssigned <==> annotations == 0)
    ensures total == Some(0) <==> p == ZeroOfZero
    ensures p.Fraction? <==> total.Some? && total.value > 0
    ensures p.Fraction? ==> p.done == annotations && p.total == total.value
    ensures p.Fraction? ==> 0.0 <= p.ratio <= 1.0
    ensures p.Fraction? ==> (p.ratio == 1.0 <==> annotations >= p.total)
    ensures p.Fraction? && annotations <= p.total ==> p.ratio * p.total as real == annotations as real
  {
    match total
    case None => if annotations != 0 then TaskNotFound else NoTaskAssigned
    case Some(t) =>
      if t != 0 then
        var q := annotations as real / t as real;
        Fraction(annotations, t, if q < 1.0 then q else 1.0)
      else ZeroOfZero
  }

  /**
   The fixed texts, and the `'{annotations}/{total}'` part of a fraction
   (the percentage after it is float rendering, not modelled).
   */
  function ProgressText(p: Progress): string
  {
    match p
    case TaskNotFound => "Task not found"
    case NoTaskAssigned => "No task assigned"
    case ZeroOfZero => "0/0"
    case Fraction(done, total, _) => Decimal(done) + "/" + Decimal(total)
  }

  /**
   The status symbol and the progress cell of one row never disagree: an
   error is exactly a missing task with annotations, a finished annotator
   shows 100%, and one in progress against a known total shows less.
   */
  lemma {:induction false} StatusMatchesProgress(annotations: nat, total: Option<nat>, hasData: bool)
    ensures var e := DeriveStatus(true, annotations, total, hasData);
            var p := ProgressOf(annotations, total);
            && (e == Error <==> p == TaskNotFound)
            && (e == Complete <==> p.Fraction? && p.ratio == 1.0)
            && (e == InProgress && p.Fraction? ==> 0.0 < p.ratio < 1.0)
            && (e == Idle && p.Fraction? ==> p.ratio == 0.0)
  {
    var p := ProgressOf(annotations, total);
    if p.Fraction? {
      var t := p.total;
      if annotations < t {
        assert p.ratio * t as real == annotations as real;
        assert annotations > 0 ==> p.ratio > 0.0;
        assert annotations == 0 ==> p.ratio == 0.0;
      }
    }
  }

  // ---------------------------------------------------------------------------
  // The ESA status page's own symbol and progress cell
  // ---------------------------------------------------------------------------

  /** The progress cell of the ESA status page; a task with no items makes its division fail. */
  datatype EsaProgress =
    | EsaNoTaskAssigned
    | EsaTaskNotFound
    | EsaFraction(done: nat, total: nat, ratio: real)
    | EsaDivisionByZero

  /**
   Symbol and progress cell of one member on the ESA status page: `uniq`
   distinct items annotated, `hasData` whether any completed result exists,
   `total` the item count of the task found for the member, if any. With
   data, the member is complete only when the count equals the total
   exactly, and the ratio is not capped.
   */
  function EsaStatus(uniq: nat, hasData: bool, total: Option<nat>): (r: (Emoji, EsaProgress))
    ensures !hasData ==> r.0 == Idle
    ensures !hasData ==> (r.1 == EsaNoTaskAssigned <==> total.None?)
    ensures !hasData && total.Some? ==> r.1 == EsaFraction(0, total.value, 0.0)
    ensures hasData && total.None? ==> r == (Error, EsaTaskNotFound)
    ensures hasData && total.Some? ==> (r.0 == Complete <==> uniq == total.value)
    ensures hasData && total.Some? ==> (r.0 == InProgress <==> uniq != total.value)
    ensures r.1 == EsaDivisionByZero <==> hasData && total == Some(0)
    ensures hasData && r.1.EsaFraction? ==> r.1.done == uniq && r.1.ratio * r.1.total as real == uniq as real
    ensures hasData && total.Some? && 0 < uniq <= total.value ==> r.0 == DeriveStatus(true, uniq, total, true)
  {
    if !hasData then
      (Idle, if total.None? then EsaNoTaskAssigned else EsaFraction(0, total.value, 0.0))
    else if total.None? then (Error, EsaTaskNotFound)
    else
      var t := total.value;
      var e := if t == uniq then Complete else InProgress;
      if t == 0 then (e, EsaDivisionByZero)
      else (e, EsaFraction(uniq, t, uniq as real / t as real))
  }

  /**
   Where the two pages part: a member with more distinct items than the
   task holds is complete on the campaign status page but still in
   progress, above 100%, on the ESA page.
   */
  lemma {:induction false} EsaOverCount(uniq: nat, total: nat)
    requires 0 < total < uniq
    ensures DeriveStatus(true, uniq, Some(total), true) == Complete
    ensures EsaStatus(uniq, true, Some(total)).0 == InProgress
    ensures EsaStatus(uniq, true, Some(total)).1.ratio > 1.0
  {
    var r := EsaStatus(uniq, true, Some(total));
    assert r.1.ratio * total as real == uniq as real;
  }
}
