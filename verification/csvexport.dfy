/**
 The CSV export of system scores (`ExportSystemScoresToCSV`): recognising
 the shadow accounts a task-agenda reset leaves behind, keeping only their
 scores in reset-accounts mode, and accumulating the scores of every task
 type the campaign has into the rows written and the count reported.
 */
module CsvExport {
  import opened Base

  // ---------------------------------------------------------------------------
  // Shadow accounts: `^[^-]+-[0-9a-f]{2}$` under `re.match`
  // ---------------------------------------------------------------------------

  predicate IsHexLower(c: char)
  {
    ('0' <= c <= '9') || ('a' <= c <= 'f')
  }

  /** The pattern without the newline `$` tolerates: no hyphen, a hyphen, two lower-case hex digits. */
  predicate ShadowCore(s: string)
  {
    && |s| >= 4
    && s[|s| - 3] == '-'
    && IsHexLower(s[|s| - 2])
    && IsHexLower(s[|s| - 1])
    && '-' !in s[..|s| - 3]
  }

  /** `re.match` with `$`, which also matches just before one final newline. */
  predicate ShadowPattern(s: string)
  {
    ShadowCore(s) || (|s| >= 1 && s[|s| - 1] == '\n' && ShadowCore(s[..|s| - 1]))
  }

  /** One way the pattern can spell `s`: a hyphen-free prefix, a hyphen, two hex digits, maybe a newline. */
  ghost predicate ShadowSpelling(s: string, prefix: string, h1: char, h2: char, newline: bool)
  {
    && prefix != []
    && '-' !in prefix
    && IsHexLower(h1)
    && IsHexLower(h2)
    && s == prefix + ['-', h1, h2] + (if newline then ['\n'] else [])
  }

  lemma ShadowCoreSpelling(s: string)
    requires ShadowCore(s)
    ensures ShadowSpelling(s, s[..|s| - 3], s[|s| - 2], s[|s| - 1], false)
  {
    assert s == s[..|s| - 3] + ['-', s[|s| - 2], s[|s| - 1]];
  }

  lemma SpellingCore(prefix: string, h1: char, h2: char)
    requires prefix != [] && '-' !in prefix && IsHexLower(h1) && IsHexLower(h2)
    ensures ShadowCore(prefix + ['-', h1, h2])
  {
    var s := prefix + ['-', h1, h2];
    assert s[..|s| - 3] == prefix;
  }

  /** Every spelling is accepted by the pattern. */
  lemma SpellingAccepted(s: string, p: string, h1: char, h2: char, nl: bool)
    requires ShadowSpelling(s, p, h1, h2, nl)
    ensures ShadowPattern(s)
  {
    SpellingCore(p, h1, h2);
    if nl {
      assert s[..|s| - 1] == p + ['-', h1, h2];
    } else {
      assert s == p + ['-', h1, h2];
    }
  }

  /** The pattern accepts exactly the names it can spell. */
  lemma ShadowPatternMeaning(s: string)
    ensures ShadowPattern(s) <==> exists p, h1, h2, nl :: ShadowSpelling(s, p, h1, h2, nl)
  {
    if ShadowCore(s) {
      ShadowCoreSpelling(s);
    } else if |s| >= 1 && s[|s| - 1] == '\n' && ShadowCore(s[..|s| - 1]) {
      var t := s[..|s| - 1];
      ShadowCoreSpelling(t);
      assert s == t + ['\n'];
      assert ShadowSpelling(s, t[..|t| - 3], t[|t| - 2], t[|t| - 1], true);
    }
    if exists p, h1, h2, nl :: ShadowSpelling(s, p, h1, h2, nl) {
      var p, h1, h2, nl :| ShadowSpelling(s, p, h1, h2, nl);
      SpellingAccepted(s, p, h1, h2, nl);
    }
  }

  /**
   A reset account `{original}-{hex}` is recognised exactly when the
   original username is non-empty and has no hyphen of its own: shadows of
   hyphenated usernames are not found.
   */
  lemma ShadowOfUsername(original: string, h1: char, h2: char)
    requires IsHexLower(h1) && IsHexLower(h2)
    ensures ShadowPattern(original + ['-', h1, h2]) <==> original != [] && '-' !in original
  {
    var s := original + ['-', h1, h2];
    assert s[..|s| - 3] == original;
    assert s[|s| - 1] != '\n';
    if original != [] && '-' !in original {
      SpellingCore(original, h1, h2);
    }
  }

  /** A user account: its username and whether it is active. */
  datatype User = User(username: string, isActive: bool)

  function IsShadow(u: User): bool
  {
    !u.isActive && ShadowPattern(u.username)
  }

  /** `get_shadow_users`: the inactive accounts whose name matches the pattern, in query order. */
  function ShadowUsers(users: seq<User>): (r: seq<User>)
    ensures forall u :: u in r <==> u in users && !u.isActive && ShadowPattern(u.username)
  {
    Filter(IsShadow, users)
  }

  function UsernameOf(u: User): string
  {
    u.username
  }

  /** `", ".join(names)` */
  function CommaJoin(names: seq<string>): string
  {
    if names == [] then ""
    else if |names| == 1 then names[0]
    else names[0] + ", " + CommaJoin(names[1..])
  }

  /** `validate_reset_accounts`: the shadow users, or `None` with a message when there are none. */
  function ValidateResetAccounts(users: seq<User>): (r: (Option<seq<User>>, string))
    ensures r.0.None? <==> ShadowUsers(users) == []
    ensures r.0.None? <==> (forall u :: u in users ==> !IsShadow(u))
    ensures r.0.Some? ==> r.0.value == ShadowUsers(users) && r.0.value != []
    ensures r.0.Some? ==> StartsWith(r.1, "# Found " + IntText(|ShadowUsers(users)|) + " reset accounts")
  {
    var shadows := ShadowUsers(users);
    if shadows == [] then
      (None, "# No reset accounts (shadow users) found. This means no task agendas have been reset yet.")
    else
      assert shadows[0] in shadows;
      var text := "# Found " + IntText(|shadows|) + " reset accounts (shadow users): "
                  + CommaJoin(Map(UsernameOf, shadows)) + ". Exporting scores from these accounts only.";
      assert text == ("# Found " + IntText(|shadows|) + " reset accounts") + text[|"# Found " + IntText(|shadows|) + " reset accounts"|..];
      (Some(shadows), text)
  }

  // ---------------------------------------------------------------------------
  // Score tuples
  // ---------------------------------------------------------------------------

  /**
   One cell of a `get_system_data` tuple. Floats are carried with the text
   Python's `str` gives them.
   */
  datatype Value = Text(text: string) | Int(i: int) | Flag(b: bool) | Null | Float(repr: string)

  /** `str(x)` of one cell. */
  function Str(v: Value): string
  {
    match v
    case Text(t) => t
    case Int(i) => IntText(i)
    case Flag(b) => if b then "True" else "False"
    case Null => "None"
    case Float(repr) => repr
  }

  lemma StrOfInt(i: int)
    ensures ParseInt(Str(Int(i))) == Some(i)
  {
    IntTextRoundTrip(i);
  }

  type Score = seq<Value>

  /** `len(score) > 0 and score[0] in shadow_usernames` */
  predicate FromAccounts(names: set<string>, score: Score)
  {
    |score| > 0 && score[0].Text? && score[0].text in names
  }

  function Usernames(users: seq<User>): (r: set<string>)
    ensures forall n :: n in r <==> exists u :: u in users && u.username == n
  {
    set u | u in users :: u.username
  }

  function KeepFrom(names: set<string>): Score -> bool
  {
    (s: Score) => FromAccounts(names, s)
  }

  /** The scores of the shadow accounts among `allScores`, in order. */
  function ResetScoresOf(users: seq<User>, allScores: seq<Score>): seq<Score>
  {
    Filter(KeepFrom(Usernames(ShadowUsers(users))), allScores)
  }

  /**
   `get_scores_from_reset_accounts`: nothing when there is no shadow user,
   otherwise the filtering loop over every result, inactive and retired
   ones included.
   */
  method ResetScores(users: seq<User>, allScores: seq<Score>) returns (kept: seq<Score>)
    ensures kept == ResetScoresOf(users, allScores)
    ensures forall s: Score :: s in kept <==>
              (s in allScores && |s| > 0 && s[0].Text? && exists u :: u in users && IsShadow(u) && u.username == s[0].text)
  {
    var shadows := ShadowUsers(users);
    var names := Usernames(shadows);
    if shadows == [] {
      NoShadowKeepsNothing(users, allScores);
      return [];
    }
    kept := [];
    for i := 0 to |allScores|
      invariant kept == Filter(KeepFrom(names), allScores[..i])
    {
      var score := allScores[i];
      assert allScores[..i + 1] == allScores[..i] + [score];
      if |score| > 0 && score[0].Text? && score[0].text in names {
        kept := kept + [score];
      }
    }
    assert allScores[..|allScores|] == allScores;
  }

  /** Without shadow accounts the filter keeps nothing, so the early return changes nothing. */
  lemma NoShadowKeepsNothing(users: seq<User>, allScores: seq<Score>)
    requires ShadowUsers(users) == []
    ensures ResetScoresOf(users, allScores) == []
  {
    var names := Usernames(ShadowUsers(users));
    assert names == {};
    FilterNone(KeepFrom(names), allScores);
  }

  // ---------------------------------------------------------------------------
  // The command
  // ---------------------------------------------------------------------------

  /**
   One (task class, result class) pair of the campaign: the completion
   flags of its tasks, what `get_system_data` returns for active accounts,
   and what it returns with inactive accounts and retired results included.
   */
  datatype TaskPair = TaskPair(taskCompleted: seq<bool>, activeScores: seq<Score>, allScores: seq<Score>)

  /** `qs_obj and qs_obj.exists()` after the optional `completed=True` filter. */
  predicate HasTasks(p: TaskPair, completedOnly: bool)
  {
    if completedOnly then true in p.taskCompleted else p.taskCompleted != []
  }

  function ScoresOfPair(users: seq<User>, p: TaskPair, resetOnly: bool): seq<Score>
  {
    if resetOnly then ResetScoresOf(users, p.allScores) else p.activeScores
  }

  /** All exported scores: each pair with tasks contributes its scores, pair after pair. */
  function ExportedScores(users: seq<User>, pairs: seq<TaskPair>, completedOnly: bool, resetOnly: bool): seq<Score>
  {
    if pairs == [] then []
    else
      var last := pairs[|pairs| - 1];
      ExportedScores(users, pairs[..|pairs| - 1], completedOnly, resetOnly)
      + (if HasTasks(last, completedOnly) then ScoresOfPair(users, last, resetOnly) else [])
  }

  /** The CSV row of one score: `[str(x) for x in score]`. */
  function CsvRow(score: Score): (row: seq<string>)
    ensures |row| == |score|
    ensures forall i :: 0 <= i < |score| ==> row[i] == Str(score[i])
  {
    Map(Str, score)
  }

  function AccountType(resetOnly: bool): string
  {
    if resetOnly then "reset accounts" else "active accounts"
  }

  function Summary(total: nat, resetOnly: bool, campaignName: string): string
  {
    "# Exported " + IntText(total) + " scores from " + AccountType(resetOnly) + " for campaign '" + campaignName + "'"
  }

  datatype CsvOutcome =
    | NoResetAccounts(message: string)
    | Written(rows: seq<seq<string>>, total: nat, summary: string)

  /**
   `handle`: in reset-accounts mode, stop when there is no shadow account;
   otherwise collect the scores of every pair that has (completed) tasks,
   counting them as they are added, write one row per score and report the
   count.
   */
  method Handle(users: seq<User>, campaignName: string, pairs: seq<TaskPair>, completedOnly: bool, resetOnly: bool)
    returns (out: CsvOutcome)
    ensures out.NoResetAccounts? <==> resetOnly && ShadowUsers(users) == []
    ensures out.Written? ==>
      var scores := ExportedScores(users, pairs, completedOnly, resetOnly);
      && out.rows == Map(CsvRow, scores)
      && out.total == |scores| == |out.rows|
      && out.summary == Summary(|scores|, resetOnly, campaignName)
  {
    if resetOnly {
      var (shadows, message) := ValidateResetAccounts(users);
      if shadows.None? {
        return NoResetAccounts(message);
      }
    }
    var systemScores: seq<Score> := [];
    var total := 0;
    for i := 0 to |pairs|
      invariant systemScores == ExportedScores(users, pairs[..i], completedOnly, resetOnly)
      invariant total == |systemScores|
    {
      ExportedScoresStep(users, pairs, i, completedOnly, resetOnly);
      if HasTasks(pairs[i], completedOnly) {
        var scores;
        if resetOnly {
          scores := ResetScores(users, pairs[i].allScores);
        } else {
          scores := pairs[i].activeScores;
        }
        total := total + |scores|;
        systemScores := systemScores + scores;
      }
    }
    assert pairs[..|pairs|] == pairs;
    var rows := WriteRows(systemScores);
    out := Written(rows, total, Summary(total, resetOnly, campaignName));
  }

  /** One more task pair adds its scores, when it has tasks. */
  lemma ExportedScoresStep(users: seq<User>, pairs: seq<TaskPair>, i: nat, completedOnly: bool, resetOnly: bool)
    requires i < |pairs|
    ensures ExportedScores(users, pairs[..i + 1], completedOnly, resetOnly)
            == ExportedScores(users, pairs[..i], completedOnly, resetOnly)
               + (if HasTasks(pairs[i], completedOnly) then ScoresOfPair(users, pairs[i], resetOnly) else [])
  {
    assert pairs[..i + 1][..i] == pairs[..i];
  }

  /** The writer loop: one CSV row per score, in order. */
  method WriteRows(scores: seq<Score>) returns (rows: seq<seq<string>>)
    ensures rows == Map(CsvRow, scores)
  {
    rows := [];
    for i := 0 to |scores|
      invariant rows == Map(CsvRow, scores[..i])
    {
      assert scores[..i + 1] == scores[..i] + [scores[i]];
      MapAppend(CsvRow, scores[..i], [scores[i]]);
      rows := rows + [CsvRow(scores[i])];
    }
    assert scores[..|scores|] == scores;
  }

  /** In reset-accounts mode every exported score belongs to a shadow account. */
  lemma {:induction false} ResetExportOnlyShadows(users: seq<User>, pairs: seq<TaskPair>, completedOnly: bool, s: Score)
    requires s in ExportedScores(users, pairs, completedOnly, true)
    ensures |s| > 0 && s[0].Text?
    ensures exists u :: u in users && IsShadow(u) && u.username == s[0].text
  {
    var last := pairs[|pairs| - 1];
    var init := pairs[..|pairs| - 1];
    if s !in ExportedScores(users, init, completedOnly, true) {
      assert s in ResetScoresOf(users, last.allScores);
      var names := Usernames(ShadowUsers(users));
      assert FromAccounts(names, s);
    } else {
      ResetExportOnlyShadows(users, init, completedOnly, s);
    }
  }

  /** The count reported is the sum of what each pair with tasks contributed. */
  lemma {:induction false} ExportedCount(users: seq<User>, pairs: seq<TaskPair>, completedOnly: bool, resetOnly: bool)
    ensures |ExportedScores(users, pairs, completedOnly, resetOnly)| <= PairTotal(users, pairs, resetOnly)
    ensures (forall i :: 0 <= i < |pairs| ==> HasTasks(pairs[i], completedOnly))
            ==> |ExportedScores(users, pairs, completedOnly, resetOnly)| == PairTotal(users, pairs, resetOnly)
  {
    if pairs != [] {
      var init := pairs[..|pairs| - 1];
      ExportedCount(users, init, completedOnly, resetOnly);
      assert forall i :: 0 <= i < |init| ==> init[i] == pairs[i];
    }
  }

  /** What all pairs would contribute if each had tasks. */
  function PairTotal(users: seq<User>, pairs: seq<TaskPair>, resetOnly: bool): nat
  {
    if pairs == [] then 0
    else PairTotal(users, pairs[..|pairs| - 1], resetOnly) + |ScoresOfPair(users, pairs[|pairs| - 1], resetOnly)|
  }
}
