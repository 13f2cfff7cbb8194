/** The puzzle-session engine of src/aoc/__init__.py: which puzzle the
    session is about, `submit` (local test mode, already-solved checks, a
    live submission and the progress record), `bind` (archiving the notepad
    as a solution) and `clear`.

    The files the engine reads and writes (progress file, notepad, solutions
    directory) are fields of a `Workspace`; the website (`post_answer`,
    `scrape_day_page_for_answers`), the `ruff` formatter and the settings
    file are parameters; git commits are recorded as a list of requests. */
module Aoc {
  import opened Wrappers
  import PyStr
  import AocUtils
  import ContextCommand

  // ----- context choice -----

  /** The (year, day) of the session: the persisted context when there is
      one, whatever pair it holds (it is not validated again), otherwise the
      latest puzzle at the current UTC instant, which has unlocked and is
      the latest puzzle that has. */
  function ResolveContext(persisted: Option<(int, int)>, nowUtc: AocUtils.DateTime): (r: (int, int))
    requires AocUtils.Valid(nowUtc)
    ensures persisted.Some? ==> r == persisted.value
    ensures persisted.None? ==> r == AocUtils.LatestPuzzleDate(nowUtc)
    ensures persisted.None? ==> AocUtils.Unlocked(r.0, r.1, AocUtils.ToEst(nowUtc))
    ensures persisted.None? ==> forall y, d :: AocUtils.Unlocked(y, d, AocUtils.ToEst(nowUtc)) ==>
      AocUtils.NotLater(y, d, r.0, r.1)
  {
    AocUtils.LatestIsGreatestUnlocked(AocUtils.ToEst(nowUtc), 0, 0);
    match persisted
    case Some(context) => context
    case None => AocUtils.LatestPuzzleDate(nowUtc)
  }

  /** A persisted context that `context set` accepted under the same clock
      names a puzzle that has unlocked. */
  lemma ResolvedPuzzle(persisted: Option<(int, int)>, nowUtc: AocUtils.DateTime)
    requires AocUtils.Valid(nowUtc)
    requires persisted.Some? ==>
      ContextCommand.Acceptable(persisted.value.0, persisted.value.1, AocUtils.LatestPuzzleDate(nowUtc))
    ensures var (y, d) := ResolveContext(persisted, nowUtc);
      AocUtils.Unlocked(y, d, AocUtils.ToEst(nowUtc))
  {
    var est := AocUtils.ToEst(nowUtc);
    var (y, d) := ResolveContext(persisted, nowUtc);
    if persisted.Some? {
      ContextCommand.AcceptsExactlyUnlocked(y, d, est);
    }
  }

  /** The context file is used even when it holds a pair `context set` would
      refuse, such as the day 99 that `write_context(2025, 99)` stores: the
      session is then about a puzzle that never unlocks. */
  lemma UnvalidatedContextIsUsed(nowUtc: AocUtils.DateTime)
    requires AocUtils.Valid(nowUtc)
    ensures ResolveContext(Some((2025, 99)), nowUtc) == (2025, 99)
    ensures !AocUtils.Unlocked(2025, 99, AocUtils.ToEst(nowUtc))
    ensures !ContextCommand.Acceptable(2025, 99, AocUtils.LatestPuzzleDate(nowUtc))
  {
  }

  // ----- settings -----

  /** `get_bool_config_setting(key, default)` over the settings as a map. */
  function Setting(config: map<string, bool>, key: string, default: bool): bool {
    if key in config then config[key] else default
  }

  // ----- submit: the decision -----

  type Progress = map<string, map<string, int>>

  const AnswerAccepted: string := "That's the right answer!"
  const WrongLevel: string := "You don't seem to be solving the right level"
  const PassedMessage: string := "✅ PASSED"
  const InvalidPartMessage: string := "The 'part' argument for submit() must be 1 or 2."
  const UnverifiedMessage: string :=
    "⚠️" + " Puzzle already completed, but could not verify answer against AoC website."

  /** `str(_test_expected_answer)`: the expected output, "None" when unset. */
  function ExpectedText(expected: Option<string>): string {
    match expected
    case Some(e) => e
    case None => "None"
  }

  /** The reply of test mode. */
  function TestModeMessage(answer: string, expected: Option<string>): string {
    if answer == ExpectedText(expected) then PassedMessage
    else "❌ FAILED: Got '" + answer + "', but expected '" + ExpectedText(expected) + "'"
  }

  /** The stars recorded for a day, 0 when year or day is absent. */
  function DayStars(progress: Progress, year: int, day: int): int {
    var y := PyStr.IntToStr(year);
    var d := PyStr.IntToStr(day);
    if y in progress && d in progress[y] then progress[y][d] else 0
  }

  /** `progress_data["progress"]` once the year's entry exists. */
  function WithYear(progress: Progress, year: int): (r: Progress)
    ensures PyStr.IntToStr(year) in r
  {
    var y := PyStr.IntToStr(year);
    if y in progress then progress else progress[y := map[]]
  }

  /** The progress record with the day's stars set, the year's entry
      created first when it is missing. */
  function Recorded(progress: Progress, year: int, day: int, stars: int): Progress {
    var y := PyStr.IntToStr(year);
    var entry := if y in progress then progress[y] else map[];
    progress[y := entry[PyStr.IntToStr(day) := stars]]
  }

  /** The reply when the part is already solved, from the scraped answer. */
  function KnownAnswerMessage(answer: string, known: Option<string>): string {
    match known
    case None => UnverifiedMessage
    case Some(k) =>
      if answer == k then "✅ Your answer '" + answer + "' is correct!"
      else "❌ Your answer '" + answer + "' is incorrect. The correct answer was '" + k + "'."
  }

  /** What one `submit` call does, decided from its inputs: the reply, which
      of the website's services it uses, the stars it records (if it writes
      the progress file) and whether it binds the solution. */
  datatype SubmitPlan = SubmitPlan(
    message: string,
    scrapes: bool,
    posts: bool,
    newStars: Option<int>,
    binds: bool)

  /** The decision of `submit(answer, part)`.  `answer` is `str(answer)`;
      `known` is the scraped answer for this part and `response` the text
      the website returns for a posted answer; each is used only on the path
      where the source fetches it. */
  function Plan(testMode: bool, expected: Option<string>, answer: string, part: int,
                stars: int, known: Option<string>, response: string, autoBind: bool): SubmitPlan
  {
    if testMode then
      SubmitPlan(TestModeMessage(answer, expected), false, false, None, false)
    else if part != 1 && part != 2 then
      SubmitPlan(InvalidPartMessage, false, false, None, false)
    else if stars >= part then
      SubmitPlan(KnownAnswerMessage(answer, known), true, false, None, false)
    else LivePlan(part, stars, response, autoBind)
  }

  /** The decision once the answer has been posted. */
  function LivePlan(part: int, stars: int, response: string, autoBind: bool): SubmitPlan {
    var newStars := if stars >= part then stars else part;  // max(current_stars, part)
    match Classify(response)
    case Accepted => SubmitPlan("✅ " + response, false, true, Some(newStars), autoBind)
    case AlreadyCompleted => SubmitPlan(AlreadyCompletedMessage(part), false, true, Some(newStars), false)
    case Rejected => SubmitPlan("❌ " + response, false, true, None, false)
  }

  /** How the reply to a posted answer is read. */
  datatype Verdict = Accepted | AlreadyCompleted | Rejected

  /** The reply is searched for the acceptance phrase first, then for the
      "wrong level" phrase. */
  function Classify(response: string): Verdict {
    if PyStr.Contains(response, AnswerAccepted) then Accepted
    else if PyStr.Contains(response, WrongLevel) then AlreadyCompleted
    else Rejected
  }

  function AlreadyCompletedMessage(part: int): string {
    "✅ Part " + PyStr.IntToStr(part) + " has already been completed. The server did not accept the new submission."
  }

  /** The plan of one `submit` call with the website's answers looked up
      where the decision needs them. */
  function PlanFor(testMode: bool, expected: Option<string>, answer: string, part: int,
                   progress: Progress, year: int, day: int, config: map<string, bool>,
                   scrape: (int, int) -> map<int, string>, post: (int, int, int, string) -> string): SubmitPlan
  {
    var answers := scrape(year, day);
    var known := if part in answers then Some(answers[part]) else None;
    Plan(testMode, expected, answer, part, DayStars(progress, year, day), known,
         post(year, day, part, answer), Setting(config, "auto_bind", true))
  }

  /** A live submission: the branch that neither stops in test mode nor on
      an invalid or already solved part. */
  predicate Live(testMode: bool, part: int, stars: int) {
    !testMode && (part == 1 || part == 2) && stars < part
  }

  /** Test mode answers "✅ PASSED" exactly when the answer matches the
      expected output, otherwise names both; it touches nothing else. */
  lemma {:induction false} TestModeIsLocal(expected: Option<string>, answer: string, part: int,
                                           stars: int, known: Option<string>, response: string, autoBind: bool)
    ensures var p := Plan(true, expected, answer, part, stars, known, response, autoBind);
      !p.scrapes && !p.posts && p.newStars.None? && !p.binds
      && (p.message == PassedMessage <==> answer == ExpectedText(expected))
      && (p.message != PassedMessage ==>
            PyStr.Contains(p.message, answer) && PyStr.Contains(p.message, ExpectedText(expected)))
  {
    var e := ExpectedText(expected);
    var m := TestModeMessage(answer, expected);
    if answer != e {
      var head := "❌ FAILED: Got '";
      var mid := "', but expected '";
      assert m == head + answer + mid + e + "'";
      assert m[|head|..|head| + |answer|] == answer;
      assert PyStr.OccursAt(m, answer, |head|);
      PyStr.ContainsIff(m, answer);
      var at := |head| + |answer| + |mid|;
      assert m[at..at + |e|] == e;
      assert PyStr.OccursAt(m, e, at);
      PyStr.ContainsIff(m, e);
    } else {
      assert m == PassedMessage;
    }
  }

  /** Outside test mode a part other than 1 or 2 is refused with the error
      text and nothing else happens; test mode is decided first. */
  lemma InvalidPartIsRefused(expected: Option<string>, answer: string, part: int,
                             stars: int, known: Option<string>, response: string, autoBind: bool)
    requires part != 1 && part != 2
    ensures var p := Plan(false, expected, answer, part, stars, known, response, autoBind);
      p == SubmitPlan(InvalidPartMessage, false, false, None, false)
  {
  }

  /** A part already solved is checked against the scraped answer and never
      posted: "correct" on a match, "incorrect" naming the right answer on a
      mismatch, a warning when nothing could be scraped; no progress write. */
  lemma SolvedPartIsNotPosted(expected: Option<string>, answer: string, part: int,
                              stars: int, known: Option<string>, response: string, autoBind: bool)
    requires part == 1 || part == 2
    requires stars >= part
    ensures var p := Plan(false, expected, answer, part, stars, known, response, autoBind);
      p.scrapes && !p.posts && p.newStars.None? && !p.binds
      && (known == Some(answer) <==> p.message == "✅ Your answer '" + answer + "' is correct!")
      && (known.None? <==> p.message == UnverifiedMessage)
      && (known.Some? && known.value != answer ==>
            p.message == "❌ Your answer '" + answer + "' is incorrect. The correct answer was '"
                         + known.value + "'.")
  {
    var m := KnownAnswerMessage(answer, known);
    var correct := "✅ Your answer '" + answer + "' is correct!";
    assert Plan(false, expected, answer, part, stars, known, response, autoBind).message == m;
    assert UnverifiedMessage[0] == '⚠';
    assert correct[0] == '✅';
    match known
    case None =>
      assert m[0] != correct[0];
    case Some(k) =>
      if k == answer {
        assert m[0] != UnverifiedMessage[0];
      } else {
        LongerThanCorrect(answer, k, m);
        assert m[0] == '❌';
        assert m[0] != UnverifiedMessage[0];
      }
  }

  /** The "incorrect" reply is longer than the "correct" one for the same
      answer, so the two never coincide. */
  lemma LongerThanCorrect(answer: string, k: string, m: string)
    requires m == "❌ Your answer '" + answer + "' is incorrect. The correct answer was '" + k + "'."
    ensures m != "✅ Your answer '" + answer + "' is correct!"
  {
    assert |m| > |"✅ Your answer '" + answer + "' is correct!"|;
  }

  /** A live submission always posts; whatever it records is
      `max(current_stars, part)`, so no branch lowers the stars of a day. */
  lemma StarsNeverDecrease(expected: Option<string>, answer: string, part: int,
                           stars: int, known: Option<string>, response: string, autoBind: bool)
    ensures var p := Plan(false, expected, answer, part, stars, known, response, autoBind);
      (p.posts <==> Live(false, part, stars))
      && (p.newStars.Some? ==> p.newStars.value >= stars && p.newStars.value >= part)
      && (p.newStars.Some? ==> p.newStars.value == part)
  {
  }

  /** An accepted answer (its phrase is checked first) records the part's
      stars and binds the solution exactly when `autoBind` is set. */
  lemma AcceptedAnswerRecordsAndBinds(answer: string, part: int, stars: int,
                                      known: Option<string>, response: string, autoBind: bool)
    requires Live(false, part, stars)
    requires PyStr.Contains(response, AnswerAccepted)
    ensures var p := Plan(false, None, answer, part, stars, known, response, autoBind);
      p.posts && p.newStars == Some(part) && (p.binds <==> autoBind) && p.message == "✅ " + response
  {
  }

  /** The "wrong level" reply records the part's stars and never binds; any
      other reply is reported verbatim and records nothing. */
  lemma OtherRepliesDoNotBind(answer: string, part: int, stars: int,
                              known: Option<string>, response: string, autoBind: bool)
    requires Live(false, part, stars)
    requires !PyStr.Contains(response, AnswerAccepted)
    ensures var p := Plan(false, None, answer, part, stars, known, response, autoBind);
      p.posts && !p.binds
      && (PyStr.Contains(response, WrongLevel) <==> p.newStars == Some(part))
      && (!PyStr.Contains(response, WrongLevel) <==> p.message == "❌ " + response)
  {
    var p := Plan(false, None, answer, part, stars, known, response, autoBind);
    if PyStr.Contains(response, WrongLevel) {
      assert p.message[0] == '✅';
    }
  }

  /** In the "wrong level" branch the source writes only when the stored
      value differs from `max(current_stars, part)`; that branch is reached
      only with fewer stars than `part`, so the write always happens. */
  lemma WrongLevelGuardAlwaysHolds(progress: Progress, year: int, day: int, part: int)
    requires DayStars(progress, year, day) < part
    ensures StoredDay(progress, year, day) != Some(part)
  {
  }

  /** `progress[year_str].get(day_str)` after the year's entry is created. */
  function StoredDay(progress: Progress, year: int, day: int): Option<int> {
    var y := PyStr.IntToStr(year);
    var d := PyStr.IntToStr(day);
    if y in progress && d in progress[y] then Some(progress[y][d]) else None
  }

  /** A record changes the stars of that day only. */
  lemma RecordedChangesOneDay(progress: Progress, year: int, day: int, stars: int, y2: int, d2: int)
    ensures DayStars(Recorded(progress, year, day, stars), year, day) == stars
    ensures (y2, d2) != (year, day) ==>
      DayStars(Recorded(progress, year, day, stars), y2, d2) == DayStars(progress, y2, d2)
  {
    if (y2, d2) != (year, day) {
      if PyStr.IntToStr(y2) == PyStr.IntToStr(year) { PyStr.IntToStrInjective(y2, year); }
      if PyStr.IntToStr(d2) == PyStr.IntToStr(day) { PyStr.IntToStrInjective(d2, day); }
    }
  }

  // ----- bind: the destination and the archived text -----

  /** `SOLUTIONS_DIR / str(year) / f"{day:02d}" / f"part_{part}.py"`, as path
      components below the solutions directory. */
  function SolutionPath(year: int, day: int, part: int): (p: seq<string>)
    ensures |p| == 3
  {
    [PyStr.IntToStr(year), PyStr.ZeroPad2(day), "part_" + PyStr.IntToStr(part) + ".py"]
  }

  /** Different puzzles and parts are archived at different paths. */
  lemma SolutionPathInjective(y1: int, d1: int, p1: int, y2: int, d2: int, p2: int)
    requires SolutionPath(y1, d1, p1) == SolutionPath(y2, d2, p2)
    ensures y1 == y2 && d1 == d2 && p1 == p2
  {
    PyStr.IntToStrInjective(y1, y2);
    PyStr.ZeroPad2Injective(d1, d2);
    var f1 := "part_" + PyStr.IntToStr(p1) + ".py";
    var f2 := "part_" + PyStr.IntToStr(p2) + ".py";
    assert f1 == f2;
    assert PyStr.IntToStr(p1) == f1[5..|f1| - 3];
    assert PyStr.IntToStr(p2) == f2[5..|f2| - 3];
    PyStr.IntToStrInjective(p1, p2);
  }

  /** The first index at or after `i` that holds no whitespace (`|s|` if none). */
  function SkipSpaces(s: string, i: nat): (j: nat)
    requires i <= |s|
    ensures i <= j <= |s| && (j < |s| ==> !PyStr.IsSpace(s[j]))
    ensures forall k :: i <= k < j ==> PyStr.IsSpace(s[k])
    decreases |s| - i
  {
    if i < |s| && PyStr.IsSpace(s[i]) then SkipSpaces(s, i + 1) else i
  }

  /** The end of `s[..j]` once its trailing whitespace is dropped. */
  function TrimEnd(s: string, j: nat): (e: nat)
    requires j <= |s|
    ensures e <= j && (e > 0 ==> !PyStr.IsSpace(s[e - 1]))
    ensures forall k :: e <= k < j ==> PyStr.IsSpace(s[k])
  {
    if j > 0 && PyStr.IsSpace(s[j - 1]) then TrimEnd(s, j - 1) else j
  }

  /** A line the pattern `^\s*aoc\.bind\s*\(.*\)\s*$` matches: after any
      leading whitespace, `aoc.bind`, optional whitespace, an opening
      parenthesis, and a closing one as the last character that is not
      whitespace. */
  predicate IsBindLine(line: string) {
    var start := SkipSpaces(line, 0);
    var end := TrimEnd(line, |line|);
    start + 8 <= end && line[start..start + 8] == "aoc.bind"
    && var open := SkipSpaces(line, start + 8);
       open + 1 < end && line[open] == '(' && line[end - 1] == ')'
  }

  /** Each line the pattern matches is emptied; the others are kept. */
  function BlankBindLines(lines: seq<string>): (r: seq<string>)
    ensures |r| == |lines|
  {
    if lines == [] then []
    else [if IsBindLine(lines[0]) then "" else lines[0]] + BlankBindLines(lines[1..])
  }

  /** Line `k` of the result is line `k` of the input, emptied when it
      calls `aoc.bind`; so no resulting line calls it. */
  lemma {:induction false} BlankBindLinesAt(lines: seq<string>, k: nat)
    requires k < |lines|
    ensures BlankBindLines(lines)[k] == (if IsBindLine(lines[k]) then "" else lines[k])
    ensures !IsBindLine(BlankBindLines(lines)[k])
  {
    if k > 0 {
      BlankBindLinesAt(lines[1..], k - 1);
    } else {
      EmptyIsNoBindLine();
    }
  }

  lemma EmptyIsNoBindLine()
    ensures !IsBindLine("")
  {
  }

  /** The text archived from notepad content: the bind calls removed, then
      trailing whitespace stripped. */
  function CleanSolution(content: string): string {
    PyStr.RStrip(PyStr.Join("\n", BlankBindLines(PyStr.Split(content, "\n"))))
  }

  /** No line of the text before the final strip calls `aoc.bind`, the text
      has as many lines as the notepad, and the archived text ends in no
      whitespace. */
  lemma CleanedLinesHaveNoBind(content: string)
    ensures var lines := BlankBindLines(PyStr.Split(content, "\n"));
      |lines| == |PyStr.Split(content, "\n")|
      && forall k :: 0 <= k < |lines| ==> !IsBindLine(lines[k])
    ensures var r := CleanSolution(content); r == [] || !PyStr.IsSpace(r[|r| - 1])
  {
    var lines := PyStr.Split(content, "\n");
    forall k | 0 <= k < |lines| ensures !IsBindLine(BlankBindLines(lines)[k]) {
      BlankBindLinesAt(lines, k);
    }
  }

  /** A line that is no bind call is kept as it is. */
  lemma BlankKeepsOthers(lines: seq<string>)
    requires forall k :: 0 <= k < |lines| ==> !IsBindLine(lines[k])
    ensures BlankBindLines(lines) == lines
  {
    forall k | 0 <= k < |lines| ensures BlankBindLines(lines)[k] == lines[k] {
      BlankBindLinesAt(lines, k);
    }
  }

  /** A notepad without bind calls is archived as it is, apart from the
      trailing whitespace. */
  lemma CleanKeepsOtherCode(content: string)
    requires forall k :: 0 <= k < |PyStr.Split(content, "\n")| ==> !IsBindLine(PyStr.Split(content, "\n")[k])
    ensures CleanSolution(content) == PyStr.RStrip(content)
  {
    BlankKeepsOthers(PyStr.Split(content, "\n"));
    PyStr.JoinSplit(content, "\n");
  }

  /** A line that is only a bind call is archived as nothing. */
  lemma BindCallAloneIsRemoved()
    ensures CleanSolution("aoc.bind(part=1)") == ""
  {
    var line := "aoc.bind(part=1)";
    BindCallIsBindLine(line);
    SplitWithoutSep(line, "\n");
    assert BlankBindLines([line]) == [""] + BlankBindLines([]);
    assert PyStr.Join("\n", [""]) == "";
  }

  lemma BindCallIsBindLine(line: string)
    requires line == "aoc.bind(part=1)"
    ensures IsBindLine(line)
  {
    assert SkipSpaces(line, 0) == 0 && SkipSpaces(line, 8) == 8;
    assert TrimEnd(line, |line|) == |line|;
  }

  /** Text that does not contain the separator's first character splits
      into itself alone. */
  lemma SplitWithoutSep(s: string, sep: string)
    requires |sep| > 0
    requires forall i :: 0 <= i < |s| ==> s[i] != sep[0]
    ensures PyStr.Split(s, sep) == [s]
  {
    forall j ensures !PyStr.OccursAt(s, sep, j) {
      if 0 <= j && j + |sep| <= |s| {
        assert s[j..j + |sep|][0] == s[j];
      }
    }
    assert PyStr.Find(s, sep).None?;
  }

  // ----- bind: the effect on the files -----

  /** The files `bind` and `clear` touch: the notepad (`None` when
      notepad.py does not exist), the archived solutions by path, and the
      commits requested from git as (year, day, part). */
  datatype Files = Files(notepad: Option<string>, solutions: map<seq<string>, string>,
                         commits: seq<(int, int, int)>)

  /** `clear()`: empties the notepad if it exists. */
  function Cleared(f: Files): (r: Files)
    ensures r.notepad == (if f.notepad.Some? then Some("") else None)
    ensures r.solutions == f.solutions && r.commits == f.commits
  {
    if f.notepad.Some? then f.(notepad := Some("")) else f
  }

  /** The notepad after the optional `ruff format`: reformatted when the
      setting is on and the formatter succeeds, otherwise as it was. */
  function Formatted(notepad: string, config: map<string, bool>, ruff: string -> Option<string>): string {
    if Setting(config, "auto_format_on_bind", true) then
      match ruff(notepad)
      case Some(formatted) => formatted
      case None => notepad
    else notepad
  }

  /** `bind(part, overwrite)` for the puzzle (year, day). */
  function BindResult(year: int, day: int, part: int, overwrite: bool, f: Files,
                      config: map<string, bool>, ruff: string -> Option<string>): Files
  {
    if (part != 1 && part != 2) || f.notepad.None? then f
    else
      var content := Formatted(f.notepad.value, config, ruff);
      var dest := SolutionPath(year, day, part);
      if dest in f.solutions && !overwrite then f.(notepad := Some(content))
      else Archived(year, day, part, f.(notepad := Some(content)), config)
  }

  /** The part of `bind` past its guards: write the cleaned notepad to the
      solution path, then commit and clear as the settings ask. */
  function Archived(year: int, day: int, part: int, f: Files, config: map<string, bool>): Files
    requires f.notepad.Some?
  {
    var content := f.notepad.value;
    var archived := f.(solutions := f.solutions[SolutionPath(year, day, part) := CleanSolution(content)]);
    var committed := if Setting(config, "auto_commit_on_bind", false)
                     then archived.(commits := archived.commits + [(year, day, part)])
                     else archived;
    if Setting(config, "auto_clear_on_bind", false) then Cleared(committed) else committed
  }

  /** An invalid part or a missing notepad leaves every file as it was. */
  lemma BindRefusesInvalid(year: int, day: int, part: int, overwrite: bool, f: Files,
                           config: map<string, bool>, ruff: string -> Option<string>)
    requires (part != 1 && part != 2) || f.notepad.None?
    ensures BindResult(year, day, part, overwrite, f, config, ruff) == f
  {
  }

  /** An existing solution is never replaced without `overwrite`; only the
      formatting of the notepad may have happened. */
  lemma BindKeepsExisting(year: int, day: int, part: int, f: Files,
                          config: map<string, bool>, ruff: string -> Option<string>)
    requires SolutionPath(year, day, part) in f.solutions
    ensures var r := BindResult(year, day, part, false, f, config, ruff);
      r.solutions == f.solutions && r.commits == f.commits && (r.notepad.Some? <==> f.notepad.Some?)
  {
  }

  /** Otherwise exactly one solution file is written, at the puzzle's path,
      holding the cleaned (formatted) notepad; commits and clearing follow
      their settings. */
  lemma BindArchives(year: int, day: int, part: int, overwrite: bool, f: Files,
                     config: map<string, bool>, ruff: string -> Option<string>)
    requires part == 1 || part == 2
    requires f.notepad.Some?
    requires overwrite || SolutionPath(year, day, part) !in f.solutions
    ensures var r := BindResult(year, day, part, overwrite, f, config, ruff);
      var dest := SolutionPath(year, day, part);
      r.solutions == f.solutions[dest := CleanSolution(Formatted(f.notepad.value, config, ruff))]
      && (r.commits == f.commits + [(year, day, part)] <==> Setting(config, "auto_commit_on_bind", false))
      && (r.commits == f.commits <==> !Setting(config, "auto_commit_on_bind", false))
      && (Setting(config, "auto_clear_on_bind", false) ==> r.notepad == Some(""))
      && (!Setting(config, "auto_clear_on_bind", false) ==> r.notepad == Some(Formatted(f.notepad.value, config, ruff)))
  {
    var r := BindResult(year, day, part, overwrite, f, config, ruff);
    if !Setting(config, "auto_commit_on_bind", false) {
      assert |r.commits| != |f.commits + [(year, day, part)]|;
    }
  }

  /** Binding again with `overwrite=False` leaves the archive as the first
      bind left it. */
  lemma BindTwiceKeepsFirst(year: int, day: int, part: int, overwrite: bool, f: Files,
                            config: map<string, bool>, ruff: string -> Option<string>)
    requires part == 1 || part == 2
    requires f.notepad.Some?
    requires overwrite || SolutionPath(year, day, part) !in f.solutions
    ensures var once := BindResult(year, day, part, overwrite, f, config, ruff);
      BindResult(year, day, part, false, once, config, ruff).solutions == once.solutions
  {
    BindArchives(year, day, part, overwrite, f, config, ruff);
  }

  // ----- the workspace -----

  /** One puzzle session: the context and test-mode environment fixed when
      the module is loaded, and the files it works on. */
  class Workspace {
    const year: int
    const day: int
    const testMode: bool
    const expected: Option<string>
    var progress: Progress
    var notepad: Option<string>
    var solutions: map<seq<string>, string>
    var commits: seq<(int, int, int)>
    /** The requests sent to the website: scrapes as (year, day, 0), posts
        as (year, day, part), and how often the progress file was written. */
    ghost var scrapes: seq<(int, int)>
    ghost var posts: seq<(int, int, int, string)>
    ghost var progressWrites: nat

    constructor (year: int, day: int, testMode: bool, expected: Option<string>,
                 progress: Progress, notepad: Option<string>, solutions: map<seq<string>, string>)
      ensures this.year == year && this.day == day
      ensures this.testMode == testMode && this.expected == expected
      ensures this.progress == progress && this.notepad == notepad && this.solutions == solutions
      ensures commits == [] && scrapes == [] && posts == [] && progressWrites == 0
    {
      this.year := year;
      this.day := day;
      this.testMode := testMode;
      this.expected := expected;
      this.progress := progress;
      this.notepad := notepad;
      this.solutions := solutions;
      commits := [];
      scrapes := [];
      posts := [];
      progressWrites := 0;
    }

    function Snapshot(): Files
      reads this
    {
      Files(notepad, solutions, commits)
    }

    /** `clear()`. */
    method Clear()
      modifies this
      ensures Snapshot() == Cleared(old(Snapshot()))
      ensures progress == old(progress) && scrapes == old(scrapes) && posts == old(posts)
      ensures progressWrites == old(progressWrites)
    {
      if notepad.Some? {
        notepad := Some("");
      }
    }

    /** `bind(part, overwrite)`. */
    method Bind(part: int, overwrite: bool, config: map<string, bool>, ruff: string -> Option<string>)
      modifies this
      ensures Snapshot() == BindResult(year, day, part, overwrite, old(Snapshot()), config, ruff)
      ensures progress == old(progress) && scrapes == old(scrapes) && posts == old(posts)
      ensures progressWrites == old(progressWrites)
    {
      if part != 1 && part != 2 {
        return;
      }
      var dest := SolutionPath(year, day, part);
      if notepad.None? {
        return;
      }
      ghost var formattedText := Formatted(notepad.value, config, ruff);
      if Setting(config, "auto_format_on_bind", true) {
        var formatted := ruff(notepad.value);
        if formatted.Some? {
          notepad := formatted;
        }
      }
      assert notepad == Some(formattedText);
      if dest in solutions && !overwrite {
        return;
      }
      Archive(part, config);
    }

    /** The guarded body of `bind`: archive the notepad and run the
        follow-ups the settings enable. */
    method Archive(part: int, config: map<string, bool>)
      requires notepad.Some?
      modifies this
      ensures Snapshot() == Archived(year, day, part, old(Snapshot()), config)
      ensures progress == old(progress) && scrapes == old(scrapes) && posts == old(posts)
      ensures progressWrites == old(progressWrites)
    {
      var dest := SolutionPath(year, day, part);
      var content := notepad.value;
      var cleaned := CleanSolution(content);
      solutions := solutions[dest := cleaned];
      if Setting(config, "auto_commit_on_bind", false) {
        commits := commits + [(year, day, part)];
      }
      if Setting(config, "auto_clear_on_bind", false) {
        Clear();
      }
    }

    /** `write_progress_file`: the progress file now holds `data`. */
    method WriteProgress(data: Progress)
      modifies this
      ensures progress == data && progressWrites == old(progressWrites) + 1
      ensures notepad == old(notepad) && solutions == old(solutions) && commits == old(commits)
      ensures scrapes == old(scrapes) && posts == old(posts)
    {
      progress := data;
      progressWrites := progressWrites + 1;
    }

    /** `submit(answer, part)`, with `answer` already converted by `str`.
        `scrape` gives the answers the day page shows by part, `post` the
        website's reply to a posted answer. */
    method Submit(answer: string, part: int, config: map<string, bool>,
                  scrape: (int, int) -> map<int, string>,
                  post: (int, int, int, string) -> string,
                  ruff: string -> Option<string>)
      returns (message: string)
      modifies this
      ensures var p := PlanFor(testMode, expected, answer, part, old(progress), year, day, config, scrape, post);
        message == p.message
        && scrapes == old(scrapes) + (if p.scrapes then [(year, day)] else [])
        && posts == old(posts) + (if p.posts then [(year, day, part, answer)] else [])
      ensures var p := PlanFor(testMode, expected, answer, part, old(progress), year, day, config, scrape, post);
        (p.newStars.Some? ==>
           progress == Recorded(old(progress), year, day, p.newStars.value)
           && progressWrites == old(progressWrites) + 1)
        && (p.newStars.None? ==> progress == old(progress) && progressWrites == old(progressWrites))
      ensures var p := PlanFor(testMode, expected, answer, part, old(progress), year, day, config, scrape, post);
        Snapshot() == (if p.binds then BindResult(year, day, part, false, old(Snapshot()), config, ruff)
                       else old(Snapshot()))
    {
      ghost var p := PlanFor(testMode, expected, answer, part, progress, year, day, config, scrape, post);
      ghost var stars0 := DayStars(progress, year, day);
      if testMode {
        assert p.message == TestModeMessage(answer, expected) && !p.scrapes && !p.posts;
        return TestModeMessage(answer, expected);
      }
      if part != 1 && part != 2 {
        assert p == SubmitPlan(InvalidPartMessage, false, false, None, false);
        return InvalidPartMessage;
      }
      var data := progress;
      var y := PyStr.IntToStr(year);
      var d := PyStr.IntToStr(day);
      if y !in data {
        data := data[y := map[]];
      }
      assert data == WithYear(progress, year);
      var current := if d in data[y] then data[y][d] else 0;
      assert current == stars0;
      if current >= part {
        var correct := scrape(year, day);
        scrapes := scrapes + [(year, day)];
        var knownAnswer := if part in correct then Some(correct[part]) else None;
        assert p == SubmitPlan(KnownAnswerMessage(answer, knownAnswer), true, false, None, false);
        return KnownAnswerMessage(answer, knownAnswer);
      }
      var bindNow;
      message, bindNow := PostAnswer(answer, part, data, config, post);
      if bindNow {
        Bind(part, false, config, ruff);
      }
    }

    /** The live half of `submit`: post the answer, classify the reply and
        record progress, with `data` the progress record as read, the
        year's entry already created. */
    method PostAnswer(answer: string, part: int, data: Progress, config: map<string, bool>,
                      post: (int, int, int, string) -> string)
      returns (message: string, bindNow: bool)
      requires Live(testMode, part, DayStars(progress, year, day))
      requires data == WithYear(progress, year)
      modifies this
      ensures var p := LivePlan(part, DayStars(old(progress), year, day),
                                post(year, day, part, answer), Setting(config, "auto_bind", true));
        message == p.message && bindNow == p.binds
        && scrapes == old(scrapes) && posts == old(posts) + [(year, day, part, answer)]
      ensures var p := LivePlan(part, DayStars(old(progress), year, day),
                                post(year, day, part, answer), Setting(config, "auto_bind", true));
        (p.newStars.Some? ==>
           progress == Recorded(old(progress), year, day, p.newStars.value)
           && progressWrites == old(progressWrites) + 1)
        && (p.newStars.None? ==> progress == old(progress) && progressWrites == old(progressWrites))
      ensures notepad == old(notepad) && solutions == old(solutions) && commits == old(commits)
    {
      var response := post(year, day, part, answer);
      posts := posts + [(year, day, part, answer)];
      var verdict := Classify(response);
      RecordStars(verdict, part, data);
      bindNow := false;
      if verdict == Accepted {
        bindNow := Setting(config, "auto_bind", true);
        message := "✅ " + response;
      } else if verdict == AlreadyCompleted {
        message := AlreadyCompletedMessage(part);
      } else {
        message := "❌ " + response;
      }
    }

    /** The progress update after a reply to an unsolved part: the stars
        become `max(current_stars, part)`, that is `part`, unless the answer
        was rejected.  On a "wrong level" reply the source writes only when
        the stored value differs, which it always does here. */
    method RecordStars(verdict: Verdict, part: int, data: Progress)
      requires part == 1 || part == 2
      requires DayStars(progress, year, day) < part
      requires data == WithYear(progress, year)
      modifies this
      ensures verdict == Rejected ==> progress == old(progress) && progressWrites == old(progressWrites)
      ensures verdict != Rejected ==>
        progress == Recorded(old(progress), year, day, part) && progressWrites == old(progressWrites) + 1
      ensures notepad == old(notepad) && solutions == old(solutions) && commits == old(commits)
      ensures scrapes == old(scrapes) && posts == old(posts)
    {
      var y := PyStr.IntToStr(year);
      var d := PyStr.IntToStr(day);
      var current := if d in data[y] then data[y][d] else 0;
      assert current == DayStars(progress, year, day);
      var newStars := if current >= part then current else part;
      assert data[y := data[y][d := newStars]] == Recorded(progress, year, day, newStars);
      if verdict == Accepted {
        WriteProgress(data[y := data[y][d := newStars]]);
      } else if verdict == AlreadyCompleted {
        var stored := if d in data[y] then Some(data[y][d]) else None;
        assert stored == StoredDay(progress, year, day);
        WrongLevelGuardAlwaysHolds(progress, year, day, part);
        if stored != Some(newStars) {
          WriteProgress(data[y := data[y][d := newStars]]);
        }
      }
    }
  }

  /** A day solved through `submit` is not posted again: when the first
      submission records the part's stars, the second one posts nothing and
      is answered from the scraped answers. */
  method SolvedOnceIsNotPostedAgain(w: Workspace, answer: string, part: int, config: map<string, bool>,
                                    scrape: (int, int) -> map<int, string>,
                                    post: (int, int, int, string) -> string,
                                    ruff: string -> Option<string>)
    returns (recorded: bool, second: string)
    requires !w.testMode && (part == 1 || part == 2)
    modifies w
    ensures recorded <==> DayStars(old(w.progress), w.year, w.day) < part
                          && PlanFor(false, w.expected, answer, part, old(w.progress), w.year, w.day,
                                     config, scrape, post).newStars.Some?
    ensures recorded ==> w.posts == old(w.posts) + [(w.year, w.day, part, answer)]
    ensures recorded ==>
      var answers := scrape(w.year, w.day);
      second == KnownAnswerMessage(answer, if part in answers then Some(answers[part]) else None)
  {
    var before := w.progress;
    ghost var p1 := PlanFor(false, w.expected, answer, part, before, w.year, w.day, config, scrape, post);
    var first := w.Submit(answer, part, config, scrape, post, ruff);
    recorded := w.progress != before;
    if recorded {
      assert p1.newStars == Some(part);
      RecordedChangesOneDay(before, w.year, w.day, part, w.year, w.day);
      assert DayStars(w.progress, w.year, w.day) == part;
    }
    second := w.Submit(answer, part, config, scrape, post, ruff);
  }
}
