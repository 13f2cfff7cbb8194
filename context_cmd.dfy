/** The `aoc context` command group of src/aoc/cli_commands/context.py:
    `set` validates a puzzle date against the latest unlocked puzzle and
    saves it, `show` reports the saved context, `clear` removes it.  The
    saved context file is modelled as an `Option` of a (year, day) pair,
    the latest puzzle date as an input, the console as a list of lines. */
module ContextCommand {
  import opened Wrappers
  import PyStr
  import AocUtils

  type Context = (int, int)

  /** What one command leaves behind: the persisted context, the lines it
      printed, and whether it ended in `click.Abort`. */
  datatype Outcome = Outcome(stored: Option<Context>, output: seq<string>, aborted: bool)

  /** The three ways `context set` refuses a date, in the order it checks them. */
  datatype SetError =
    | YearOutOfRange(latestYear: int)
    | DayOutOfRange
    | NotYetAvailable(year: int, day: int, latestYear: int, latestDay: int)

  /** The dates `context set` accepts: a puzzle day of a year since 2015
      that is no later than the latest unlocked puzzle. */
  predicate Acceptable(year: int, day: int, latest: Context) {
    2015 <= year && 1 <= day <= 25 && AocUtils.NotLater(year, day, latest.0, latest.1)
  }

  /** The validation of `context_set`: the first check that fails, if any. */
  function Validate(year: int, day: int, latest: Context): Option<SetError> {
    var (latestYear, latestDay) := latest;
    if !(2015 <= year <= latestYear) then Some(YearOutOfRange(latestYear))
    else if !(1 <= day <= 25) then Some(DayOutOfRange)
    else if year == latestYear && day > latestDay then
      Some(NotYetAvailable(year, day, latestYear, latestDay))
    else None
  }

  /** The chain of checks accepts exactly the acceptable dates. */
  lemma ValidateAccepts(year: int, day: int, latest: Context)
    ensures Validate(year, day, latest).None? <==> Acceptable(year, day, latest)
  {
  }

  /** Each refusal names the first requirement the date breaks: the year
      range before the day range, both before availability. */
  lemma ValidateReportsFirstFailure(year: int, day: int, latest: Context)
    ensures Validate(year, day, latest) == Some(YearOutOfRange(latest.0))
      <==> !(2015 <= year <= latest.0)
    ensures Validate(year, day, latest) == Some(DayOutOfRange)
      <==> 2015 <= year <= latest.0 && !(1 <= day <= 25)
    ensures (Validate(year, day, latest).Some? && Validate(year, day, latest).value.NotYetAvailable?)
      <==> 2015 <= year <= latest.0 && 1 <= day <= 25 && year == latest.0 && day > latest.1
  {
  }

  /** When the latest date comes from `get_latest_puzzle_date`, the accepted
      dates are exactly the puzzles since 2015 that have unlocked. */
  lemma AcceptsExactlyUnlocked(year: int, day: int, est: AocUtils.DateTime)
    requires AocUtils.Valid(est)
    ensures Acceptable(year, day, AocUtils.LatestForEst(est))
      <==> 2015 <= year && AocUtils.Unlocked(year, day, est)
  {
  }

  /** The lines printed for a refusal. */
  function ErrorLines(e: SetError): (lines: seq<string>)
    ensures 1 <= |lines| <= 2
    ensures |lines| == 2 <==> e.NotYetAvailable?
  {
    match e
    case YearOutOfRange(latestYear) =>
      ["Error: Year must be between 2015 and " + PyStr.IntToStr(latestYear) + "."]
    case DayOutOfRange =>
      ["Error: Day must be between 1 and 25."]
    case NotYetAvailable(year, day, latestYear, latestDay) =>
      ["Error: Puzzle for " + PyStr.IntToStr(year) + "-" + PyStr.ZeroPad2(day) + " is not yet available.",
       "The latest available puzzle is " + PyStr.IntToStr(latestYear) + "-" + PyStr.ZeroPad2(latestDay) + "."]
  }

  function SetMessage(year: int, day: int): string {
    "✅ Context set to Year " + PyStr.IntToStr(year) + ", Day " + PyStr.IntToStr(day) + "."
  }

  /** `aoc context set -y year -d day`, with `stored` the context saved so far. */
  function Set(stored: Option<Context>, year: int, day: int, latest: Context): (r: Outcome)
    ensures r.aborted <==> !Acceptable(year, day, latest)
    ensures r.aborted ==> r.stored == stored && r.output == ErrorLines(Validate(year, day, latest).value)
    ensures !r.aborted ==> r.stored == Some((year, day)) && r.output == [SetMessage(year, day)]
  {
    ValidateAccepts(year, day, latest);
    match Validate(year, day, latest)
    case Some(e) => Outcome(stored, ErrorLines(e), true)
    case None => Outcome(Some((year, day)), [SetMessage(year, day)], false)
  }

  /** `aoc context show`: prints, and changes nothing. */
  function Show(stored: Option<Context>): (r: Outcome)
    ensures r.stored == stored && !r.aborted
  {
    match stored
    case Some((year, day)) =>
      Outcome(stored, ["The current context is set to: Year " + PyStr.IntToStr(year) + ", Day " + PyStr.IntToStr(day)], false)
    case None =>
      Outcome(stored, ["No context is currently set.", "The tool will default to the latest available puzzle."], false)
  }

  /** `aoc context clear`: removes the saved context, whatever it was. */
  function Clear(stored: Option<Context>): (r: Outcome)
    ensures r.stored == None && !r.aborted
  {
    Outcome(None, ["✅ Context cleared.", "The tool will now default to the latest available puzzle."], false)
  }

  /** A set that succeeds makes `show` report that very date, and a
      different date reports differently. */
  lemma SetThenShow(stored: Option<Context>, year: int, day: int, latest: Context, other: Context)
    requires !Set(stored, year, day, latest).aborted
    ensures Show(Set(stored, year, day, latest).stored).output
      == ["The current context is set to: Year " + PyStr.IntToStr(year) + ", Day " + PyStr.IntToStr(day)]
    ensures other != (year, day) ==> Show(Some(other)).output != Show(Set(stored, year, day, latest).stored).output
  {
    var y := PyStr.IntToStr(year);
    var d := PyStr.IntToStr(day);
    if other != (year, day) && Show(Some(other)).output == Show(Some((year, day))).output {
      var oy := PyStr.IntToStr(other.0);
      var od := PyStr.IntToStr(other.1);
      var prefix := "The current context is set to: Year ";
      var line := prefix + y + ", Day " + d;
      assert line == prefix + oy + ", Day " + od;
      assert line[|prefix|..] == y + ", Day " + d == oy + ", Day " + od;
      NoComma(year); NoComma(other.0);
      CommaSplit(y, d, oy, od);
      PyStr.IntToStrInjective(year, other.0);
      PyStr.IntToStrInjective(day, other.1);
    }
  }

  lemma NoComma(n: int)
    ensures ',' !in PyStr.IntToStr(n)
  {
    var s := PyStr.IntToStr(n);
    forall j | 0 <= j < |s| ensures s[j] != ',' { }
  }

  /** `a + ", Day " + b` determines `a` and `b` when neither holds a comma. */
  lemma CommaSplit(a: string, b: string, c: string, d: string)
    requires ',' !in a && ',' !in c
    requires a + ", Day " + b == c + ", Day " + d
    ensures a == c && b == d
  {
    var s := a + ", Day " + b;
    // both |a| and |c| are the position of the first comma of s
    assert s[|a|] == ',' && forall k :: 0 <= k < |a| ==> s[k] == a[k];
    assert s[|c|] == ',' && forall k :: 0 <= k < |c| ==> s[k] == c[k];
    assert |a| == |c|;
    assert a == s[..|a|] == c;
    assert b == s[|a| + 6..] == d;
  }

  /** After a set is refused, the saved context and hence `show` are as before. */
  lemma RefusedSetKeepsContext(stored: Option<Context>, year: int, day: int, latest: Context)
    requires Set(stored, year, day, latest).aborted
    ensures Show(Set(stored, year, day, latest).stored) == Show(stored)
  {
  }

  /** Clearing twice is clearing once, and `show` then reports no context. */
  lemma ClearThenShow(stored: Option<Context>)
    ensures Clear(Clear(stored).stored) == Clear(stored)
    ensures Show(Clear(stored).stored).output[0] == "No context is currently set."
  {
  }
}
