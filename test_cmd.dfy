/** The `aoc test` commands of src/aoc/cli_commands/test.py: the saved test
    cases of the current puzzle, one list per part, and the commands that add,
    list, delete and run them.

    The cache file of the puzzle is a `TestStore` object; the editor and the
    prompt are parameters; so are the two regular-expression searches that
    find the part in the notepad and the runs of the notepad on each case. */
module TestCommand {
  import opened Wrappers
  import opened PyStr

  /** A saved case: the puzzle input and the expected output. */
  datatype TestCase = TestCase(input: string, output: string)

  /** The part a case belongs to (`click.Choice(["1", "2"])`). */
  type Part = p: int | p == 1 || p == 2 witness 1

  function Other(part: Part): Part {
    if part == 1 then 2 else 1
  }

  /** No whitespace at either end of `s`. */
  predicate Trimmed(s: string) {
    s == [] || (!IsSpace(s[0]) && !IsSpace(s[|s| - 1]))
  }

  /** Both texts of the case have no whitespace at their ends. */
  predicate Stripped(c: TestCase) {
    Trimmed(c.input) && Trimmed(c.output)
  }

  /** Trimmed texts are exactly those `strip` leaves as they are. */
  lemma TrimmedIff(s: string)
    ensures Trimmed(s) <==> Strip(s) == s
  {
    if Trimmed(s) {
      StripTrimmed(s);
    }
  }

  predicate AllStripped(cases: seq<TestCase>) {
    forall k :: 0 <= k < |cases| ==> Stripped(cases[k])
  }

  /** `cases.pop(i)`: the list without its element at `i`, the others in
      their order. */
  function Removed(cases: seq<TestCase>, i: nat): (r: seq<TestCase>)
    requires i < |cases|
    ensures |r| == |cases| - 1
    ensures forall k :: 0 <= k < i ==> r[k] == cases[k]
    ensures forall k :: i <= k < |r| ==> r[k] == cases[k + 1]
  {
    cases[..i] + cases[i + 1..]
  }

  /** Removing takes away exactly one copy of the element removed. */
  lemma RemovedMultiset(cases: seq<TestCase>, i: nat)
    requires i < |cases|
    ensures multiset(Removed(cases, i)) == multiset(cases) - multiset{cases[i]}
  {
    assert cases == cases[..i] + [cases[i]] + cases[i + 1..];
  }

  /** Deleting the case just added (its number is the new length) gives the
      list back. */
  lemma RemoveAppended(cases: seq<TestCase>, c: TestCase)
    ensures Removed(cases + [c], |cases|) == cases
  {
  }

  /** Removing keeps every remaining case stripped. */
  lemma RemovedStripped(cases: seq<TestCase>, i: nat)
    requires i < |cases|
    ensures AllStripped(cases) ==> AllStripped(Removed(cases, i))
  {
  }

  /** A case made by `add` is stripped. */
  lemma NewCaseStripped(input: string, output: string)
    ensures Stripped(TestCase(Strip(input), Strip(output)))
  {
  }

  datatype AddOutcome = Added | Aborted
  datatype DeleteOutcome = Deleted | NoSuchCase

  /** One line of `test list`: the part, the case's 1-based number and the
      case. */
  datatype Entry = Entry(part: Part, number: nat, test: TestCase)

  /** What `test list` shows: the "No test cases found" message, or the
      cases. */
  datatype Listing = NoCases | Cases(entries: seq<Entry>)

  /** The line `test run` looks for in the output of a run. */
  const PassedMarker: string := "✅ PASSED"

  /** The run of one case counts as passed when it completed and its
      stripped standard output contains the marker; `None` is a run that
      raised an exception. */
  predicate Passed(stdout: Option<string>) {
    stdout.Some? && Contains(Strip(stdout.value), PassedMarker)
  }

  /** The outputs of running the notepad on each case, in order. */
  function Outputs(execute: TestCase -> Option<string>, tests: seq<TestCase>): (r: seq<Option<string>>)
    ensures |r| == |tests| && forall k :: 0 <= k < |tests| ==> r[k] == execute(tests[k])
    decreases |tests|
  {
    if tests == [] then [] else Outputs(execute, tests[..|tests| - 1]) + [execute(tests[|tests| - 1])]
  }

  /** How many elements of `xs` satisfy `pass` (`passed_count`). */
  function CountIf<T>(pass: T -> bool, xs: seq<T>): nat
    decreases |xs|
  {
    if xs == [] then 0
    else CountIf(pass, xs[..|xs| - 1]) + (if pass(xs[|xs| - 1]) then 1 else 0)
  }

  /** At most every element is counted, and every one is exactly when the
      count is the length. */
  lemma {:induction false} CountIfBounds<T>(pass: T -> bool, xs: seq<T>)
    ensures CountIf(pass, xs) <= |xs|
    ensures CountIf(pass, xs) == |xs| <==> forall k :: 0 <= k < |xs| ==> pass(xs[k])
    decreases |xs|
  {
    if xs != [] {
      var front := xs[..|xs| - 1];
      CountIfBounds(pass, front);
      assert forall k :: 0 <= k < |front| ==> front[k] == xs[k];
    }
  }

  /** The part `test run` takes: the one of an `aoc.submit(..., part=N)`
      call when the notepad holds one, otherwise the one of an
      `aoc.bind(part=N)` call. */
  function DetectPart(content: string, submitMatch: string -> Option<Part>, bindMatch: string -> Option<Part>): (r: Option<Part>)
    ensures submitMatch(content).Some? ==> r == submitMatch(content)
    ensures submitMatch(content).None? ==> r == bindMatch(content)
  {
    match submitMatch(content)
    case Some(p) => Some(p)
    case None => bindMatch(content)
  }

  /** A part is found exactly when one of the two calls is in the notepad. */
  lemma DetectPartFound(content: string, submitMatch: string -> Option<Part>, bindMatch: string -> Option<Part>)
    ensures DetectPart(content, submitMatch, bindMatch).Some? <==> submitMatch(content).Some? || bindMatch(content).Some?
  {
  }

  /** What `test run` reports. */
  datatype RunReport =
    | NotepadMissing
    | NoPartFound
    | NoTests(part: Part)
    | Summary(part: Part, passed: nat, total: nat, allPassed: bool)

  /** The saved cases of one puzzle. */
  class TestStore {
    var part1: seq<TestCase>
    var part2: seq<TestCase>

    /** The store as read from the cache file.  The file may hold any
        cases; the empty store of a missing file, and a file holding only
        stripped cases, give a valid store, which `Add` and `Delete` keep
        valid. */
    constructor (part1: seq<TestCase>, part2: seq<TestCase>)
      ensures this.part1 == part1 && this.part2 == part2
      ensures AllStripped(part1) && AllStripped(part2) ==> Valid()
      ensures part1 == [] && part2 == [] ==> Valid()
    {
      this.part1 := part1;
      this.part2 := part2;
    }

    /** `tests_data[f"part_{part}"]`. */
    function Of(part: Part): seq<TestCase>
      reads this
    {
      if part == 1 then part1 else part2
    }

    /** Every saved case is stripped, as `add` stores them. */
    predicate Valid()
      reads this
    {
      AllStripped(part1) && AllStripped(part2)
    }

    /** `test add`: `editorInput` is what the editor returned (`None` when
        it was closed without saving) and `expected` the answer to the
        prompt.  The case is appended, stripped, to its part's list. */
    method Add(part: Part, editorInput: Option<string>, expected: string) returns (r: AddOutcome)
      modifies this
      ensures editorInput.None? ==> r == Aborted && part1 == old(part1) && part2 == old(part2)
      ensures editorInput.Some? ==> r == Added
      ensures editorInput.Some? ==>
        Of(part) == old(Of(part)) + [TestCase(Strip(editorInput.value), Strip(expected))]
      ensures Of(Other(part)) == old(Of(Other(part)))
      ensures old(Valid()) ==> Valid()
    {
      if editorInput.None? {
        return Aborted;
      }
      var c := TestCase(Strip(editorInput.value), Strip(expected));
      NewCaseStripped(editorInput.value, expected);
      if part == 1 {
        part1 := part1 + [c];
      } else {
        part2 := part2 + [c];
      }
      r := Added;
    }

    /** `test delete`: `index` is the 1-based number of the case.  A number
        outside the list is reported and nothing is written. */
    method Delete(part: Part, index: int) returns (r: DeleteOutcome)
      modifies this
      ensures r == Deleted <==> 1 <= index <= |old(Of(part))|
      ensures r == NoSuchCase ==> part1 == old(part1) && part2 == old(part2)
      ensures r == Deleted ==> Of(part) == Removed(old(Of(part)), index - 1)
      ensures Of(Other(part)) == old(Of(Other(part)))
      ensures old(Valid()) ==> Valid()
    {
      var listIndex := index - 1;
      if !(0 <= listIndex < |Of(part)|) {
        return NoSuchCase;
      }
      if part == 1 {
        RemovedStripped(part1, listIndex);
        part1 := Removed(part1, listIndex);
      } else {
        RemovedStripped(part2, listIndex);
        part2 := Removed(part2, listIndex);
      }
      r := Deleted;
    }

    /** `test list`: the message when there are no cases at all, otherwise
        the cases of part 1 and then those of part 2, numbered from 1. */
    method List() returns (r: Listing)
      ensures r == NoCases <==> |part1| + |part2| == 0
      ensures r.Cases? ==> |r.entries| == |part1| + |part2|
      ensures r.Cases? ==> forall k :: 0 <= k < |part1| ==> r.entries[k] == Entry(1, k + 1, part1[k])
      ensures r.Cases? ==> forall k :: 0 <= k < |part2| ==> r.entries[|part1| + k] == Entry(2, k + 1, part2[k])
    {
      if |part1| + |part2| == 0 {
        return NoCases;
      }
      var entries: seq<Entry> := [];
      for i := 0 to |part1|
        invariant |entries| == i
        invariant forall k :: 0 <= k < i ==> entries[k] == Entry(1, k + 1, part1[k])
      {
        entries := entries + [Entry(1, i + 1, part1[i])];
      }
      for i := 0 to |part2|
        invariant |entries| == |part1| + i
        invariant forall k :: 0 <= k < |part1| ==> entries[k] == Entry(1, k + 1, part1[k])
        invariant forall k :: 0 <= k < i ==> entries[|part1| + k] == Entry(2, k + 1, part2[k])
      {
        entries := entries + [Entry(2, i + 1, part2[i])];
      }
      r := Cases(entries);
    }

    /** `test run`: `notepad` is the notepad's text (`None` when the file
        does not exist), `submitMatch` and `bindMatch` the part captured by
        the two searches of the notepad, and `execute` the standard output
        of the notepad run on a case (`None` when the run raised). */
    method Run(notepad: Option<string>, submitMatch: string -> Option<Part>, bindMatch: string -> Option<Part>,
               execute: TestCase -> Option<string>) returns (r: RunReport)
      ensures notepad.None? ==> r == NotepadMissing
      ensures notepad.Some? && DetectPart(notepad.value, submitMatch, bindMatch).None? ==> r == NoPartFound
      ensures notepad.Some? && DetectPart(notepad.value, submitMatch, bindMatch).Some? ==>
        var part := DetectPart(notepad.value, submitMatch, bindMatch).value;
        var passed := CountIf(Passed, Outputs(execute, Of(part)));
        (Of(part) == [] ==> r == NoTests(part)) &&
        (Of(part) != [] ==> r == Summary(part, passed, |Of(part)|, passed == |Of(part)|))
      ensures r.Summary? ==> r.passed <= r.total
      ensures r.Summary? ==> (r.allPassed <==> forall k :: 0 <= k < |Of(r.part)| ==> Passed(execute(Of(r.part)[k])))
    {
      if notepad.None? {
        return NotepadMissing;
      }
      var found := DetectPart(notepad.value, submitMatch, bindMatch);
      if found.None? {
        return NoPartFound;
      }
      var part := found.value;
      var tests := Of(part);
      if tests == [] {
        return NoTests(part);
      }
      var passedCount := 0;
      for i := 0 to |tests|
        invariant passedCount == CountIf(Passed, Outputs(execute, tests[..i]))
      {
        assert tests[..i + 1][..i] == tests[..i];
        if Passed(execute(tests[i])) {
          passedCount := passedCount + 1;
        }
      }
      assert tests[..|tests|] == tests;
      var outputs := Outputs(execute, tests);
      CountIfBounds(Passed, outputs);
      r := Summary(part, passedCount, |tests|, passedCount == |tests|);
    }
  }

  /** The life of a case as in tests/test_cli_test.py: added to an empty
      part 1, listed, run by a notepad that submits for part 1 and passes,
      then deleted again. */
  method Lifecycle(store: TestStore, input: string, expected: string, notepad: string,
                   submitMatch: string -> Option<Part>, bindMatch: string -> Option<Part>,
                   execute: TestCase -> Option<string>)
    returns (added: AddOutcome, listing: Listing, report: RunReport, deleted: DeleteOutcome)
    requires store.part1 == []
    requires submitMatch(notepad) == Some(1)
    requires Passed(execute(TestCase(Strip(input), Strip(expected))))
    modifies store
    ensures added == Added && deleted == Deleted
    ensures listing.Cases? && |listing.entries| >= 1
    ensures listing.entries[0] == Entry(1, 1, TestCase(Strip(input), Strip(expected)))
    ensures report == Summary(1, 1, 1, true)
    ensures store.part1 == [] && store.part2 == old(store.part2)
  {
    var c := TestCase(Strip(input), Strip(expected));
    added := store.Add(1, Some(input), expected);
    assert store.part1 == [c];
    listing := store.List();
    report := store.Run(Some(notepad), submitMatch, bindMatch, execute);
    assert Outputs(execute, [c]) == [execute(c)];
    assert CountIf(Passed, [execute(c)]) == CountIf(Passed, []) + 1;
    deleted := store.Delete(1, 1);
  }
}
