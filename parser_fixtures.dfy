/** The examples of tests/test_parsers.py, worked through the model. */
module ParserFixtures {
  import opened Wrappers
  import opened PyStr
  import opened Parsers

  /** A one-character separator is not at an index holding another character. */
  lemma NotAt(s: string, c: char, i: nat)
    requires i < |s| && s[i] != c
    ensures !OccursAt(s, [c], i)
  {
    assert s[i..i + 1][0] == s[i];
  }

  lemma StripOuter()
    ensures Strip(" a , b , c ") == "a , b , c"
  {
    assert " a , b , c " == " " + "a , b , c" + " ";
    StripOf(" ", "a , b , c", " ");
  }

  lemma StripA()
    ensures Strip("a ") == "a"
  {
    assert "a " == "" + "a" + " ";
    StripOf("", "a", " ");
  }

  lemma StripB()
    ensures Strip(" b ") == "b"
  {
    assert " b " == " " + "b" + " ";
    StripOf(" ", "b", " ");
  }

  lemma StripC()
    ensures Strip(" c") == "c"
  {
    assert " c" == " " + "c" + "";
    StripOf(" ", "c", "");
  }

  lemma SplitLast()
    ensures Split(" c", ",") == [" c"]
  {
    NotAt(" c", ',', 0);
    NotAt(" c", ',', 1);
    FindNone(" c", ",");
  }

  lemma SplitSecond()
    ensures Split(" b , c", ",") == [" b ", " c"]
  {
    var t := " b , c";
    assert t[3..4] == ",";
    NotAt(t, ',', 0);
    NotAt(t, ',', 1);
    NotAt(t, ',', 2);
    FindFirst(t, ",", 3);
    assert t[..3] == " b " && t[4..] == " c";
    SplitLast();
  }

  lemma SplitCommas()
    ensures Split("a , b , c", ",") == ["a ", " b ", " c"]
  {
    var s := "a , b , c";
    assert s[2..3] == ",";
    NotAt(s, ',', 0);
    NotAt(s, ',', 1);
    FindFirst(s, ",", 2);
    assert s[..2] == "a " && s[3..] == " b , c";
    SplitSecond();
  }

  /** `strip().split(on=",").strip()` on " a , b , c " is ["a", "b", "c"],
      one transformer at a time. */
  lemma StripExample(s: string)
    requires s == " a , b , c "
    ensures MapLeaves(StripLeaf, Str(s)) == Ok(Str("a , b , c"))
  {
    StripOuter();
  }

  lemma SplitExample(s: string)
    requires s == "a , b , c"
    ensures MapLeaves(SplitOn(","), Str(s)) == Ok(List([Str("a "), Str(" b "), Str(" c")]))
  {
    var ps := ["a ", " b ", " c"];
    assert Split(s, ",") == ps by { SplitCommas(); }
    assert Strs(ps) == [Str("a "), Str(" b "), Str(" c")];
  }

  lemma StripEachExample(vs: seq<PyValue>)
    requires vs == [Str("a "), Str(" b "), Str(" c")]
    ensures MapLeaves(StripLeaf, List(vs)) == Ok(List([Str("a"), Str("b"), Str("c")]))
  {
    var ws := [Str("a"), Str("b"), Str("c")];
    forall k | 0 <= k < 3 ensures Over(StripLeaf, vs[k], ws[k]) {
      if k == 0 { StripA(); } else if k == 1 { StripB(); } else { StripC(); }
    }
    MapLeavesOver(StripLeaf, List(vs), List(ws));
  }

  // ----- the three-block sample input -----

  const Block1 := "1" + "\n" + "2" + "\n" + "3"
  const Block2 := "a,b,c" + "\n" + "d,e,f"
  const Block3 := "#.#" + "\n" + ".#." + "\n" + "###"

  /** The sample input: numbers, comma-separated letters and a small grid,
      separated by blank lines, with a final newline. */
  const Sample := Block1 + "\n\n" + Block2 + "\n\n" + Block3 + "\n"

  /** No "\n\n" starts before index `n`. */
  predicate NoBlankBefore(s: string, n: nat)
    requires n < |s|
  {
    n == 0 || (!(s[n - 1] == '\n' && s[n] == '\n') && NoBlankBefore(s, n - 1))
  }

  lemma {:induction false} NoBlankBeforeSpec(s: string, n: nat)
    requires n < |s| && NoBlankBefore(s, n)
    ensures forall j :: 0 <= j < n ==> !OccursAt(s, "\n\n", j)
  {
    if n > 0 {
      NoBlankBeforeSpec(s, n - 1);
      assert s[n - 1..n + 1][0] == s[n - 1] && s[n - 1..n + 1][1] == s[n];
    }
  }

  /** The sample without its final newline. */
  const Body := Block1 + "\n\n" + Block2 + "\n\n" + Block3

  lemma SampleStrip()
    ensures Strip(Sample) == Body
  {
    assert Sample == "" + Body + "\n";
    assert Body[0] == Block1[0] && Body[|Body| - 1] == Block3[|Block3| - 1];
    StripOf("", Body, "\n");
  }

  lemma LastBlocks()
    ensures Split(Block2 + "\n\n" + Block3, "\n\n") == [Block2, Block3]
  {
    assert Block2 + "\n\n" == "a,b,c\nd,e,f\n\n";
    assert NoBlankBefore("a,b,c\nd,e,f\n\n", 11);
    NoBlankBeforeSpec(Block2 + "\n\n", 11);
    assert Block3 == "#.#\n.#.\n###";
    assert NoBlankBefore("#.#\n.#.\n###", 10);
    NoBlankBeforeSpec(Block3, 10);
    SplitNone(Block3, "\n\n");
    SplitConcat(Block2, "\n\n", Block3);
  }

  /** `blocks()` on the sample gives its three blocks. */
  lemma SampleBlocks()
    ensures Split(Strip(Sample), "\n\n") == [Block1, Block2, Block3]
  {
    SampleStrip();
    assert Block1 + "\n\n" == "1\n2\n3\n\n";
    assert NoBlankBefore("1\n2\n3\n\n", 5);
    NoBlankBeforeSpec(Block1 + "\n\n", 5);
    assert Body == Block1 + "\n\n" + (Block2 + "\n\n" + Block3);
    SplitConcat(Block1, "\n\n", Block2 + "\n\n" + Block3);
    LastBlocks();
  }

  lemma BlocksExample()
    ensures BlocksOf(Str(Sample)) == List([Str(Block1), Str(Block2), Str(Block3)])
  {
    SampleBlocks();
    assert Strs([Block1, Block2, Block3]) == [Str(Block1), Str(Block2), Str(Block3)];
  }

  /** The lines of each block. */
  const Lines1 := ["1", "2", "3"]
  const Lines2 := ["a,b,c", "d,e,f"]
  const Lines3 := ["#.#", ".#.", "###"]

  lemma JoinThree(a: string, b: string, c: string)
    ensures Join("\n", [a, b, c]) == a + "\n" + b + "\n" + c
  {
    JoinCons("\n", b, [c]);
    JoinCons("\n", a, [b, c]);
    assert [b] + [c] == [b, c] && [a] + [b, c] == [a, b, c];
  }

  lemma BlockLines1()
    ensures Join("\n", Lines1) == Block1
  {
    JoinThree("1", "2", "3");
  }

  lemma BlockLines2()
    ensures Join("\n", Lines2) == Block2
  {
    assert Lines2[1..] == ["d,e,f"];
  }

  lemma BlockLines3()
    ensures Join("\n", Lines3) == Block3
  {
    JoinThree("#.#", ".#.", "###");
  }

  /** Two blocks and a blank line between them. */
  lemma JoinBlank(xs: seq<string>, ys: seq<string>)
    requires |xs| >= 1 && |ys| >= 1
    ensures Join("\n", xs + [""] + ys) == Join("\n", xs) + "\n\n" + Join("\n", ys)
  {
    var x, y := Join("\n", xs), Join("\n", ys);
    JoinAppend("\n", xs, [""] + ys);
    JoinCons("\n", "", ys);
    assert xs + [""] + ys == xs + ([""] + ys);
    BlankLine(x, y);
  }

  lemma BlankLine(x: string, y: string)
    ensures x + "\n" + ("" + "\n" + y) == x + "\n\n" + y
  {
    assert "" + "\n" + y == "\n" + y;
    assert "\n" + "\n" == "\n\n";
    assert x + "\n" + ("\n" + y) == x + ("\n" + "\n") + y;
  }

  /** The lines of the sample, blank ones included. */
  const SampleLines := Lines1 + [""] + Lines2 + [""] + Lines3

  lemma SampleJoin()
    ensures Join("\n", SampleLines) == Body
  {
    BlockLines1();
    BlockLines2();
    BlockLines3();
    JoinBlank(Lines2, Lines3);
    assert SampleLines == Lines1 + [""] + (Lines2 + [""] + Lines3);
    JoinBlank(Lines1, Lines2 + [""] + Lines3);
  }

  lemma SampleSplitLines()
    ensures SplitLines(Strip(Sample)) == SampleLines
  {
    SampleStrip();
    SampleJoin();
    var xs := SampleLines;
    assert |xs| == 10 && xs[9] == "###";
    forall k | 0 <= k < 10 ensures NoLineBreak(xs[k]) {
      assert xs[k] in Lines1 || xs[k] == "" || xs[k] in Lines2 || xs[k] in Lines3;
    }
    SplitLinesJoin(xs);
  }

  /** Dropping the one blank line between two runs of non-blank lines. */
  lemma NonEmptyGap(xs: seq<string>, ys: seq<string>)
    requires forall k :: 0 <= k < |xs| ==> xs[k] != []
    requires forall k :: 0 <= k < |ys| ==> ys[k] != []
    ensures NonEmpty(xs + [""] + ys) == xs + ys
  {
    var blank: seq<string> := [""];
    assert NonEmpty(blank) == [];
    NonEmptyKeeps(xs);
    NonEmptyAppend(xs, blank);
    assert NonEmpty(xs + blank) == xs by {
      assert xs + [] == xs;
    }
    NonEmptyKeeps(ys);
    NonEmptyAppend(xs + blank, ys);
  }

  lemma SampleNonEmpty()
    ensures NonEmpty(SampleLines) == Lines1 + Lines2 + Lines3
  {
    assert forall k :: 0 <= k < |Lines1| ==> Lines1[k] != [];
    assert forall k :: 0 <= k < |Lines2| ==> Lines2[k] != [];
    assert forall k :: 0 <= k < |Lines3| ==> Lines3[k] != [];
    NonEmptyGap(Lines1, Lines2);
    NonEmptyAppend(Lines1 + [""] + Lines2, [""] + Lines3);
    NonEmptyAppend([""], Lines3);
    NonEmptyKeeps(Lines3);
    assert NonEmpty([""]) == [];
    assert SampleLines == Lines1 + [""] + Lines2 + ([""] + Lines3);
  }

  /** `lines()` on the sample: eight lines, the blank ones dropped. */
  lemma LinesExample()
    ensures LinesOf(Str(Sample)) == List(Strs(Lines1 + Lines2 + Lines3))
  {
    SampleSplitLines();
    SampleNonEmpty();
  }

  // ----- to_ints and to_grid -----

  /** `int` of a one-digit string. */
  lemma IntOfDigit(d: char)
    requires IsDigit(d)
    ensures IntLeaf(Str([d])) == Ok(Int((d as int) - ('0' as int)))
  {
    DigitNotSpace(d);
    StripTrimmed([d]);
    assert [d][..0] == [];
    assert DigitsValue([d]) == (d as int) - ('0' as int);
    assert ParseSigned([d]) == Some((d as int) - ('0' as int));
  }

  /** A string without whitespace at its ends and without line boundaries
      is one line. */
  lemma OneLine(s: string)
    requires s != [] && !IsSpace(s[0]) && !IsSpace(s[|s| - 1]) && NoLineBreak(s)
    ensures SplitLines(Strip(s)) == [s]
  {
    StripTrimmed(s);
    SplitLinesOne(s);
  }

  lemma Block1Split()
    ensures SplitLines(Strip(Block1)) == Lines1
  {
    assert Block1[0] == '1' && Block1[|Block1| - 1] == '3';
    StripTrimmed(Block1);
    BlockLines1();
    assert NoLineBreak("1") && NoLineBreak("2") && NoLineBreak("3");
    SplitLinesJoin(Lines1);
  }

  lemma Block1Lines()
    ensures LinesOf(Str(Block1)) == List([Str("1"), Str("2"), Str("3")])
  {
    Block1Split();
    NonEmptyKeeps(Lines1);
    assert Strs(Lines1) == [Str("1"), Str("2"), Str("3")];
  }

  /** `to_ints()` on ["1", "2", "3"] is [1, 2, 3]. */
  lemma ToIntsExample()
    ensures MapLeaves(IntLeaf, List([Str("1"), Str("2"), Str("3")])) == Ok(List([Int(1), Int(2), Int(3)]))
  {
    IntOfDigit('1');
    IntOfDigit('2');
    IntOfDigit('3');
    var vs := [Str("1"), Str("2"), Str("3")];
    assert IntLeaf(vs[0]) == Ok(Int(1)) && IntLeaf(vs[1]) == Ok(Int(2)) && IntLeaf(vs[2]) == Ok(Int(3));
    MapFlatList(IntLeaf, vs);
    Three(MapLeaves(IntLeaf, List(vs)).value.items);
  }

  /** `lines().to_ints()` on "1\n2\n3" is [1, 2, 3]. */
  lemma LinesToIntsExample()
    ensures MapLeaves(IntLeaf, LinesOf(Str(Block1))) == Ok(List([Int(1), Int(2), Int(3)]))
  {
    Block1Lines();
    ToIntsExample();
  }

  /** The cells `to_grid()` makes of "#.#", ".#." and "###". */
  lemma GridRows()
    ensures Chars("#.#") == [Str("#"), Str("."), Str("#")]
    ensures Chars(".#.") == [Str("."), Str("#"), Str(".")]
    ensures Chars("###") == [Str("#"), Str("#"), Str("#")]
  {
    assert Chars("#.#") == [Str("#"), Str("."), Str("#")];
    assert Chars(".#.") == [Str("."), Str("#"), Str(".")];
    assert Chars("###") == [Str("#"), Str("#"), Str("#")];
  }

  /** The grid of the to_grid example. */
  const SmallGrid := "#.#" + "\n" + ".#."

  lemma SmallGridSplit()
    ensures SplitLines(Strip(SmallGrid)) == ["#.#", ".#."]
  {
    var b := SmallGrid;
    assert b[0] == '#' && b[|b| - 1] == '.';
    StripTrimmed(b);
    JoinCons("\n", "#.#", [".#."]);
    assert NoLineBreak("#.#") && NoLineBreak(".#.");
    SplitLinesJoin(["#.#", ".#."]);
  }

  lemma Two<T>(s: seq<T>)
    requires |s| == 2
    ensures s == [s[0], s[1]]
  {
  }

  lemma Three<T>(s: seq<T>)
    requires |s| == 3
    ensures s == [s[0], s[1], s[2]]
  {
  }

  /** `to_grid()` on "#.#\n.#." is [["#", ".", "#"], [".", "#", "."]]. */
  lemma ToGridExample()
    ensures MapLeaves(GridFn(""), Str(SmallGrid)) == Ok(List([List([Str("#"), Str("."), Str("#")]), List([Str("."), Str("#"), Str(".")])]))
  {
    SmallGridSplit();
    GridSpec("", SmallGrid);
    GridRows();
    Two(GridLeaf("", Str(SmallGrid)).value.items);
  }

  lemma Block3Split()
    ensures SplitLines(Strip(Block3)) == Lines3
  {
    assert Block3[0] == '#' && Block3[|Block3| - 1] == '#';
    StripTrimmed(Block3);
    BlockLines3();
    assert NoLineBreak("#.#") && NoLineBreak(".#.") && NoLineBreak("###");
    SplitLinesJoin(Lines3);
  }

  lemma Block3Grid()
    ensures GridLeaf("", Str(Block3)) == Ok(List([List([Str("#"), Str("."), Str("#")]), List([Str("."), Str("#"), Str(".")]), List([Str("#"), Str("#"), Str("#")])]))
  {
    Block3Split();
    GridSpec("", Block3);
    GridRows();
    Three(GridLeaf("", Str(Block3)).value.items);
  }

  /** `blocks().to_grid()` on the sample: the third grid is the 3 by 3 one. */
  lemma BlocksToGridExample()
    ensures var g := MapLeaves(GridFn(""), BlocksOf(Str(Sample)));
      g.Ok? && g.value.List? && |g.value.items| == 3 &&
      g.value.items[2] == List([List([Str("#"), Str("."), Str("#")]), List([Str("."), Str("#"), Str(".")]), List([Str("#"), Str("#"), Str("#")])])
  {
    BlocksExample();
    var vs := [Str(Block1), Str(Block2), Str(Block3)];
    MapFlatList(GridFn(""), vs);
    Block3Grid();
  }
}
