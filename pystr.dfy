/** The parts of Python's `str` semantics that the helper relies on:
    `isspace`, `strip`, `split(sep)`, `splitlines`, `sep.join`, the `in`
    substring test, `str(int)` and `int(str)`.  Strings are sequences of
    Unicode scalar values, as Python's are. */
module PyStr {
  import opened Wrappers

  // ----- whitespace and strip -----

  /** The characters for which Python's `str.isspace()` holds. */
  predicate IsSpace(c: char) {
    var n := c as int;
    (9 <= n <= 13) || (28 <= n <= 32) || n == 0x85 || n == 0xA0 || n == 0x1680
    || (0x2000 <= n <= 0x200A) || n == 0x2028 || n == 0x2029 || n == 0x202F
    || n == 0x205F || n == 0x3000
  }

  /** `s.lstrip()`: drops the leading whitespace, keeps the rest verbatim. */
  function LStrip(s: string): (r: string)
    ensures |r| <= |s| && r == s[|s| - |r|..]
    ensures r == [] || !IsSpace(r[0])
    ensures forall i :: 0 <= i < |s| - |r| ==> IsSpace(s[i])
  {
    if s != [] && IsSpace(s[0]) then LStrip(s[1..]) else s
  }

  /** `s.rstrip()`: drops the trailing whitespace, keeps the rest verbatim. */
  function RStrip(s: string): (r: string)
    ensures |r| <= |s| && r == s[..|r|]
    ensures r == [] || !IsSpace(r[|r| - 1])
    ensures forall i :: |r| <= i < |s| ==> IsSpace(s[i])
  {
    if s != [] && IsSpace(s[|s| - 1]) then RStrip(s[..|s| - 1]) else s
  }

  /** `s.strip()`: a contiguous slice of `s` with whitespace neither at its
      start nor at its end, and only whitespace cut away on either side. */
  function Strip(s: string): (r: string)
    ensures StripStart(s) + |r| <= |s| && r == s[StripStart(s)..StripStart(s) + |r|]
    ensures forall k :: 0 <= k < StripStart(s) ==> IsSpace(s[k])
    ensures forall k :: StripStart(s) + |r| <= k < |s| ==> IsSpace(s[k])
    ensures r == [] || (!IsSpace(r[0]) && !IsSpace(r[|r| - 1]))
  {
    RStrip(LStrip(s))
  }

  /** Where the slice kept by `Strip(s)` starts. */
  function StripStart(s: string): nat {
    |s| - |LStrip(s)|
  }

  predicate AllSpace(s: string) {
    forall k :: 0 <= k < |s| ==> IsSpace(s[k])
  }

  /** Whitespace in front of a string that starts with none is cut away. */
  lemma {:induction false} LStripSpaces(a: string, t: string)
    requires AllSpace(a) && t != [] && !IsSpace(t[0])
    ensures LStrip(a + t) == t
    decreases |a|
  {
    if a == [] {
      assert a + t == t;
    } else {
      assert (a + t)[0] == a[0] && (a + t)[1..] == a[1..] + t;
      assert AllSpace(a[1..]) by {
        forall k | 0 <= k < |a| - 1 ensures IsSpace(a[1..][k]) {
          assert a[1..][k] == a[k + 1];
        }
      }
      LStripSpaces(a[1..], t);
    }
  }

  /** Whitespace after a string that ends with none is cut away. */
  lemma {:induction false} RStripSpaces(t: string, b: string)
    requires AllSpace(b) && t != [] && !IsSpace(t[|t| - 1])
    ensures RStrip(t + b) == t
    decreases |b|
  {
    if b == [] {
      assert t + b == t;
    } else {
      assert (t + b)[|t + b| - 1] == b[|b| - 1] && (t + b)[..|t + b| - 1] == t + b[..|b| - 1];
      var front := b[..|b| - 1];
      assert AllSpace(front) by {
        forall k | 0 <= k < |front| ensures IsSpace(front[k]) {
          assert front[k] == b[k];
        }
      }
      RStripSpaces(t, b[..|b| - 1]);
    }
  }

  /** `strip` cuts exactly the whitespace around a text with none at its
      ends. */
  lemma StripOf(a: string, m: string, b: string)
    requires AllSpace(a) && AllSpace(b)
    requires m != [] && !IsSpace(m[0]) && !IsSpace(m[|m| - 1])
    ensures Strip(a + m + b) == m
  {
    assert a + m + b == a + (m + b);
    LStripSpaces(a, m + b);
    RStripSpaces(m, b);
  }

  /** A string with no whitespace at either end is its own strip. */
  lemma StripTrimmed(s: string)
    requires s == [] || (!IsSpace(s[0]) && !IsSpace(s[|s| - 1]))
    ensures Strip(s) == s
  {
  }

  lemma StripIdempotent(s: string)
    ensures Strip(Strip(s)) == Strip(s)
  {
    StripTrimmed(Strip(s));
  }

  /** `s.strip() == ""` exactly when every character of `s` is whitespace. */
  lemma StripEmptyIff(s: string)
    ensures Strip(s) == [] <==> forall k :: 0 <= k < |s| ==> IsSpace(s[k])
  {
    var r := Strip(s);
    if r != [] {
      assert !IsSpace(s[StripStart(s)]);
    }
  }

  // ----- substring search -----

  /** `t` occurs in `s` starting at index `i`. */
  predicate OccursAt(s: string, t: string, i: int) {
    0 <= i && i + |t| <= |s| && s[i..i + |t|] == t
  }

  /** The first occurrence of `t` in `s` at or after `from` (`s.find(t, from)`,
      with `None` for Python's -1). */
  function FindFrom(s: string, t: string, from: nat): (r: Option<nat>)
    ensures r.Some? ==> from <= r.value && OccursAt(s, t, r.value)
    ensures r.Some? ==> forall j :: from <= j < r.value ==> !OccursAt(s, t, j)
    ensures r.None? ==> forall j :: from <= j ==> !OccursAt(s, t, j)
    decreases |s| - from
  {
    if from + |t| > |s| then None
    else if s[from..from + |t|] == t then Some(from)
    else FindFrom(s, t, from + 1)
  }

  function Find(s: string, t: string): Option<nat> {
    FindFrom(s, t, 0)
  }

  /** `find` gives the first occurrence. */
  lemma FindFirst(s: string, t: string, i: nat)
    requires OccursAt(s, t, i)
    requires forall j :: 0 <= j < i ==> !OccursAt(s, t, j)
    ensures Find(s, t) == Some(i)
  {
  }

  /** `find` gives nothing when there is no occurrence. */
  lemma FindNone(s: string, t: string)
    requires forall j :: 0 <= j <= |s| - |t| ==> !OccursAt(s, t, j)
    ensures Find(s, t) == None
  {
  }

  /** Python's `t in s` on strings. */
  predicate Contains(s: string, t: string) {
    Find(s, t).Some?
  }

  lemma ContainsIff(s: string, t: string)
    ensures Contains(s, t) <==> exists i :: OccursAt(s, t, i)
  {
    if exists i :: OccursAt(s, t, i) {
      var i :| OccursAt(s, t, i);
      assert 0 <= i;
    }
  }

  /** An occurrence inside a slice is an occurrence in the whole string. */
  lemma OccursInPrefix(s: string, t: string, n: nat, j: int)
    requires n <= |s| && OccursAt(s[..n], t, j)
    ensures OccursAt(s, t, j)
  {
    assert s[..n][j..j + |t|] == s[j..j + |t|];
  }

  lemma OccursInSuffix(s: string, t: string, n: nat, j: int)
    requires n <= |s| && OccursAt(s[n..], t, j)
    ensures OccursAt(s, t, n + j)
  {
    assert s[n..][j..j + |t|] == s[n + j..n + j + |t|];
  }

  /** `s.replace(pat, rep)`: every occurrence of `pat`, leftmost first and
      not overlapping, replaced by `rep`. */
  function Replace(s: string, pat: string, rep: string): string
    requires |pat| > 0
    decreases |s|
  {
    match Find(s, pat)
    case None => s
    case Some(i) => s[..i] + rep + Replace(s[i + |pat|..], pat, rep)
  }

  /** `replace` acts on the first occurrence, then on the rest. */
  lemma ReplaceConcat(a: string, pat: string, b: string, rep: string)
    requires |pat| > 0
    requires forall j :: 0 <= j < |a| ==> !OccursAt(a + pat, pat, j)
    ensures Replace(a + pat + b, pat, rep) == a + rep + Replace(b, pat, rep)
  {
    var s := a + pat + b;
    forall j | 0 <= j < |a| ensures OccursAt(s, pat, j) == OccursAt(a + pat, pat, j) {
      assert s[j..j + |pat|] == (a + pat)[j..j + |pat|];
    }
    assert s[|a|..|a| + |pat|] == pat;
    FindFirst(s, pat, |a|);
    assert s[..|a|] == a && s[|a| + |pat|..] == b;
  }

  lemma ReplaceEmpty(pat: string, rep: string)
    requires |pat| > 0
    ensures Replace([], pat, rep) == []
  {
  }

  /** A string does not hold `t` at an index whose character is not the
      first of `t`. */
  lemma NotOccursAt(s: string, t: string, i: nat)
    requires i < |s| && |t| > 0 && s[i] != t[0]
    ensures !OccursAt(s, t, i)
  {
    if i + |t| <= |s| {
      assert s[i..i + |t|][0] == s[i];
    }
  }

  // ----- split and join -----

  /** `sep.join(xs)`. */
  function Join(sep: string, xs: seq<string>): string {
    if |xs| == 0 then ""
    else if |xs| == 1 then xs[0]
    else xs[0] + sep + Join(sep, xs[1..])
  }

  /** `s.split(sep)` for a non-empty separator: cut at each occurrence of
      `sep`, leftmost first, occurrences not overlapping; empty pieces kept. */
  function Split(s: string, sep: string): (r: seq<string>)
    requires |sep| > 0
    ensures |r| >= 1
    decreases |s|
  {
    match Find(s, sep)
    case None => [s]
    case Some(i) => [s[..i]] + Split(s[i + |sep|..], sep)
  }

  /** `split` cuts at the first occurrence, then splits the rest. */
  lemma SplitAt(s: string, sep: string, i: nat)
    requires |sep| > 0 && OccursAt(s, sep, i)
    requires forall j :: 0 <= j < i ==> !OccursAt(s, sep, j)
    ensures Split(s, sep) == [s[..i]] + Split(s[i + |sep|..], sep)
  {
    FindFirst(s, sep, i);
  }

  lemma SplitNone(s: string, sep: string)
    requires |sep| > 0
    requires forall j :: 0 <= j <= |s| - |sep| ==> !OccursAt(s, sep, j)
    ensures Split(s, sep) == [s]
  {
    FindNone(s, sep);
  }

  /** When `sep` first occurs in `a + sep + b` right after `a`, the split
      gives `a` and then the pieces of `b`. */
  lemma SplitConcat(a: string, sep: string, b: string)
    requires |sep| > 0
    requires forall j :: 0 <= j < |a| ==> !OccursAt(a + sep, sep, j)
    ensures Split(a + sep + b, sep) == [a] + Split(b, sep)
  {
    var s := a + sep + b;
    forall j | 0 <= j < |a| ensures OccursAt(s, sep, j) == OccursAt(a + sep, sep, j) {
      assert s[j..j + |sep|] == (a + sep)[j..j + |sep|];
    }
    assert s[|a|..|a| + |sep|] == sep;
    SplitAt(s, sep, |a|);
    assert s[..|a|] == a && s[|a| + |sep|..] == b;
  }

  lemma {:induction false} JoinAppend(sep: string, xs: seq<string>, ys: seq<string>)
    requires |xs| >= 1 && |ys| >= 1
    ensures Join(sep, xs + ys) == Join(sep, xs) + sep + Join(sep, ys)
    decreases |xs|
  {
    if |xs| == 1 {
      JoinCons(sep, xs[0], ys);
      assert [xs[0]] + ys == xs + ys;
    } else {
      JoinAppend(sep, xs[1..], ys);
      JoinCons(sep, xs[0], xs[1..] + ys);
      assert [xs[0]] + (xs[1..] + ys) == xs + ys;
      JoinCons(sep, xs[0], xs[1..]);
      assert [xs[0]] + xs[1..] == xs;
    }
  }

  /** Joining the pieces back with the separator gives the original string. */
  lemma JoinCons(sep: string, a: string, xs: seq<string>)
    requires |xs| >= 1
    ensures Join(sep, [a] + xs) == a + sep + Join(sep, xs)
  {
    assert ([a] + xs)[1..] == xs;
  }

  lemma {:induction false} JoinSplit(s: string, sep: string)
    requires |sep| > 0
    ensures Join(sep, Split(s, sep)) == s
    decreases |s|
  {
    match Find(s, sep)
    case None =>
    case Some(i) =>
      var rest := s[i + |sep|..];
      var pieces := Split(rest, sep);
      assert Split(s, sep) == [s[..i]] + pieces;
      JoinSplit(rest, sep);
      JoinCons(sep, s[..i], pieces);
      assert s[i..i + |sep|] == sep;
      assert s == s[..i] + sep + rest;
  }

  /** No piece of a split contains the separator. */
  lemma {:induction false} SplitPiecesFree(s: string, sep: string)
    requires |sep| > 0
    ensures forall k :: 0 <= k < |Split(s, sep)| ==> !Contains(Split(s, sep)[k], sep)
    decreases |s|
  {
    match Find(s, sep)
    case None =>
      ContainsIff(s, sep);
    case Some(i) =>
      var rest := s[i + |sep|..];
      SplitPiecesFree(rest, sep);
      var r := Split(s, sep);
      assert r == [s[..i]] + Split(rest, sep);
      ContainsIff(s[..i], sep);
      if Contains(s[..i], sep) {
        var j :| OccursAt(s[..i], sep, j);
        OccursInPrefix(s, sep, i, j);
      }
      forall k | 0 <= k < |r| ensures !Contains(r[k], sep) {
        if k > 0 { assert r[k] == Split(rest, sep)[k - 1]; }
      }
  }

  // ----- splitlines -----

  /** The line boundaries of Python's `str.splitlines()`; "\r\n" counts as one. */
  predicate IsLineBreak(c: char) {
    var n := c as int;
    (10 <= n <= 13) || (28 <= n <= 30) || n == 0x85 || n == 0x2028 || n == 0x2029
  }

  predicate NoLineBreak(s: string) {
    forall j :: 0 <= j < |s| ==> !IsLineBreak(s[j])
  }

  /** The index of the first line boundary at or after `from`, or `|s|`. */
  function BreakFrom(s: string, from: nat): (i: nat)
    requires from <= |s|
    ensures from <= i <= |s| && (i < |s| ==> IsLineBreak(s[i]))
    ensures forall j :: from <= j < i ==> !IsLineBreak(s[j])
    decreases |s| - from
  {
    if from == |s| || IsLineBreak(s[from]) then from else BreakFrom(s, from + 1)
  }

  /** The first line boundary is the one `BreakFrom` finds. */
  lemma BreakFirst(s: string, i: nat)
    requires i <= |s| && (i < |s| ==> IsLineBreak(s[i]))
    requires forall j :: 0 <= j < i ==> !IsLineBreak(s[j])
    ensures BreakFrom(s, 0) == i
  {
  }

  /** `s.splitlines()`: the lines without their boundaries; a final boundary
      does not start an extra empty line. */
  function SplitLines(s: string): (r: seq<string>)
    ensures forall k :: 0 <= k < |r| ==> NoLineBreak(r[k])
    ensures s == [] <==> r == []
    decreases |s|
  {
    if s == [] then []
    else
      var i := BreakFrom(s, 0);
      if i == |s| then [s]
      else
        var skip := if s[i] == '\r' && i + 1 < |s| && s[i + 1] == '\n' then 2 else 1;
        [s[..i]] + SplitLines(s[i + skip..])
  }

  /** `splitlines` cuts at the first "\n", then splits the rest. */
  lemma SplitLinesAt(s: string, i: nat)
    requires i < |s| && s[i] == '\n' && NoLineBreak(s[..i])
    ensures SplitLines(s) == [s[..i]] + SplitLines(s[i + 1..])
  {
    assert forall j :: 0 <= j < i ==> s[..i][j] == s[j];
    BreakFirst(s, i);
  }

  /** A line without boundaries, then "\n", then the rest. */
  lemma SplitLinesCons(line: string, rest: string)
    requires NoLineBreak(line)
    ensures SplitLines(line + "\n" + rest) == [line] + SplitLines(rest)
  {
    var s := line + "\n" + rest;
    assert s[..|line|] == line && s[|line| + 1..] == rest;
    SplitLinesAt(s, |line|);
  }

  lemma SplitLinesOne(s: string)
    requires s != [] && NoLineBreak(s)
    ensures SplitLines(s) == [s]
  {
    BreakFirst(s, |s|);
  }

  /** Lines without boundaries, the last one not empty, joined with "\n"
      are split back into the same lines. */
  lemma {:induction false} SplitLinesJoin(xs: seq<string>)
    requires xs != [] && xs[|xs| - 1] != []
    requires forall k :: 0 <= k < |xs| ==> NoLineBreak(xs[k])
    ensures SplitLines(Join("\n", xs)) == xs
    decreases |xs|
  {
    if |xs| == 1 {
      SplitLinesOne(xs[0]);
    } else {
      var tail := xs[1..];
      assert tail[|tail| - 1] == xs[|xs| - 1];
      assert forall k :: 0 <= k < |tail| ==> tail[k] == xs[k + 1];
      SplitLinesJoin(tail);
      JoinCons("\n", xs[0], tail);
      assert [xs[0]] + tail == xs;
      SplitLinesCons(xs[0], Join("\n", tail));
    }
  }

  /** A string whose only line boundaries are '\n' and that does not end in
      one is recovered by joining its lines with "\n". */
  lemma {:induction false} JoinSplitLines(s: string)
    requires forall j :: 0 <= j < |s| && IsLineBreak(s[j]) ==> s[j] == '\n'
    requires s == [] || s[|s| - 1] != '\n'
    ensures Join("\n", SplitLines(s)) == s
    decreases |s|
  {
    if s != [] {
      var i := BreakFrom(s, 0);
      if i < |s| {
        var rest := s[i + 1..];
        assert s[i] == '\n';
        assert rest != [];
        JoinSplitLines(rest);
        assert SplitLines(s) == [s[..i]] + SplitLines(rest);
        assert s == s[..i] + "\n" + rest;
      }
    }
  }

  /** The elements of `xs` that are not empty, in order (the `if line`
      filter of a comprehension). */
  function NonEmpty(xs: seq<string>): (r: seq<string>)
    ensures |r| <= |xs|
    ensures forall k :: 0 <= k < |r| ==> r[k] != []
  {
    if xs == [] then []
    else if xs[0] == [] then NonEmpty(xs[1..])
    else [xs[0]] + NonEmpty(xs[1..])
  }

  /** The lines kept are the non-empty ones, every one of them. */
  lemma {:induction false} NonEmptyMembers(xs: seq<string>)
    ensures forall x :: x in NonEmpty(xs) <==> x in xs && x != []
  {
    if xs != [] {
      NonEmptyMembers(xs[1..]);
      assert xs == [xs[0]] + xs[1..];
    }
  }

  lemma {:induction false} NonEmptyAppend(xs: seq<string>, ys: seq<string>)
    ensures NonEmpty(xs + ys) == NonEmpty(xs) + NonEmpty(ys)
    decreases |xs|
  {
    if xs == [] {
      assert xs + ys == ys;
    } else {
      assert (xs + ys)[1..] == xs[1..] + ys;
      NonEmptyAppend(xs[1..], ys);
    }
  }

  /** With no empty string to drop, the filter keeps everything. */
  lemma {:induction false} NonEmptyKeeps(xs: seq<string>)
    requires forall k :: 0 <= k < |xs| ==> xs[k] != []
    ensures NonEmpty(xs) == xs
    decreases |xs|
  {
    if xs != [] {
      NonEmptyKeeps(xs[1..]);
    }
  }

  // ----- integers -----

  predicate IsDigit(c: char) {
    '0' as int <= c as int <= '9' as int
  }

  lemma DigitNotSpace(c: char)
    requires IsDigit(c) || c == '-'
    ensures !IsSpace(c)
  {
  }

  function DigitChar(d: int): (c: char)
    requires 0 <= d < 10
    ensures IsDigit(c) && (c as int) - ('0' as int) == d
  {
    (('0' as int) + d) as char
  }

  /** `str(n)` for `n >= 0`: decimal digits, no leading zero. */
  function NatToStr(n: nat): (r: string)
    ensures |r| >= 1 && (forall j :: 0 <= j < |r| ==> IsDigit(r[j]))
    ensures |r| > 1 ==> r[0] != '0'
    ensures n < 10 <==> |r| == 1
  {
    if n < 10 then [DigitChar(n)] else NatToStr(n / 10) + [DigitChar(n % 10)]
  }

  /** `str(n)` for any integer. */
  function IntToStr(n: int): (r: string)
    ensures |r| >= 1 && forall j :: 0 <= j < |r| ==> IsDigit(r[j]) || (j == 0 && r[j] == '-')
    ensures r[0] == '-' <==> n < 0
  {
    if n < 0 then "-" + NatToStr(-n) else NatToStr(n)
  }

  /** `f"{n:02d}"`: at least two characters, zero-padded after the sign. */
  function ZeroPad2(n: int): (r: string)
    ensures |r| >= 2
    ensures 0 <= n < 10 ==> r == "0" + IntToStr(n)
  {
    if 0 <= n < 10 then "0" + IntToStr(n)
    else
      assert n >= 10 ==> |NatToStr(n)| > 1;
      IntToStr(n)
  }

  lemma {:induction false} ZeroPad2Injective(m: int, n: int)
    requires ZeroPad2(m) == ZeroPad2(n)
    ensures m == n
  {
    ZeroPad2Lead(m);
    ZeroPad2Lead(n);
    if 0 <= m < 10 {
      assert IntToStr(m) == ZeroPad2(m)[1..];
      IntToStrInjective(m, n);
    } else {
      IntToStrInjective(m, n);
    }
  }

  /** Only the padded single digits start with '0'. */
  lemma ZeroPad2Lead(n: int)
    ensures ZeroPad2(n)[0] == '0' <==> 0 <= n < 10
  {
    if n >= 10 {
      assert NatToStr(n)[0] != '0';
    } else if n < 0 {
      assert IntToStr(n)[0] == '-';
    }
  }

  /** The value of a string of decimal digits. */
  function DigitsValue(s: string): nat
    requires forall j :: 0 <= j < |s| ==> IsDigit(s[j])
  {
    if s == [] then 0
    else
      var last := s[|s| - 1];
      assert IsDigit(last);
      10 * DigitsValue(s[..|s| - 1]) + ((last as int) - ('0' as int))
  }

  predicate AllDigits(s: string) {
    |s| > 0 && forall j :: 0 <= j < |s| ==> IsDigit(s[j])
  }

  /** `int(s)` restricted to an optional sign and ASCII decimal digits,
      with surrounding whitespace allowed; `None` where Python raises
      `ValueError`. */
  function ParseInt(s: string): Option<int> {
    ParseSigned(Strip(s))
  }

  /** `int` of a string with no surrounding whitespace. */
  function ParseSigned(t: string): Option<int> {
    if |t| > 0 && (t[0] == '-' || t[0] == '+') then
      if AllDigits(t[1..]) then
        var v: int := DigitsValue(t[1..]);
        Some(if t[0] == '-' then -v else v)
      else None
    else if AllDigits(t) then Some(DigitsValue(t))
    else None
  }

  lemma {:induction false} DigitsValueNatToStr(n: nat)
    ensures DigitsValue(NatToStr(n)) == n
  {
    if n >= 10 {
      DigitsValueNatToStr(n / 10);
      var s := NatToStr(n);
      assert s[..|s| - 1] == NatToStr(n / 10);
    }
  }

  lemma ParseSignedDigits(d: string)
    requires AllDigits(d)
    ensures ParseSigned(d) == Some(DigitsValue(d) as int)
    ensures ParseSigned("-" + d) == Some(-(DigitsValue(d) as int))
  {
    assert ("-" + d)[1..] == d;
  }

  /** A string without surrounding whitespace parses as it stands. */
  lemma ParseTrimmed(s: string)
    requires s != [] && !IsSpace(s[0]) && !IsSpace(s[|s| - 1])
    ensures ParseInt(s) == ParseSigned(s)
  {
    StripTrimmed(s);
  }

  /** `int(str(n)) == n`. */
  lemma ParseIntToStr(n: int)
    ensures ParseInt(IntToStr(n)) == Some(n)
  {
    var m: nat := if n < 0 then -n else n;
    var d := NatToStr(m);
    var s := IntToStr(n);
    DigitsValueNatToStr(m);
    ParseSignedDigits(d);
    DigitNotSpace(s[0]);
    DigitNotSpace(d[|d| - 1]);
    assert s[|s| - 1] == d[|d| - 1];
    ParseTrimmed(s);
  }

  /** `str` on integers is injective. */
  lemma IntToStrInjective(m: int, n: int)
    requires IntToStr(m) == IntToStr(n)
    ensures m == n
  {
    ParseIntToStr(m);
    ParseIntToStr(n);
  }
}
