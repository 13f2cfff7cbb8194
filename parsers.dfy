/** `InputParser` of src/aoc/parsers.py: a parser holds one Python value
    (at first the raw puzzle text) and each transformer replaces it.
    Element-wise transformers walk nested lists and tuples and apply a
    function to everything else. */
module Parsers {
  import opened Wrappers
  import opened PyStr

  /** The Python values a parser can hold. */
  datatype PyValue = Str(s: string) | Int(i: int) | List(items: seq<PyValue>) | Tuple(items: seq<PyValue>)

  /** The exceptions an element function can raise. */
  datatype PyError = ValueError | AttributeError | TypeError

  type LeafFn = PyValue -> Result<PyValue, PyError>

  function Strs(xs: seq<string>): (r: seq<PyValue>)
    ensures |r| == |xs| && forall k :: 0 <= k < |xs| ==> r[k] == Str(xs[k])
  {
    seq(|xs|, k requires 0 <= k < |xs| => Str(xs[k]))
  }

  // ----- _apply_to_elements -----

  /** `_apply_to_elements(func, v)`: lists and tuples are rebuilt element by
      element, anything else is handed to `f`; the first exception raised,
      left to right, ends the walk. */
  function MapLeaves(f: LeafFn, v: PyValue): Result<PyValue, PyError>
    decreases v
  {
    match v
    case List(items) =>
      (match MapAll(f, items) case Ok(ws) => Ok(List(ws)) case Err(e) => Err(e))
    case Tuple(items) =>
      (match MapAll(f, items) case Ok(ws) => Ok(Tuple(ws)) case Err(e) => Err(e))
    case _ => f(v)
  }

  function MapAll(f: LeafFn, vs: seq<PyValue>): Result<seq<PyValue>, PyError>
    decreases vs
  {
    if vs == [] then Ok([])
    else
      match MapLeaves(f, vs[0])
      case Err(e) => Err(e)
      case Ok(w) =>
        match MapAll(f, vs[1..])
        case Err(e) => Err(e)
        case Ok(ws) => Ok([w] + ws)
  }

  /** `w` has the shape of `v` (a list where `v` has a list, a tuple where it
      has a tuple, with as many elements) and holds `f`'s result at each
      other position. */
  ghost predicate Over(f: LeafFn, v: PyValue, w: PyValue)
    decreases v
  {
    match v
    case List(items) => w.List? && OverAll(f, items, w.items)
    case Tuple(items) => w.Tuple? && OverAll(f, items, w.items)
    case _ => f(v) == Ok(w)
  }

  ghost predicate OverAll(f: LeafFn, vs: seq<PyValue>, ws: seq<PyValue>)
    decreases vs
  {
    |vs| == |ws| && forall k :: 0 <= k < |vs| ==> Over(f, vs[k], ws[k])
  }

  /** The walk succeeds with `w` exactly when `w` is `v` with `f` applied
      at its leaves and its lists and tuples kept. */
  lemma {:induction false} MapLeavesOver(f: LeafFn, v: PyValue, w: PyValue)
    ensures MapLeaves(f, v) == Ok(w) <==> Over(f, v, w)
    decreases v
  {
    match v
    case List(items) =>
      if w.List? { MapAllOver(f, items, w.items); } else { MapAllOk(f, items); }
    case Tuple(items) =>
      if w.Tuple? { MapAllOver(f, items, w.items); } else { MapAllOk(f, items); }
    case _ =>
  }

  lemma {:induction false} MapAllOver(f: LeafFn, vs: seq<PyValue>, ws: seq<PyValue>)
    ensures MapAll(f, vs) == Ok(ws) <==> OverAll(f, vs, ws)
    decreases vs
  {
    if vs != [] {
      MapAllOk(f, vs);
      if ws != [] {
        MapLeavesOver(f, vs[0], ws[0]);
        MapAllOver(f, vs[1..], ws[1..]);
        if OverAll(f, vs, ws) {
          assert OverAll(f, vs[1..], ws[1..]) by {
            forall k | 0 <= k < |vs| - 1 ensures Over(f, vs[1..][k], ws[1..][k]) {
              assert Over(f, vs[k + 1], ws[k + 1]);
            }
          }
          assert ws == [ws[0]] + ws[1..];
        }
        if MapAll(f, vs) == Ok(ws) {
          forall k | 0 <= k < |vs| ensures Over(f, vs[k], ws[k]) {
            if k > 0 { assert vs[k] == vs[1..][k - 1] && ws[k] == ws[1..][k - 1]; }
          }
        }
      }
    }
  }

  lemma {:induction false} MapAllOk(f: LeafFn, vs: seq<PyValue>)
    ensures MapAll(f, vs).Ok? ==> |MapAll(f, vs).value| == |vs|
    decreases vs
  {
    if vs != [] {
      MapAllOk(f, vs[1..]);
    }
  }

  /** On a flat list of leaves on which `f` does not raise, the walk is
      `f` applied to each element. */
  lemma MapFlatList(f: LeafFn, vs: seq<PyValue>)
    requires forall k :: 0 <= k < |vs| ==> !vs[k].List? && !vs[k].Tuple? && f(vs[k]).Ok?
    ensures var r := MapLeaves(f, List(vs));
      r.Ok? && r.value.List? && |r.value.items| == |vs| &&
      forall k :: 0 <= k < |vs| ==> r.value.items[k] == f(vs[k]).value
  {
    var ws := seq(|vs|, k requires 0 <= k < |vs| => f(vs[k]).value);
    assert OverAll(f, vs, ws);
    MapLeavesOver(f, List(vs), List(ws));
  }

  /** The positions `f` is applied at, left to right. */
  function Leaves(v: PyValue): seq<PyValue>
    decreases v
  {
    match v
    case List(items) => LeavesAll(items)
    case Tuple(items) => LeavesAll(items)
    case _ => [v]
  }

  function LeavesAll(vs: seq<PyValue>): seq<PyValue>
    decreases vs
  {
    if vs == [] then [] else Leaves(vs[0]) + LeavesAll(vs[1..])
  }

  /** The exception of the first leaf on which `f` raises. */
  function FirstError(f: LeafFn, ls: seq<PyValue>): Option<PyError> {
    if ls == [] then None
    else if f(ls[0]).Err? then Some(f(ls[0]).error)
    else FirstError(f, ls[1..])
  }

  lemma {:induction false} FirstErrorAppend(f: LeafFn, a: seq<PyValue>, b: seq<PyValue>)
    ensures FirstError(f, a + b) == if FirstError(f, a).Some? then FirstError(f, a) else FirstError(f, b)
    decreases |a|
  {
    if a == [] {
      assert a + b == b;
    } else {
      assert (a + b)[1..] == a[1..] + b;
      FirstErrorAppend(f, a[1..], b);
    }
  }

  /** The walk raises exactly when `f` raises on some leaf, and then with
      the exception of the first such leaf. */
  lemma {:induction false} MapLeavesError(f: LeafFn, v: PyValue)
    ensures MapLeaves(f, v).Err? <==> FirstError(f, Leaves(v)).Some?
    ensures MapLeaves(f, v).Err? ==> MapLeaves(f, v).error == FirstError(f, Leaves(v)).value
    decreases v
  {
    match v
    case List(items) => MapAllError(f, items);
    case Tuple(items) => MapAllError(f, items);
    case _ =>
      assert Leaves(v) == [v];
  }

  lemma {:induction false} MapAllError(f: LeafFn, vs: seq<PyValue>)
    ensures MapAll(f, vs).Err? <==> FirstError(f, LeavesAll(vs)).Some?
    ensures MapAll(f, vs).Err? ==> MapAll(f, vs).error == FirstError(f, LeavesAll(vs)).value
    decreases vs
  {
    if vs != [] {
      MapLeavesError(f, vs[0]);
      MapAllError(f, vs[1..]);
      FirstErrorAppend(f, Leaves(vs[0]), LeavesAll(vs[1..]));
    }
  }

  // ----- the element functions -----

  /** `s.split(on)`: an `AttributeError` on a non-string, a `ValueError`
      for an empty separator. */
  function SplitLeaf(on: string, v: PyValue): (r: Result<PyValue, PyError>)
    ensures r.Ok? <==> v.Str? && on != []
    ensures r.Ok? ==> r.value == List(Strs(Split(v.s, on)))
  {
    if !v.Str? then Err(AttributeError)
    else if on == [] then Err(ValueError)
    else Ok(List(Strs(Split(v.s, on))))
  }

  /** `s.strip()`. */
  function StripLeaf(v: PyValue): (r: Result<PyValue, PyError>)
    ensures r.Ok? <==> v.Str?
    ensures r.Ok? ==> r.value == Str(Strip(v.s))
  {
    if v.Str? then Ok(Str(Strip(v.s))) else Err(AttributeError)
  }

  /** `int(v)`: integers are kept, strings are parsed, containers raise
      `TypeError`. */
  function IntLeaf(v: PyValue): (r: Result<PyValue, PyError>)
    ensures r.Ok? ==> r.value.Int?
    ensures v.Int? ==> r == Ok(v)
    ensures v.Str? ==> (r.Ok? <==> ParseInt(v.s).Some?)
    ensures v.Str? && r.Ok? ==> r.value.i == ParseInt(v.s).value
  {
    match v
    case Int(_) => Ok(v)
    case Str(s) => (match ParseInt(s) case Some(n) => Ok(Int(n)) case None => Err(ValueError))
    case _ => Err(TypeError)
  }

  /** One character string per character of `line` (`list(line)`). */
  function Chars(line: string): (r: seq<PyValue>)
    ensures |r| == |line| && forall k :: 0 <= k < |line| ==> r[k] == Str([line[k]])
  {
    seq(|line|, k requires 0 <= k < |line| => Str([line[k]]))
  }

  /** The row `to_grid` makes of one line. */
  function GridRow(delimiter: string, line: string): PyValue {
    if delimiter == [] then List(Chars(line)) else List(Strs(Split(line, delimiter)))
  }

  /** `_grid_parser(block)`: the lines of the stripped block, each a row. */
  function GridLeaf(delimiter: string, v: PyValue): (r: Result<PyValue, PyError>)
    ensures r.Ok? <==> v.Str?
  {
    if v.Str? then
      var lines := SplitLines(Strip(v.s));
      Ok(List(seq(|lines|, k requires 0 <= k < |lines| => GridRow(delimiter, lines[k]))))
    else Err(AttributeError)
  }

  function SplitOn(on: string): LeafFn {
    v => SplitLeaf(on, v)
  }

  function GridFn(delimiter: string): LeafFn {
    v => GridLeaf(delimiter, v)
  }

  // ----- lines and blocks -----

  /** The new data of `lines()`. */
  function LinesOf(v: PyValue): PyValue {
    if v.Str? then List(Strs(NonEmpty(SplitLines(Strip(v.s))))) else v
  }

  /** The new data of `blocks()`. */
  function BlocksOf(v: PyValue): PyValue {
    if v.Str? then List(Strs(Split(Strip(v.s), "\n\n"))) else v
  }

  /** `lines()` on text gives its non-empty lines, none holding a line
      boundary, and misses no non-empty line of the stripped text. */
  lemma LinesSpec(s: string)
    ensures LinesOf(Str(s)).List?
    ensures forall x :: x in LinesOf(Str(s)).items ==> x.Str? && x.s != [] && NoLineBreak(x.s) && x.s in SplitLines(Strip(s))
    ensures forall l :: l in SplitLines(Strip(s)) && l != [] ==> Str(l) in LinesOf(Str(s)).items
  {
    var ls := SplitLines(Strip(s));
    var ne := NonEmpty(ls);
    NonEmptyMembers(ls);
    forall x | x in LinesOf(Str(s)).items
      ensures x.Str? && x.s != [] && NoLineBreak(x.s) && x.s in ls
    {
      var k :| 0 <= k < |ne| && Strs(ne)[k] == x;
      assert ne[k] in ne;
      var j :| 0 <= j < |ls| && ls[j] == ne[k];
    }
    forall l | l in ls && l != [] ensures Str(l) in LinesOf(Str(s)).items {
      assert l in ne;
      var k :| 0 <= k < |ne| && ne[k] == l;
      assert Strs(ne)[k] == Str(l);
    }
  }

  /** `blocks()` on text: joining the blocks with a blank line gives the
      stripped text back, and no block holds a blank line. */
  lemma BlocksSpec(s: string)
    ensures BlocksOf(Str(s)).List? && |BlocksOf(Str(s)).items| >= 1
    ensures forall x :: x in BlocksOf(Str(s)).items ==> x.Str? && !Contains(x.s, "\n\n")
    ensures Join("\n\n", Split(Strip(s), "\n\n")) == Strip(s)
  {
    var bs := Split(Strip(s), "\n\n");
    JoinSplit(Strip(s), "\n\n");
    SplitPiecesFree(Strip(s), "\n\n");
    forall x | x in BlocksOf(Str(s)).items ensures x.Str? && !Contains(x.s, "\n\n") {
      var k :| 0 <= k < |bs| && Strs(bs)[k] == x;
    }
  }

  /** `lines()` and `blocks()` leave data that is not a string alone. */
  lemma LinesBlocksKeepNonText(v: PyValue)
    requires !v.Str?
    ensures LinesOf(v) == v && BlocksOf(v) == v
  {
  }

  /** `to_grid()` on one block: a row per line of the stripped block; with
      the default delimiter a row holds the line's characters one by one,
      otherwise its pieces split on the delimiter. */
  lemma GridSpec(delimiter: string, b: string)
    ensures GridLeaf(delimiter, Str(b)).Ok?
    ensures var g := GridLeaf(delimiter, Str(b)).value; var lines := SplitLines(Strip(b));
      g.List? && |g.items| == |lines| &&
      forall k :: 0 <= k < |lines| ==>
        (delimiter == [] ==> g.items[k] == List(Chars(lines[k]))) &&
        (delimiter != [] ==> g.items[k] == List(Strs(Split(lines[k], delimiter))))
  {
  }

  // ----- the parser -----

  class InputParser {
    var data: PyValue

    /** `InputParser(data)`. */
    constructor (input: string)
      ensures data == Str(input)
    {
      data := Str(input);
    }

    /** `lines()`. */
    method Lines() returns (self: InputParser)
      modifies this
      ensures self == this && data == LinesOf(old(data))
    {
      data := LinesOf(data);
      self := this;
    }

    /** `blocks()`. */
    method Blocks() returns (self: InputParser)
      modifies this
      ensures self == this && data == BlocksOf(old(data))
    {
      data := BlocksOf(data);
      self := this;
    }

    /** `apply(func)`: the data replaced by the element-wise result, or,
        when `f` raises, left as it was and the exception passed on. */
    method Apply(f: LeafFn) returns (r: Result<InputParser, PyError>)
      modifies this
      ensures MapLeaves(f, old(data)).Ok? ==> r == Ok(this) && data == MapLeaves(f, old(data)).value
      ensures MapLeaves(f, old(data)).Err? ==> r == Err(MapLeaves(f, old(data)).error) && data == old(data)
    {
      match MapLeaves(f, data)
      case Ok(w) =>
        data := w;
        r := Ok(this);
      case Err(e) =>
        r := Err(e);
    }

    /** `split(on)`. */
    method Split(on: string) returns (r: Result<InputParser, PyError>)
      modifies this
      ensures MapLeaves(SplitOn(on), old(data)).Ok? ==> r == Ok(this) && data == MapLeaves(SplitOn(on), old(data)).value
      ensures MapLeaves(SplitOn(on), old(data)).Err? ==> r == Err(MapLeaves(SplitOn(on), old(data)).error) && data == old(data)
    {
      r := Apply(SplitOn(on));
    }

    /** `strip()`. */
    method Strip() returns (r: Result<InputParser, PyError>)
      modifies this
      ensures MapLeaves(StripLeaf, old(data)).Ok? ==> r == Ok(this) && data == MapLeaves(StripLeaf, old(data)).value
      ensures MapLeaves(StripLeaf, old(data)).Err? ==> r == Err(MapLeaves(StripLeaf, old(data)).error) && data == old(data)
    {
      r := Apply(StripLeaf);
    }

    /** `to_ints()`. */
    method ToInts() returns (r: Result<InputParser, PyError>)
      modifies this
      ensures MapLeaves(IntLeaf, old(data)).Ok? ==> r == Ok(this) && data == MapLeaves(IntLeaf, old(data)).value
      ensures MapLeaves(IntLeaf, old(data)).Err? ==> r == Err(MapLeaves(IntLeaf, old(data)).error) && data == old(data)
    {
      r := Apply(IntLeaf);
    }

    /** `get()`: the data as it stands; the parser is not changed. */
    method Get() returns (r: PyValue)
      ensures r == data
    {
      r := data;
    }

    /** `to_grid(delimiter)`: a grid per string element; the parser is not
        changed. */
    method ToGrid(delimiter: string) returns (r: Result<PyValue, PyError>)
      ensures r == MapLeaves(GridFn(delimiter), data)
    {
      r := MapLeaves(GridFn(delimiter), data);
    }
  }
}
