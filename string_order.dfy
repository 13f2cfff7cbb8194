/** Python's ordering of `str` values (lexicographic by code point) and
    `sorted()` over a collection of distinct strings. */
module StringOrder {

  /** `a < b` on Python strings. */
  predicate Less(a: string, b: string)
    decreases |a|
  {
    if a == [] then b != []
    else if b == [] then false
    else if a[0] != b[0] then a[0] < b[0]
    else Less(a[1..], b[1..])
  }

  lemma {:induction false} LessIrreflexive(a: string)
    ensures !Less(a, a)
    decreases |a|
  {
    if a != [] { LessIrreflexive(a[1..]); }
  }

  lemma {:induction false} LessTransitive(a: string, b: string, c: string)
    requires Less(a, b) && Less(b, c)
    ensures Less(a, c)
    decreases |a|
  {
    if a != [] && b != [] && c != [] && a[0] == b[0] && b[0] == c[0] {
      LessTransitive(a[1..], b[1..], c[1..]);
    }
  }

  /** Two different strings are ordered one way or the other. */
  lemma {:induction false} LessTotal(a: string, b: string)
    requires a != b
    ensures Less(a, b) || Less(b, a)
    decreases |a|
  {
    if a != [] && b != [] && a[0] == b[0] {
      assert a == [a[0]] + a[1..] && b == [b[0]] + b[1..];
      LessTotal(a[1..], b[1..]);
    }
  }

  lemma LessAsymmetric(a: string, b: string)
    requires Less(a, b)
    ensures !Less(b, a)
  {
    if Less(b, a) {
      LessTransitive(a, b, a);
      LessIrreflexive(a);
    }
  }

  /** Strictly ascending, hence also free of duplicates. */
  predicate Ascending(s: seq<string>) {
    forall i, j :: 0 <= i < j < |s| ==> Less(s[i], s[j])
  }

  function Reverse(s: seq<string>): (r: seq<string>)
    ensures |r| == |s| && forall i :: 0 <= i < |s| ==> r[i] == s[|s| - 1 - i]
  {
    if s == [] then [] else Reverse(s[1..]) + [s[0]]
  }

  /** Insert `x` into an ascending sequence that does not contain it. */
  function Insert(x: string, s: seq<string>): (r: seq<string>)
    requires Ascending(s) && x !in s
    ensures Ascending(r)
    ensures |r| == |s| + 1
    ensures forall y :: y in r <==> y == x || y in s
  {
    if s == [] then [x]
    else if Less(x, s[0]) then
      InsertFront(x, s);
      [x] + s
    else
      LessTotal(x, s[0]);
      var t := Insert(x, s[1..]);
      forall j | 0 <= j < |t| ensures Less(s[0], t[j]) {
        if t[j] != x {
          assert t[j] in t;
          assert t[j] in s[1..];
          var k :| 0 <= k < |s[1..]| && s[1..][k] == t[j];
          assert s[k + 1] == t[j];
        }
      }
      [s[0]] + t
  }

  lemma InsertFront(x: string, s: seq<string>)
    requires Ascending(s) && s != [] && Less(x, s[0])
    ensures Ascending([x] + s)
  {
    forall j | 0 < j < |s| ensures Less(x, s[j]) {
      LessTransitive(x, s[0], s[j]);
    }
  }

  /** `sorted(keys)`: the distinct strings of `keys` in ascending order. */
  method Sorted(keys: set<string>) returns (r: seq<string>)
    ensures Ascending(r)
    ensures |r| == |keys|
    ensures forall y :: y in r <==> y in keys
  {
    r := [];
    var rest := keys;
    while rest != {}
      invariant Ascending(r)
      invariant rest <= keys
      invariant forall y :: y in r <==> y in keys && y !in rest
      invariant |r| + |rest| == |keys|
      decreases |rest|
    {
      var x :| x in rest;
      r := Insert(x, r);
      rest := rest - {x};
    }
  }

  /** `sorted(keys, reverse=True)`: the same strings in descending order. */
  method SortedDescending(keys: set<string>) returns (r: seq<string>)
    ensures forall i, j :: 0 <= i < j < |r| ==> Less(r[j], r[i])
    ensures |r| == |keys|
    ensures forall y :: y in r <==> y in keys
  {
    var up := Sorted(keys);
    r := Reverse(up);
    forall y ensures y in r <==> y in keys {
      if y in up {
        var k :| 0 <= k < |up| && up[k] == y;
        assert r[|up| - 1 - k] == y;
      }
    }
  }
}
