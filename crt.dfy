/** `chinese_remainder_theorem` of src/aoc/tools.py, over Python's integer
    semantics: floor division and modulo, `math.prod`, `zip` truncation and
    the three-argument `pow(p, -1, n)` that raises when `p` has no inverse
    modulo `n`. */
module Crt {
  import opened Wrappers
  import opened PyInt

  /** The two exceptions the computation can raise: `ZeroDivisionError`
      from a zero modulus and `ValueError` from `pow` when no inverse
      exists. */
  datatype CrtError = ZeroModulus | NotInvertible

  // ---- division and remainder ---------------------------------------------

  /** The quotient and remainder of a division are determined by the
      dividend written as `m * q + r` with `0 <= r < m`. */
  lemma ModUnique(a: int, m: int, q: int, r: int)
    requires m > 0 && a == m * q + r && 0 <= r < m
    ensures a / m == q && a % m == r
  {
    var q0, r0 := a / m, a % m;
    MulSub(m, q, q0);
    SmallMultiple(m, q - q0, r0 - r);
  }

  lemma MulSub(m: int, q: int, q0: int)
    ensures m * q - m * q0 == m * (q - q0)
  {
  }

  /** The only multiple of `m` strictly between `-m` and `m` is 0. */
  lemma SmallMultiple(m: int, t: int, d: int)
    requires m > 0 && m * t == d && -m < d < m
    ensures t == 0
  {
    if t >= 1 {
      MulMono(m, t);
    } else if t <= -1 {
      MulMono(m, -t);
    }
  }

  lemma MulMono(m: int, t: int)
    requires m > 0 && t >= 1
    ensures m * t >= m && m * (-t) <= -m
  {
    assert m * t == m * (t - 1) + m;
  }

  /** Adding a multiple of `m` keeps the remainder. */
  lemma ModShift(a: int, c: int, m: int, k: int)
    requires m > 0 && a == c + m * k
    ensures a % m == c % m
  {
    var q, r := c / m, c % m;
    assert c == m * q + r;
    Distrib(m, q, k);
    ModUnique(a, m, q + k, r);
  }

  lemma Distrib(m: int, a: int, b: int)
    ensures m * a + m * b == m * (a + b)
  {
  }

  lemma MulMod(m: int, q: int)
    requires m > 0
    ensures (m * q) % m == 0
  {
    ModUnique(m * q, m, q, 0);
  }

  /** Python's `a // b`: the quotient rounded down. */
  function PyDiv(a: int, b: int): int
    requires b != 0
  {
    if b > 0 then a / b else (-a) / (-b)
  }

  /** Python's `a % b`: the remainder with the sign of `b`. */
  function PyMod(a: int, b: int): int
    requires b != 0
  {
    a - b * PyDiv(a, b)
  }

  /** `//` rounds down, and `%` lies between 0 and the divisor. */
  lemma PyDivSpec(a: int, b: int)
    requires b != 0
    ensures a == b * PyDiv(a, b) + PyMod(a, b)
    ensures b > 0 ==> 0 <= PyMod(a, b) < b
    ensures b < 0 ==> b < PyMod(a, b) <= 0
  {
    if b < 0 {
      var q := (-a) / (-b);
      assert -a == (-b) * q + (-a) % (-b);
      assert PyMod(a, b) == a - b * q == -((-a) % (-b));
    }
  }

  /** `x` and `y` leave the same remainder modulo `m`. */
  ghost predicate Congruent(x: int, y: int, m: int)
    requires m > 0
  {
    x % m == y % m
  }

  lemma CongruentAdd(x1: int, y1: int, x2: int, y2: int, m: int)
    requires m > 0 && Congruent(x1, y1, m) && Congruent(x2, y2, m)
    ensures Congruent(x1 + x2, y1 + y2, m)
  {
    var r, s := x1 % m, x2 % m;
    assert x1 + x2 == (r + s) + m * (x1 / m + x2 / m);
    assert y1 + y2 == (r + s) + m * (y1 / m + y2 / m);
    ModShift(x1 + x2, r + s, m, x1 / m + x2 / m);
    ModShift(y1 + y2, r + s, m, y1 / m + y2 / m);
  }

  lemma CongruentMul(x: int, y: int, c: int, m: int)
    requires m > 0 && Congruent(x, y, m)
    ensures Congruent(x * c, y * c, m)
  {
    var r := x % m;
    assert x == r + m * (x / m) && y == r + m * (y / m);
    assert x * c == r * c + m * ((x / m) * c);
    assert y * c == r * c + m * ((y / m) * c);
    ModShift(x * c, r * c, m, (x / m) * c);
    ModShift(y * c, r * c, m, (y / m) * c);
  }

  // ---- greatest common divisor and inverse --------------------------------

  /** Extended Euclid: the greatest common divisor `g` of `a` and `b` with
      coefficients `x`, `y` such that `a * x + b * y == g`. */
  function ExtGcd(a: nat, b: nat): (r: (nat, int, int))
    ensures a * r.1 + b * r.2 == r.0
    decreases b
  {
    if b == 0 then (a, 1, 0)
    else
      var (g, x, y) := ExtGcd(b, a % b);
      assert a == b * (a / b) + a % b;
      assert a * y + b * (x - (a / b) * y) == b * x + (a - b * (a / b)) * y;
      (g, y, x - (a / b) * y)
  }

  function Gcd(a: nat, b: nat): nat {
    ExtGcd(a, b).0
  }

  /** The greatest common divisor divides both numbers, and is positive
      unless both are zero. */
  lemma {:induction false} GcdDivides(a: nat, b: nat)
    ensures a > 0 || b > 0 ==> Gcd(a, b) > 0
    ensures Gcd(a, b) > 0 ==> a % Gcd(a, b) == 0 && b % Gcd(a, b) == 0
    decreases b
  {
    var g := Gcd(a, b);
    if b == 0 {
      if a > 0 {
        MulMod(a, 1);
      }
    } else {
      GcdDivides(b, a % b);
      assert g == Gcd(b, a % b);
      if a % b > 0 {
        assert g > 0;
      }
      if g > 0 {
        assert b == g * (b / g) && a % b == g * ((a % b) / g);
        assert a == b * (a / b) + a % b;
        assert a == g * ((b / g) * (a / b) + (a % b) / g);
        MulMod(g, (b / g) * (a / b) + (a % b) / g);
      }
    }
  }

  /** A common divisor of `a` and `m` divides every `a * x + m * y`, so
      when some such combination is 1 it is 1. */
  lemma CommonDivisorOfOne(a: int, m: int, x: int, y: int, d: int)
    requires d > 0 && a % d == 0 && m % d == 0 && a * x + m * y == 1
    ensures d == 1
  {
    assert a == d * (a / d) && m == d * (m / d);
    assert 1 == d * ((a / d) * x + (m / d) * y);
    MulMod(d, (a / d) * x + (m / d) * y);
    if d > 1 {
      ModUnique(1, d, 0, 1);
    }
  }

  /** `x` is an inverse of `b` modulo `m`. */
  ghost predicate IsInverse(b: int, x: int, m: int)
    requires m > 0
  {
    (b * x) % m == 1 % m
  }

  /** `pow(b, -1, m)`: the inverse in `[0, |m|)`, moved into `(m, 0]` when
      `m` is negative, or `ValueError` when there is none. */
  function Inverse(b: int, m: int): Result<int, CrtError>
    requires m != 0
  {
    var base := b % Abs(m);
    var (g, x, _) := ExtGcd(base, Abs(m));
    if g != 1 then Err(NotInvertible)
    else
      var v := x % Abs(m);
      Ok(if m < 0 && v != 0 then v - Abs(m) else v)
  }

  /** `pow` succeeds exactly when an inverse exists, and returns one. */
  lemma InverseSpec(b: int, m: int)
    requires m != 0
    ensures Inverse(b, m).Ok? ==> IsInverse(b, Inverse(b, m).value, Abs(m))
    ensures Inverse(b, m).Ok? && m > 0 ==> 0 <= Inverse(b, m).value < m
    ensures Inverse(b, m).Err? ==> forall x :: !IsInverse(b, x, Abs(m))
  {
    var mm := Abs(m);
    var base := b % mm;
    var (g, x, y) := ExtGcd(base, mm);
    assert b == base + mm * (b / mm);
    if g == 1 {
      var v := x % mm;
      assert x == v + mm * (x / mm);
      // b * v == base * x + mm * k == 1 + mm * (k - y)
      var k := (b / mm) * v - base * (x / mm);
      assert b * v == base * x + mm * k;
      assert b * v == 1 + mm * (k - y);
      ModShift(b * v, 1, mm, k - y);
      if m < 0 && v != 0 {
        assert b * (v - mm) == 1 + mm * (k - y - b);
        ModShift(b * (v - mm), 1, mm, k - y - b);
      }
    } else {
      forall x' | IsInverse(b, x', mm) ensures false {
        NoInverseWhenGcdIsNotOne(b, mm, x');
      }
    }
  }

  lemma NoInverseWhenGcdIsNotOne(b: int, mm: int, x: int)
    requires mm > 0 && IsInverse(b, x, mm)
    ensures Gcd(b % mm, mm) == 1
  {
    var base := b % mm;
    var g := Gcd(base, mm);
    GcdDivides(base, mm);
    if mm == 1 {
      ModUnique(1, 1, 1, 0);
      assert base == 0;
      assert ExtGcd(0, 1) == (1, 0, 1);
    } else {
      ModUnique(1, mm, 0, 1);
      var t := (b * x) / mm;
      assert b * x == mm * t + 1;
      assert b == base + mm * (b / mm);
      assert base * x + mm * ((b / mm) * x - t) == 1;
      CommonDivisorOfOne(base, mm, x, (b / mm) * x - t, g);
    }
  }

  // ---- the product of the moduli ------------------------------------------

  /** `math.prod(n)`: the product, 1 for an empty list. */
  function Prod(s: seq<int>): int {
    if s == [] then 1 else s[0] * Prod(s[1..])
  }

  function Without(s: seq<int>, i: nat): seq<int>
    requires i < |s|
  {
    s[..i] + s[i + 1..]
  }

  lemma {:induction false} ProdWithout(s: seq<int>, i: nat)
    requires i < |s|
    ensures Prod(s) == s[i] * Prod(Without(s, i))
  {
    if i == 0 {
      assert Without(s, 0) == s[1..];
    } else {
      ProdWithout(s[1..], i - 1);
      assert Without(s, i) == [s[0]] + Without(s[1..], i - 1);
      assert Without(s, i)[1..] == Without(s[1..], i - 1);
      assert Prod(s) == s[0] * (s[i] * Prod(Without(s[1..], i - 1)));
    }
  }

  lemma {:induction false} ProdPositive(s: seq<int>)
    requires forall k :: 0 <= k < |s| ==> s[k] > 0
    ensures Prod(s) > 0
  {
    if s != [] {
      ProdPositive(s[1..]);
    }
  }

  /** Both numbers positive and with no common factor. */
  predicate Coprime(x: int, y: int) {
    x > 0 && y > 0 && Gcd(x, y) == 1
  }

  /** Positive moduli, each two of them coprime. */
  predicate PairwiseCoprime(n: seq<int>) {
    (forall k :: 0 <= k < |n| ==> n[k] > 0)
    && forall i, j :: 0 <= i < |n| && 0 <= j < |n| && i != j ==> Coprime(n[i], n[j])
  }

  /** A product of numbers each coprime to `m` is a combination
      `Prod(s) * x + m * y == 1`. */
  lemma {:induction false} ProdBezout(s: seq<int>, m: int) returns (x: int, y: int)
    requires m > 0 && forall k :: 0 <= k < |s| ==> Coprime(s[k], m)
    ensures Prod(s) * x + m * y == 1
  {
    if s == [] {
      x, y := 1, 0;
    } else {
      var e := ExtGcd(s[0], m);
      assert s[0] * e.1 + m * e.2 == 1;
      assert forall k :: 0 <= k < |s[1..]| ==> s[1..][k] == s[k + 1];
      var x2, y2 := ProdBezout(s[1..], m);
      x, y := BezoutProduct(s[0], Prod(s[1..]), m, e.1, e.2, x2, y2);
    }
  }

  /** Two numbers each coprime to `m`, as witnessed by a combination equal
      to 1, have a product coprime to `m`. */
  lemma BezoutProduct(a: int, b: int, m: int, x1: int, y1: int, x2: int, y2: int) returns (x: int, y: int)
    requires a * x1 + m * y1 == 1 && b * x2 + m * y2 == 1
    ensures (a * b) * x + m * y == 1
  {
    var A, B := a * x1, b * x2;
    x, y := x1 * x2, A * y2 + y1 * B + m * y1 * y2;
    Rearrange(a, b, x1, x2);
    Expand(A, B, m, y1, y2);
  }

  lemma Rearrange(a: int, b: int, x1: int, x2: int)
    ensures (a * b) * (x1 * x2) == (a * x1) * (b * x2)
  {
  }

  lemma Expand(A: int, B: int, m: int, y1: int, y2: int)
    ensures (A + m * y1) * (B + m * y2) == A * B + m * (A * y2 + y1 * B + m * y1 * y2)
  {
  }

  /** A positive member of the list divides the product. */
  lemma ProdMultiple(s: seq<int>, i: nat)
    requires i < |s| && s[i] > 0
    ensures Prod(s) % s[i] == 0
  {
    ProdWithout(s, i);
    MulMod(s[i], Prod(Without(s, i)));
  }

  // ---- the fold ------------------------------------------------------------

  /** One summand `a_i * pow(p, -1, n_i) * p` with `p = prod // n_i`. */
  function Term(prod: int, ni: int, ai: int): Result<int, CrtError> {
    if ni == 0 then Err(ZeroModulus)
    else
      var p := PyDiv(prod, ni);
      match Inverse(p, ni)
      case Err(e) => Err(e)
      case Ok(v) => Ok(ai * v * p)
  }

  /** The sum over the first `k` pairs of `zip(n, a)`, or the first
      exception. */
  function Terms(n: seq<int>, a: seq<int>, prod: int, k: nat): Result<int, CrtError>
    requires k <= |n| && k <= |a|
  {
    if k == 0 then Ok(0)
    else
      match Terms(n, a, prod, k - 1)
      case Err(e) => Err(e)
      case Ok(s) =>
        match Term(prod, n[k - 1], a[k - 1])
        case Err(e) => Err(e)
        case Ok(t) => Ok(s + t)
  }

  function ZipLength(n: seq<int>, a: seq<int>): nat {
    if |n| <= |a| then |n| else |a|
  }

  /** What `chinese_remainder_theorem(n, a)` returns or raises. */
  function CrtResult(n: seq<int>, a: seq<int>): Result<int, CrtError> {
    var prod := Prod(n);
    match Terms(n, a, prod, ZipLength(n, a))
    case Err(e) => Err(e)
    case Ok(s) => if prod == 0 then Err(ZeroModulus) else Ok(PyMod(s, prod))
  }

  /** An exception stops the fold: every longer prefix raises it too. */
  lemma {:induction false} TermsErrStays(n: seq<int>, a: seq<int>, prod: int, k: nat, k2: nat)
    requires k <= k2 <= |n| && k2 <= |a| && Terms(n, a, prod, k).Err?
    ensures Terms(n, a, prod, k2) == Terms(n, a, prod, k)
    decreases k2
  {
    if k2 > k {
      TermsErrStays(n, a, prod, k, k2 - 1);
    }
  }

  /** `chinese_remainder_theorem(n, a)`. */
  method ChineseRemainder(n: seq<int>, a: seq<int>) returns (r: Result<int, CrtError>)
    ensures r == CrtResult(n, a)
  {
    var sum := 0;
    var prod := Prod(n);
    var count := ZipLength(n, a);
    for k := 0 to count
      invariant Terms(n, a, prod, k) == Ok(sum)
    {
      if n[k] == 0 {
        TermsErrStays(n, a, prod, k + 1, count);
        return Err(ZeroModulus);
      }
      var p := PyDiv(prod, n[k]);
      var inverse := Inverse(p, n[k]);
      if inverse.Err? {
        TermsErrStays(n, a, prod, k + 1, count);
        return Err(inverse.error);
      }
      sum := sum + a[k] * inverse.value * p;
    }
    if prod == 0 {
      return Err(ZeroModulus);
    }
    return Ok(PyMod(sum, prod));
  }

  /** With pairwise coprime positive moduli, `p = prod // n_j` is the
      product of the other moduli and has an inverse modulo `n_j`. */
  /** Every modulus but the `j`-th is coprime to the `j`-th. */
  lemma WithoutCoprime(n: seq<int>, j: nat)
    requires PairwiseCoprime(n) && j < |n|
    ensures n[j] > 0
    ensures forall k :: 0 <= k < |Without(n, j)| ==> Coprime(Without(n, j)[k], n[j])
  {
    var rest := Without(n, j);
    forall k | 0 <= k < |rest| ensures Coprime(rest[k], n[j]) {
      if k < j {
        assert rest[k] == n[k];
      } else {
        assert rest[k] == n[k + 1];
      }
    }
  }

  lemma TermParts(n: seq<int>, j: nat) returns (p: int, v: int)
    requires PairwiseCoprime(n) && j < |n|
    ensures p == PyDiv(Prod(n), n[j]) == Prod(Without(n, j))
    ensures Inverse(p, n[j]) == Ok(v) && IsInverse(p, v, n[j])
  {
    var rest := Without(n, j);
    WithoutCoprime(n, j);
    var x, y := ProdBezout(rest, n[j]);
    ProdWithout(n, j);
    ModUnique(Prod(n), n[j], Prod(rest), 0);
    p := Prod(rest);
    assert IsInverse(p, x, n[j]) by {
      ModShift(p * x, 1, n[j], -y);
    }
    InverseSpec(p, n[j]);
    v := Inverse(p, n[j]).value;
  }

  /** `a * v * p` is `a` modulo `m` when `v` inverts `p`. */
  lemma InverseTerm(a: int, v: int, p: int, m: int)
    requires m > 0 && IsInverse(p, v, m)
    ensures Congruent(a * v * p, a, m)
  {
    CongruentMul(p * v, 1, a, m);
    assert a * v * p == (p * v) * a;
  }

  /** `c * p` is 0 modulo `m` when `m` divides `p`. */
  lemma MultipleTerm(c: int, p: int, m: int)
    requires m > 0 && p % m == 0
    ensures Congruent(c * p, 0, m)
  {
    CongruentMul(p, 0, c, m);
    assert c * p == p * c;
  }

  /** With pairwise coprime positive moduli, no summand raises, and summand
      `j` is `a_j` modulo `n_j` and 0 modulo every other modulus. */
  lemma TermSpec(n: seq<int>, a: seq<int>, i: nat, j: nat)
    requires PairwiseCoprime(n) && i < |n| && j < |n| && j < |a|
    ensures Term(Prod(n), n[j], a[j]).Ok?
    ensures Congruent(Term(Prod(n), n[j], a[j]).value, if i == j then a[j] else 0, n[i])
  {
    var p, v := TermParts(n, j);
    assert Term(Prod(n), n[j], a[j]) == Ok(a[j] * v * p);
    if i == j {
      InverseTerm(a[j], v, p, n[j]);
    } else {
      var rest := Without(n, j);
      var ri := if i < j then i else i - 1;
      assert rest[ri] == n[i];
      ProdMultiple(rest, ri);
      MultipleTerm(a[j] * v, p, n[i]);
    }
  }

  /** The partial sum is `a_i` modulo `n_i` once pair `i` is added, 0
      before. */
  lemma {:induction false} TermsSpec(n: seq<int>, a: seq<int>, i: nat, k: nat)
    requires PairwiseCoprime(n) && i < |n| && k <= |n| && k <= |a|
    ensures Terms(n, a, Prod(n), k).Ok?
    ensures Congruent(Terms(n, a, Prod(n), k).value, if i < k then a[i] else 0, n[i])
  {
    if k == 0 {
      MulMod(n[i], 0);
    } else {
      TermsSpec(n, a, i, k - 1);
      TermSpec(n, a, i, k - 1);
      var s := Terms(n, a, Prod(n), k - 1).value;
      var t := Term(Prod(n), n[k - 1], a[k - 1]).value;
      CongruentAdd(s, if i < k - 1 then a[i] else 0, t, if i == k - 1 then a[k - 1] else 0, n[i]);
    }
  }

  /** The Chinese Remainder Theorem as the function promises it: for
      pairwise coprime positive moduli the result is a number in
      `[0, prod(n))` congruent to `a_i` modulo `n_i` for every pair that
      `zip` forms. */
  lemma CrtSolves(n: seq<int>, a: seq<int>)
    requires PairwiseCoprime(n)
    ensures CrtResult(n, a).Ok?
    ensures 0 <= CrtResult(n, a).value < Prod(n)
    ensures forall i :: 0 <= i < ZipLength(n, a) ==> CrtResult(n, a).value % n[i] == a[i] % n[i]
  {
    var prod := Prod(n);
    ProdPositive(n);
    if n != [] {
      TermsSpec(n, a, 0, ZipLength(n, a));
    }
    var s := Terms(n, a, prod, ZipLength(n, a)).value;
    PyDivSpec(s, prod);
    forall i | 0 <= i < ZipLength(n, a) ensures CrtResult(n, a).value % n[i] == a[i] % n[i] {
      TermsSpec(n, a, i, ZipLength(n, a));
      ProdWithout(n, i);
      ReduceModProduct(s, prod, n[i], Prod(Without(n, i)));
    }
  }

  /** Reducing modulo a multiple of `m` keeps the remainder modulo `m`. */
  lemma ReduceModProduct(s: int, prod: int, m: int, cofactor: int)
    requires m > 0 && prod > 0 && prod == m * cofactor
    ensures PyMod(s, prod) % m == s % m
  {
    var q := PyDiv(s, prod);
    assert s == prod * q + PyMod(s, prod);
    assert prod * q == m * (cofactor * q);
    ModShift(s, PyMod(s, prod), m, cofactor * q);
  }
}
