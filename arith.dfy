/** Integer facts shared by the key generators: Euclidean division, the
    greatest common divisor with Bezout coefficients, and counting facts
    about sequences without repeated elements. */
module Arith {

  /** A positive integer: a worker count, a block size. */
  type Pos = n: nat | n > 0 witness 1

  // ----- multiplication and division -----

  lemma MulAtLeast(k: int, m: int)
    requires k >= 1 && m > 0
    ensures k * m >= m
  {
  }

  /** The only multiple of m strictly between -m and m is 0. */
  lemma SmallMultipleIsZero(k: int, m: int)
    requires m > 0 && -m < k * m < m
    ensures k == 0
  {
    if k >= 1 {
      MulAtLeast(k, m);
    } else if k <= -1 {
      MulAtLeast(-k, m);
    }
  }

  /** Quotient and remainder are determined by a == q * m + r, 0 <= r < m. */
  lemma DivModUnique(a: int, m: int, q: int, r: int)
    requires m > 0 && 0 <= r < m && a == q * m + r
    ensures a / m == q && a % m == r
  {
    var q', r' := a / m, a % m;
    assert (q - q') * m == r' - r;
    SmallMultipleIsZero(q - q', m);
  }

  lemma ModAddMul(a: int, k: int, m: int)
    requires m > 0
    ensures (a + k * m) % m == a % m
  {
    DivModUnique(a + k * m, m, a / m + k, a % m);
  }

  /** Reducing modulo a multiple of k leaves the remainder modulo k. */
  lemma ModModMultiple(a: int, j: int, k: int)
    requires j > 0 && k > 0
    ensures (a % (j * k)) % k == a % k
  {
    var q := a / (j * k);
    assert a % (j * k) == a + (-(q * j)) * k;
    ModAddMul(a, -(q * j), k);
  }

  /** Numbers with the same remainder keep it after multiplying both by c. */
  lemma ModMulCongruent(a: int, b: int, c: int, m: int)
    requires m > 0 && a % m == b % m
    ensures (a * c) % m == (b * c) % m
  {
    SameRemainder(a, b, m);
    var d := a / m - b / m;
    assert a * c == b * c + (d * c) * m by {
      assert a == b + d * m;
      assert (b + d * m) * c == b * c + (d * c) * m;
    }
    ModAddMul(b * c, d * c, m);
  }

  lemma MulMonoLeft(a: int, b: int, m: nat)
    requires a <= b
    ensures a * m <= b * m
  {
    assert b * m - a * m == (b - a) * m;
  }

  // ----- greatest common divisor -----

  /** Euclid's algorithm. */
  function Gcd(a: nat, b: nat): nat
    decreases b
  {
    if b == 0 then a else Gcd(b, a % b)
  }

  /** Extended Euclid: coefficients x, y with a * x + b * y == Gcd(a, b). */
  lemma {:induction false} Bezout(a: nat, b: nat) returns (x: int, y: int)
    ensures a * x + b * y == Gcd(a, b)
    decreases b
  {
    if b == 0 {
      x, y := 1, 0;
    } else {
      var q, r := a / b, a % b;
      var x', y' := Bezout(b, r);
      BezoutStep(a, b, q, r, x', y');
      x, y := y', x' - q * y';
    }
  }

  /** One step of extended Euclid: coefficients for (b, a % b) give
      coefficients for (a, b). */
  lemma BezoutStep(a: int, b: int, q: int, r: int, x: int, y: int)
    requires a == q * b + r
    ensures a * y + b * (x - q * y) == b * x + r * y
  {
    calc {
      a * y + b * (x - q * y);
      (q * b + r) * y + (b * x - b * (q * y));
      { assert (q * b + r) * y == q * b * y + r * y; }
      q * b * y + r * y + b * x - b * (q * y);
      b * x + r * y;
    }
  }

  /** Two numbers with the same remainder differ by a multiple of m. */
  lemma SameRemainder(u: int, v: int, m: int)
    requires m > 0 && u % m == v % m
    ensures u - v == (u / m - v / m) * m
  {
    assert u == (u / m) * m + u % m;
    assert v == (v / m) * m + v % m;
    assert (u / m - v / m) * m == (u / m) * m - (v / m) * m;
  }

  /** With p * x + m * y == 1, m divides d whenever m divides d * p. */
  lemma BezoutScale(d: int, p: int, m: int, x: int, y: int, q: int)
    requires p * x + m * y == 1 && d * p == q * m
    ensures d == (q * x + d * y) * m
  {
    calc {
      d;
      d * (p * x + m * y);
      (d * p) * x + (d * y) * m;
      (q * m) * x + (d * y) * m;
      { assert (q * m) * x == (q * x) * m; }
      (q * x) * m + (d * y) * m;
      (q * x + d * y) * m;
    }
  }

  /** Multiplying by p is injective modulo m when p and m are coprime:
      two values closer than m with the same image are equal. */
  lemma CoprimeCancel(p: nat, m: nat, a: int, b: int)
    requires m > 0 && Gcd(p, m) == 1
    requires (a * p) % m == (b * p) % m
    requires a - b < m && b - a < m
    ensures a == b
  {
    var x, y := Bezout(p, m);
    var q := (a * p) / m - (b * p) / m;
    SameRemainder(a * p, b * p, m);
    assert (a - b) * p == a * p - b * p;
    BezoutScale(a - b, p, m, x, y, q);
    SmallMultipleIsZero(q * x + (a - b) * y, m);
  }

  // ----- sequences without repetition -----

  predicate Distinct(s: seq<int>)
  {
    forall i, j :: 0 <= i < j < |s| ==> s[i] != s[j]
  }

  function Elements(s: seq<int>): set<int>
  {
    set x | x in s
  }

  /** The integers of [lo, hi). */
  function Interval(lo: int, hi: int): (r: set<int>)
    ensures forall x :: x in r <==> lo <= x < hi
    decreases hi - lo
  {
    if lo >= hi then {} else Interval(lo, hi - 1) + {hi - 1}
  }

  lemma {:induction false} DistinctCard(s: seq<int>)
    requires Distinct(s)
    ensures |Elements(s)| == |s|
  {
    if s != [] {
      DistinctCard(s[1..]);
      assert Elements(s) == {s[0]} + Elements(s[1..]);
      assert s[0] !in Elements(s[1..]);
    }
  }

  lemma {:induction false} IntervalCard(lo: int, hi: int)
    requires lo <= hi
    ensures |Interval(lo, hi)| == hi - lo
    decreases hi - lo
  {
    if lo < hi {
      IntervalCard(lo, hi - 1);
      assert Interval(lo, hi) == Interval(lo, hi - 1) + {hi - 1};
    } else {
      assert Interval(lo, hi) == {};
    }
  }

  lemma {:induction false} SubsetSameCard(a: set<int>, b: set<int>)
    requires a <= b && |a| == |b|
    ensures a == b
    decreases |b|
  {
    if b != {} {
      if forall y :: y !in b {
        assert false;
      }
      var x :| x in b;
      if x in a {
        SubsetSameCard(a - {x}, b - {x});
        assert a == (a - {x}) + {x};
        assert b == (b - {x}) + {x};
      } else {
        assert a <= b - {x};
        SubsetCard(a, b - {x});
      }
    }
  }

  lemma {:induction false} SubsetCard(a: set<int>, b: set<int>)
    requires a <= b
    ensures |a| <= |b|
    decreases |b|
  {
    if a != {} {
      if forall y :: y !in a {
        assert false;
      }
      var x :| x in a;
      SubsetCard(a - {x}, b - {x});
    }
  }

  /** A repetition-free sequence whose elements all lie in [lo, hi) and
      whose length is hi - lo takes every value of [lo, hi). */
  lemma Pigeonhole(s: seq<int>, lo: int, hi: int)
    requires lo <= hi && |s| == hi - lo && Distinct(s)
    requires forall i :: 0 <= i < |s| ==> lo <= s[i] < hi
    ensures Elements(s) == Interval(lo, hi)
  {
    DistinctCard(s);
    IntervalCard(lo, hi);
    SubsetSameCard(Elements(s), Interval(lo, hi));
  }

  /** A repetition-free sequence holding exactly the values of [lo, hi)
      has length hi - lo. */
  lemma DistinctIntervalLength(s: seq<int>, lo: int, hi: int)
    requires lo <= hi && Distinct(s)
    requires forall x :: x in s <==> lo <= x < hi
    ensures |s| == hi - lo
  {
    DistinctCard(s);
    IntervalCard(lo, hi);
    assert Elements(s) == Interval(lo, hi);
  }
}
