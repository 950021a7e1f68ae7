/** The parts of Python's string formatting and slicing that the key and
    document builders rely on: str(int), '%012d', '%12s', str * int,
    s[a:b], str.find and str.replace(c, ''). Each is stated on seq<char>
    with the behaviour Python gives it, including negative arguments. */
module PyFormat {

  import opened Arith

  predicate IsDigit(c: char)
  {
    '0' <= c <= '9'
  }

  predicate AllDigits(s: string)
  {
    forall i :: 0 <= i < |s| ==> IsDigit(s[i])
  }

  function DigitChar(d: nat): (c: char)
    requires d < 10
    ensures IsDigit(c)
  {
    ('0' as int + d) as char
  }

  function DigitValue(c: char): int
  {
    c as int - '0' as int
  }

  function Pow10(k: nat): (r: nat)
    ensures r >= 1
  {
    if k == 0 then 1 else 10 * Pow10(k - 1)
  }

  // ----- numerals -----

  /** The shortest decimal numeral of n >= 0, as str(n) writes it. */
  function Digits(n: nat): (r: string)
    ensures |r| >= 1 && AllDigits(r)
  {
    if n < 10 then [DigitChar(n)] else Digits(n / 10) + [DigitChar(n % 10)]
  }

  /** The number a string of digits denotes, read most significant first. */
  function ValueOf(s: string): int
  {
    if s == [] then 0 else ValueOf(s[..|s| - 1]) * 10 + DigitValue(s[|s| - 1])
  }

  lemma {:induction false} DigitsValue(n: nat)
    ensures ValueOf(Digits(n)) == n
  {
    if n >= 10 {
      DigitsValue(n / 10);
      var s := Digits(n);
      assert s[..|s| - 1] == Digits(n / 10);
    }
  }

  /** A number below 10^k needs at most k digits. */
  lemma {:induction false} DigitsLength(n: nat, k: nat)
    requires 1 <= k && n < Pow10(k)
    ensures |Digits(n)| <= k
  {
    if n >= 10 {
      assert k >= 2;
      DigitsLength(n / 10, k - 1);
    }
  }

  /** A number of at least 10^k needs more than k digits. */
  lemma {:induction false} DigitsLengthAtLeast(n: nat, k: nat)
    requires Pow10(k) <= n
    ensures |Digits(n)| >= k + 1
  {
    if k > 0 {
      DigitsLengthAtLeast(n / 10, k - 1);
    }
  }

  /** n copies of the character c. */
  function Fill(c: char, n: nat): (r: string)
    ensures |r| == n && forall i :: 0 <= i < n ==> r[i] == c
  {
    if n == 0 then [] else [c] + Fill(c, n - 1)
  }

  /** Right-justify s in a field of the given width, padding with c on the
      left; s is left alone when it is already as wide as the field. */
  function PadLeft(s: string, width: nat, c: char): (r: string)
    ensures |s| >= width ==> r == s
    ensures |s| < width ==> |r| == width && r[..width - |s|] == Fill(c, width - |s|)
    ensures r[|r| - |s|..] == s
  {
    if |s| >= width then s else Fill(c, width - |s|) + s
  }

  /** Leading zeros do not change the value of a numeral. */
  lemma {:induction false} LeadingZeroValue(s: string)
    ensures ValueOf(['0'] + s) == ValueOf(s)
    decreases |s|
  {
    if s != [] {
      var t := ['0'] + s;
      assert t[..|t| - 1] == ['0'] + s[..|s| - 1];
      LeadingZeroValue(s[..|s| - 1]);
    }
  }

  lemma {:induction false} LeadingZerosValue(n: nat, s: string)
    ensures ValueOf(Fill('0', n) + s) == ValueOf(s)
  {
    if n > 0 {
      var t := Fill('0', n - 1) + s;
      assert Fill('0', n) + s == ['0'] + t;
      LeadingZeroValue(t);
      LeadingZerosValue(n - 1, s);
    } else {
      assert Fill('0', n) + s == s;
    }
  }

  /** str(n) for any integer n. */
  function Str(n: int): (r: string)
    ensures |r| >= 1
    ensures n >= 0 <==> IsDigit(r[0])
    ensures n < 0 ==> r[0] == '-'
    ensures forall i :: 0 <= i < |r| ==> IsDigit(r[i]) || r[i] == '-'
  {
    if n < 0 then "-" + Digits(-n) else Digits(n)
  }

  /** '%012d' % n: the numeral zero-padded to 12 characters, the sign
      included in the width. */
  function ZeroPad12(n: int): (r: string)
    ensures |r| >= 12
    ensures n >= 0 <==> IsDigit(r[0])
  {
    if n < 0 then "-" + PadLeft(Digits(-n), 11, '0') else PadLeft(Digits(n), 12, '0')
  }

  /** int(s) for the numerals written by Str and ZeroPad12. */
  function ParseInt(s: string): int
  {
    if |s| > 0 && s[0] == '-' then -ValueOf(s[1..]) else ValueOf(s)
  }

  lemma PadLeftZerosValue(s: string, width: nat)
    ensures ValueOf(PadLeft(s, width, '0')) == ValueOf(s)
  {
    if |s| < width {
      LeadingZerosValue(width - |s|, s);
    }
  }

  lemma StrRoundTrip(n: int)
    ensures ParseInt(Str(n)) == n
  {
    if n < 0 {
      DigitsValue(-n);
      assert Str(n)[1..] == Digits(-n);
    } else {
      DigitsValue(n);
    }
  }

  lemma ZeroPad12RoundTrip(n: int)
    ensures ParseInt(ZeroPad12(n)) == n
  {
    if n < 0 {
      NegativePadRoundTrip(-n);
    } else {
      PositivePadRoundTrip(n);
    }
  }

  /** '%012d' % n reads back as n for n >= 0. */
  lemma PositivePadRoundTrip(n: nat)
    ensures ParseInt(ZeroPad12(n)) == n
  {
    var p := PadLeft(Digits(n), 12, '0');
    assert p == ZeroPad12(n);
    assert IsDigit(p[0]);
    DigitsValue(n);
    PadLeftZerosValue(Digits(n), 12);
  }

  /** '%012d' % -m, a '-' and the numeral of m padded to eleven, reads
      back as -m. */
  lemma NegativePadRoundTrip(m: nat)
    requires m > 0
    ensures ParseInt(ZeroPad12(-(m as int))) == -(m as int)
  {
    var p := PadLeft(Digits(m), 11, '0');
    assert ZeroPad12(-(m as int)) == "-" + p;
    assert ("-" + p)[1..] == p;
    DigitsValue(m);
    PadLeftZerosValue(Digits(m), 11);
  }

  /** Str is injective: distinct integers have distinct numerals. */
  lemma StrInjective(m: int, n: int)
    requires Str(m) == Str(n)
    ensures m == n
  {
    StrRoundTrip(m);
    StrRoundTrip(n);
  }

  /** Every identifier below 10^12 is written as exactly twelve digits. */
  lemma ZeroPad12Width(n: int)
    requires 0 <= n < Pow10(12)
    ensures |ZeroPad12(n)| == 12 && AllDigits(ZeroPad12(n))
  {
    DigitsLength(n, 12);
    ZeroPadWidth(Digits(n), 12);
  }

  /** Zero-padding digits to a width they fit in gives width digits. */
  lemma ZeroPadWidth(d: string, width: nat)
    requires AllDigits(d) && |d| <= width
    ensures |PadLeft(d, width, '0')| == width && AllDigits(PadLeft(d, width, '0'))
  {
    var p := PadLeft(d, width, '0');
    forall i | 0 <= i < |p|
      ensures IsDigit(p[i])
    {
      if i >= width - |d| {
        assert p[i] == p[|p| - |d|..][i - (width - |d|)];
      }
    }
  }

  // ----- int() and math.ceil of a float -----

  /** int(x): truncation toward zero. */
  function Trunc(x: real): (r: int)
    ensures x >= 0.0 ==> r == x.Floor && 0 <= r && r as real <= x < r as real + 1.0
    ensures x < 0.0 ==> r <= 0 && x <= r as real < x + 1.0
  {
    if x >= 0.0 then x.Floor else -((-x).Floor)
  }

  /** math.ceil(x): the least integer not below x. */
  function Ceil(x: real): (r: int)
    ensures x <= r as real < x + 1.0
  {
    -((-x).Floor)
  }

  // ----- sequence operations with Python's meaning -----

  /** s * n (and n * s): n copies of s one after another, none when n <= 0. */
  function Repeat(s: string, n: int): (r: string)
    ensures n <= 0 ==> r == []
    decreases n
  {
    if n <= 0 then [] else s + Repeat(s, n - 1)
  }

  lemma {:induction false} RepeatLength(s: string, n: nat)
    ensures |Repeat(s, n)| == n * |s|
  {
    if n > 0 {
      RepeatLength(s, n - 1);
      assert n * |s| == (n - 1) * |s| + |s|;
    }
  }

  /** Character i of s * n is character i mod |s| of s. */
  lemma {:induction false} RepeatAt(s: string, n: nat, i: nat)
    requires |s| > 0 && i < |Repeat(s, n)|
    ensures Repeat(s, n)[i] == s[i % |s|]
  {
    if i < |s| {
      DivModUnique(i, |s|, 0, i);
    } else {
      RepeatAt(s, n - 1, i - |s|);
      ModAddMul(i - |s|, 1, |s|);
    }
  }

  /** A slice bound as Python normalises it: negative counts from the end,
      then clamped to [0, len]. */
  function SliceIndex(len: nat, k: int): (r: nat)
    ensures r <= len
  {
    if k < 0 then (if len + k < 0 then 0 else len + k) else if k > len then len else k
  }

  /** s[a:b]. */
  function Slice(s: string, a: int, b: int): (r: string)
    ensures |r| <= |s|
    ensures 0 <= a <= |s| ==> a + |r| <= |s| && r == s[a..a + |r|]
    ensures 0 <= a < |s| && a < b ==> r != []
    ensures 0 <= a <= b <= |s| ==> r == s[a..b]
    ensures 0 <= a <= |s| <= b ==> r == s[a..]
  {
    var lo, hi := SliceIndex(|s|, a), SliceIndex(|s|, b);
    if lo < hi then s[lo..hi] else []
  }

  /** s[:b]. */
  function Prefix(s: string, b: int): (r: string)
    ensures 0 <= b <= |s| ==> r == s[..b]
    ensures b > |s| ==> r == s
  {
    Slice(s, 0, b)
  }

  /** s.lstrip(c) for one character c. */
  function StripLeft(s: string, c: char): (r: string)
  {
    if s != [] && s[0] == c then StripLeft(s[1..], c) else s
  }

  /** Right-justifying and then stripping the fill gives s back, when s does
      not itself start with the fill character. */
  lemma {:induction false} StripPadLeft(s: string, width: nat, c: char)
    requires s == [] || s[0] != c
    ensures StripLeft(PadLeft(s, width, c), c) == s
  {
    if |s| < width {
      StripFill(width - |s|, s, c);
    }
  }

  lemma {:induction false} StripFill(n: nat, s: string, c: char)
    requires s == [] || s[0] != c
    ensures StripLeft(Fill(c, n) + s, c) == s
  {
    if n > 0 {
      assert (Fill(c, n) + s)[1..] == Fill(c, n - 1) + s;
      StripFill(n - 1, s, c);
    } else {
      assert Fill(c, n) + s == s;
    }
  }

  /** s[::-1]. */
  function Reverse(s: string): (r: string)
    ensures |r| == |s| && forall i :: 0 <= i < |s| ==> r[i] == s[|s| - 1 - i]
  {
    if s == [] then [] else Reverse(s[1..]) + [s[0]]
  }

  /** s.find(c): the first index of c in s, or -1. */
  function Find(s: string, c: char): (r: int)
    ensures -1 <= r < |s|
    ensures r == -1 <==> c !in s
    ensures r >= 0 ==> s[r] == c && c !in s[..r]
  {
    if s == [] then -1
    else if s[0] == c then 0
    else var k := Find(s[1..], c); (if k == -1 then -1 else k + 1)
  }

  /** The first c of w + [c] + rest is the one after w when w has none. */
  lemma FindAfter(w: string, c: char, rest: string)
    requires c !in w
    ensures Find(w + [c] + rest, c) == |w|
  {
    var s := w + [c] + rest;
    assert s[|w|] == c;
  }

  /** s.replace(c, ''): s with every c removed. */
  function Remove(s: string, c: char): (r: string)
    ensures c !in r
    ensures c !in s ==> r == s
    ensures |r| <= |s|
  {
    if s == [] then []
    else if s[0] == c then Remove(s[1..], c)
    else [s[0]] + Remove(s[1..], c)
  }

  /** Removing c keeps every other character as often as it occurs. */
  lemma {:induction false} RemoveCounts(s: string, c: char)
    ensures multiset(Remove(s, c)) == multiset(s)[c := 0]
  {
    if s != [] {
      RemoveCounts(s[1..], c);
      assert s == [s[0]] + s[1..];
    }
  }

  /** Removing c from one character drops it exactly when it is c; with
      RemoveConcat this fixes Remove on every string, so every other
      character is kept, in order. */
  lemma RemoveSingle(x: char, c: char)
    ensures Remove([x], c) == if x == c then [] else [x]
  {
    assert [x][1..] == [];
  }

  /** Removing a character commutes with concatenation. */
  lemma {:induction false} RemoveConcat(a: string, b: string, c: char)
    ensures Remove(a + b, c) == Remove(a, c) + Remove(b, c)
  {
    if a != [] {
      assert (a + b)[1..] == a[1..] + b;
      RemoveConcat(a[1..], b, c);
    } else {
      assert a + b == b;
    }
  }
}
