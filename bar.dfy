/**
 * The progress bar text of util/util.go (makebar): a 20-cell bar whose
 * first cells have a green background, as a string with ANSI codes.
 *
 * Go's int is taken to be 64 bits wide, as on a 64-bit platform:
 * processed * 20 wraps around at 2^64, and division
 * truncates toward zero (the one overflowing quotient, MinInt64 / -1, gives
 * MinInt64 back). Both are written out below.
 */
module Bar {

  newtype int64 = x: int | -0x8000_0000_0000_0000 <= x < 0x8000_0000_0000_0000

  const Modulus: int := 0x1_0000_0000_0000_0000

  const MinInt64: int64 := -0x8000_0000_0000_0000

  /** The int64 that x wraps around to: x modulo 2^64, in the int64 range. */
  function Wrap(x: int): (w: int64)
    ensures (x - w as int) % Modulus == 0
    ensures MinInt64 as int <= x < -(MinInt64 as int) ==> w as int == x
  {
    var j, k := (x + Modulus / 2) / Modulus, (x + Modulus / 2) % Modulus;
    WrapSteps(x, j, k);
    (k - Modulus / 2) as int64
  }

  /** x + 2^63 taken apart into multiples of 2^64 and a remainder. */
  lemma WrapSteps(x: int, j: int, k: int)
    requires j == (x + Modulus / 2) / Modulus && k == (x + Modulus / 2) % Modulus
    ensures 0 <= k < Modulus
    ensures (x - (k - Modulus / 2)) % Modulus == 0
    ensures MinInt64 as int <= x < -(MinInt64 as int) ==> k - Modulus / 2 == x
  {
    assert x - (k - Modulus / 2) == j * Modulus;
    if MinInt64 as int <= x < -(MinInt64 as int) {
      assert j == 0;
    }
  }

  function Abs(x: int): nat {
    if x < 0 then -x else x
  }

  /**
   * Go's a / b on int64: the quotient truncated toward zero, so that the
   * remainder a - q * b is smaller than b in magnitude and has the sign of
   * a; the one quotient that does not fit, MinInt64 / -1, wraps to MinInt64.
   */
  function Quo(a: int64, b: int64): (q: int64)
    requires b != 0
    ensures !(a == MinInt64 && b == -1) ==> TruncatedQuotient(a as int, b as int, q as int)
    ensures a == MinInt64 && b == -1 ==> q == MinInt64
  {
    var n, d := Abs(a as int), Abs(b as int);
    var m: int := n / d;
    QuoBounds(n, d);
    var exact := if (a < 0) == (b < 0) then m else -m;
    TruncatedQuotientOf(a as int, b as int, m, exact);
    Wrap(exact)
  }

  /**
   * q is a / b truncated toward zero: the remainder a - q * b is smaller
   * than b in magnitude and is zero or has the sign of a.
   */
  predicate TruncatedQuotient(a: int, b: int, q: int) {
    var rem := a - q * b;
    Abs(rem) < Abs(b) && (rem == 0 || (rem < 0) == (a < 0))
  }

  /**
   * The quotient m of the magnitudes, with the sign of a * b, is the
   * truncated quotient; it fits in 64 bits unless a is MinInt64 and b is -1.
   */
  lemma TruncatedQuotientOf(a: int, b: int, m: int, q: int)
    requires b != 0 && MinInt64 as int <= a < -(MinInt64 as int)
    requires 0 <= Abs(a) - m * Abs(b) < Abs(b) && m <= Abs(a)
    requires q == if (a < 0) == (b < 0) then m else -m
    ensures TruncatedQuotient(a, b, q)
    ensures !(a == MinInt64 as int && b == -1) ==> MinInt64 as int <= q < -(MinInt64 as int)
    ensures a == MinInt64 as int && b == -1 ==> q == -(MinInt64 as int)
  {
    var n, d := Abs(a), Abs(b);
    var r := n - m * d;
    SignedRemainder(a, b, n, d, m, q, r);
    if m == -(MinInt64 as int) {
      MagnitudeLimit(n, d, m);
    }
  }

  /** A quotient of magnitudes as large as 2^63 comes only from 2^63 / 1. */
  lemma MagnitudeLimit(n: int, d: int, m: int)
    requires 0 < d && m == -(MinInt64 as int) && n <= m && 0 <= n - m * d
    ensures d == 1 && n == m
  {
    if d >= 2 {
      MulLe(2, d, m);
    }
  }

  /** a - q * b is the remainder of the magnitudes, with the sign of a. */
  lemma SignedRemainder(a: int, b: int, n: int, d: int, m: int, q: int, r: int)
    requires n == Abs(a) && d == Abs(b) && d > 0 && r == n - m * d
    requires q == if (a < 0) == (b < 0) then m else -m
    ensures a - q * b == if a < 0 then -r else r
  {
    if a >= 0 && b > 0 {
      assert a == n && b == d && q == m;
    } else if a < 0 && b < 0 {
      assert a == -n && b == -d && q == m;
      assert q * b == -(m * d);
    } else if a >= 0 {
      assert a == n && b == -d && q == -m;
      assert q * b == m * d;
    } else {
      assert a == -n && b == d && q == -m;
      assert q * b == -(m * d);
    }
  }

  /** Division of naturals: the remainder is below the divisor and the quotient at most n. */
  lemma QuoBounds(n: nat, d: nat)
    requires d > 0
    ensures 0 <= n - n / d * d < d && n / d <= n
  {
    var q := n / d;
    assert n == d * q + n % d;
    assert d * q == q + (d - 1) * q;
    NonNegProduct(d - 1, q);
  }

  lemma NonNegProduct(x: int, y: int)
    requires 0 <= x && 0 <= y
    ensures 0 <= x * y
  {
  }

  const Green: string := "\U{1B}[42m"
  const Reset: string := "\U{1B}[0m"

  /** bars := processed * 20 / total. */
  function Bars(processed: int64, total: int64): int64
    requires total != 0
  {
    Quo(Wrap(processed as int * 20), total)
  }

  /** n spaces; none when n is zero or negative. */
  function Spaces(n: int): (s: string)
    ensures |s| == if n > 0 then n else 0
    ensures forall i :: 0 <= i < |s| ==> s[i] == ' '
  {
    seq(if n > 0 then n else 0, _ => ' ')
  }

  /** The bar makebar returns: bars spaces on green, the reset, then the rest up to 20. */
  function BarText(processed: int64, total: int64): string
    requires total != 0
  {
    BarOf(Bars(processed, total) as int)
  }

  /** The bar text for a given number of green cells. */
  function BarOf(bars: int): string {
    "|" + Green + Spaces(bars) + Reset + Spaces(20 - bars) + "|"
  }

  lemma SpacesStep(n: nat)
    ensures Spaces(n + 1) == Spaces(n) + " "
  {
  }

  /**
   * makebar: the two counting loops append the spaces before and after the
   * reset code one at a time.
   */
  method MakeBar(processed: int64, total: int64) returns (output: string)
    requires total != 0
    ensures output == BarText(processed, total)
  {
    var bars := Quo(Wrap(processed as int * 20), total);
    output := "|" + Green;
    var i: int64 := 0;
    while i < bars
      invariant 0 <= i && (i <= bars || i == 0)
      invariant output == "|" + Green + Spaces(i as int)
    {
      SpacesStep(i as nat);
      output := output + " ";
      i := i + 1;
    }
    assert output == "|" + Green + Spaces(bars as int);
    output := output + Reset;
    i := bars;
    while i < 20
      invariant bars <= i && (i <= 20 || i == bars)
      invariant output == "|" + Green + Spaces(bars as int) + Reset + Spaces(i as int - bars as int)
    {
      SpacesStep((i as int - bars as int) as nat);
      output := output + " ";
      i := i + 1;
    }
    assert output == "|" + Green + Spaces(bars as int) + Reset + Spaces(20 - bars as int);
    output := output + "|";
  }

  /** The number of spaces in s. */
  function SpaceCount(s: string): nat
    decreases |s|
  {
    if s == [] then 0 else SpaceCount(s[..|s| - 1]) + (if s[|s| - 1] == ' ' then 1 else 0)
  }

  lemma {:induction false} SpaceCountAppend(s: string, t: string)
    ensures SpaceCount(s + t) == SpaceCount(s) + SpaceCount(t)
    decreases |t|
  {
    if t == [] {
      assert s + t == s;
    } else {
      assert (s + t)[..|s + t| - 1] == s + t[..|t| - 1];
      SpaceCountAppend(s, t[..|t| - 1]);
    }
  }

  lemma {:induction false} SpaceCountSpaces(n: int)
    ensures SpaceCount(Spaces(n)) == if n > 0 then n else 0
    decreases if n > 0 then n else 0
  {
    if n > 0 {
      SpaceCountSpaces(n - 1);
      SpacesStep(n - 1);
      SpaceCountAppend(Spaces(n - 1), " ");
    }
  }

  /** A string without spaces has none to count. */
  lemma {:induction false} NoSpaces(s: string)
    requires forall i :: 0 <= i < |s| ==> s[i] != ' '
    ensures SpaceCount(s) == 0
    decreases |s|
  {
    if s != [] {
      NoSpaces(s[..|s| - 1]);
    }
  }

  /** The spaces before the reset code and after it. */
  lemma BarSpaces(bars: int)
    ensures SpaceCount(BarOf(bars)) == (if bars > 0 then bars else 0) + (if 20 - bars > 0 then 20 - bars else 0)
  {
    NoSpaces("|");
    NoSpaces(Green);
    NoSpaces(Reset);
    SpaceCountSpaces(bars);
    SpaceCountSpaces(20 - bars);
    SpaceCountAppend("|", Green);
    SpaceCountAppend("|" + Green, Spaces(bars));
    SpaceCountAppend("|" + Green + Spaces(bars), Reset);
    SpaceCountAppend("|" + Green + Spaces(bars) + Reset, Spaces(20 - bars));
    SpaceCountAppend("|" + Green + Spaces(bars) + Reset + Spaces(20 - bars), "|");
  }

  lemma MulLe(x: int, y: int, c: int)
    requires x <= y && 0 <= c
    ensures x * c <= y * c
  {
    NonNegProduct(y - x, c);
    assert (y - x) * c == y * c - x * c;
  }

  lemma MulLess(x: int, y: int, c: int)
    requires 0 < c && x * c < y * c
    ensures x < y
  {
    if y <= x {
      MulLe(y, x, c);
    }
  }

  lemma AbsMul(x: int, c: int)
    ensures Abs(x * c) == Abs(x) * Abs(c)
  {
    if x < 0 && c < 0 {
      assert x * c == (-x) * (-c);
      NonNegProduct(-x, -c);
    } else if x < 0 {
      assert x * c == -((-x) * c);
      NonNegProduct(-x, c);
    } else if c < 0 {
      assert x * c == -(x * (-c));
      NonNegProduct(x, -c);
    } else {
      NonNegProduct(x, c);
    }
  }

  /** A multiple of c smaller than c in magnitude is zero. */
  lemma SmallMultiple(x: int, c: int)
    requires c != 0 && Abs(x * c) < Abs(c)
    ensures x == 0
  {
    if x != 0 {
      AbsMul(x, c);
      MulLe(1, Abs(x), Abs(c));
    }
  }

  /** processed * 20 does not overflow. */
  predicate NoOverflow(processed: int64) {
    -0x8000_0000_0000_0000 <= processed as int * 20 < 0x8000_0000_0000_0000
  }

  /** Without overflow, bars is processed * 20 / total truncated toward zero. */
  lemma BarsQuotient(processed: int64, total: int64)
    requires total != 0 && NoOverflow(processed)
    ensures TruncatedQuotient(processed as int * 20, total as int, Bars(processed, total) as int)
  {
    assert Wrap(processed as int * 20) as int == processed as int * 20;
  }

  /** With a positive divisor the truncated remainder lies in [0, b) or (-b, 0], by the sign of a. */
  lemma PositiveDivisor(a: int, b: int, q: int)
    requires 0 < b && TruncatedQuotient(a, b, q)
    ensures a >= 0 ==> q * b <= a < q * b + b
    ensures a < 0 ==> q * b - b < a <= q * b
  {
  }

  /** Truncated division by a positive number is monotonic in the dividend. */
  lemma QuotientMonotonic(a: int, b: int, t: int, qa: int, qb: int)
    requires 0 < t && a <= b && TruncatedQuotient(a, t, qa) && TruncatedQuotient(b, t, qb)
    ensures qa <= qb
  {
    PositiveDivisor(a, t, qa);
    PositiveDivisor(b, t, qb);
    if a < 0 && b >= 0 {
      MulLess(qa, 1, t);
      MulLess(-1, qb, t);
    } else {
      assert (qb + 1) * t == qb * t + t;
      MulLess(qa, qb + 1, t);
    }
  }

  /** Within 0..total the bar has 0 to 20 green cells and 20 spaces in all. */
  lemma BarsInRange(processed: int64, total: int64)
    requires 0 <= processed <= total && total != 0 && NoOverflow(processed)
    ensures 0 <= Bars(processed, total) <= 20
    ensures SpaceCount(BarText(processed, total)) == 20
  {
    var q, t := Bars(processed, total) as int, total as int;
    BarsQuotient(processed, total);
    PositiveDivisor(processed as int * 20, t, q);
    MulLess(-1, q, t);
    MulLess(q, 21, t);
    BarSpaces(q);
  }

  /** Nothing processed: no green cells, all 20 spaces after the reset. */
  lemma BarAtStart(total: int64)
    requires total != 0
    ensures BarText(0, total) == "|" + Green + Reset + Spaces(20) + "|"
  {
    var q := Bars(0, total) as int;
    BarsQuotient(0, total);
    assert 0 - q * total as int == (-q) * total as int;
    SmallMultiple(-q, total as int);
    assert Spaces(0) == [];
  }

  /** All processed: 20 green cells and nothing after the reset. */
  lemma BarAtEnd(total: int64)
    requires total != 0 && NoOverflow(total)
    ensures BarText(total, total) == "|" + Green + Spaces(20) + Reset + "|"
  {
    var q := Bars(total, total) as int;
    BarsQuotient(total, total);
    ExactQuotient(total as int, q);
    assert Spaces(0) == [];
  }

  /** t * 20 / t is 20. */
  lemma ExactQuotient(t: int, q: int)
    requires t != 0 && TruncatedQuotient(t * 20, t, q)
    ensures q == 20
  {
    assert t * 20 - q * t == (20 - q) * t;
    SmallMultiple(20 - q, t);
  }

  /**
   * Past the end (total positive): at least 20 green cells, so the second
   * loop adds nothing and the spaces number bars.
   */
  lemma BarPastEnd(processed: int64, total: int64)
    requires 0 < total < processed && NoOverflow(processed)
    ensures Bars(processed, total) >= 20
    ensures Spaces(20 - Bars(processed, total) as int) == []
    ensures SpaceCount(BarText(processed, total)) == Bars(processed, total) as int
  {
    var q, t := Bars(processed, total) as int, total as int;
    BarsQuotient(processed, total);
    PositiveDivisor(processed as int * 20, t, q);
    MulLess(19, q, t);
    BarSpaces(q);
  }

  /** Just past the end the bar is full but no longer: 101 of 100 gives 20 green cells. */
  lemma BarJustPastEnd()
    ensures Bars(101, 100) == 20
  {
    BarsQuotient(101, 100);
    var q := Bars(101, 100) as int;
    PositiveDivisor(2020, 100, q);
    MulLess(19, q, 100);
    MulLess(q, 21, 100);
  }

  /** Further past the end the bar grows: 21 of 20 gives 21 green cells, one more than a full bar. */
  lemma BarLongerPastEnd()
    ensures Bars(21, 20) == 21
    ensures |BarText(21, 20)| == |BarText(20, 20)| + 1
  {
    BarsQuotient(21, 20);
    var q := Bars(21, 20) as int;
    PositiveDivisor(420, 20, q);
    MulLess(20, q, 20);
    MulLess(q, 22, 20);
    BarAtEnd(20);
  }

  /** With a positive total the bar does not shrink as processed grows. */
  lemma BarsMonotonic(p: int64, q: int64, total: int64)
    requires 0 < total && p <= q && NoOverflow(p) && NoOverflow(q)
    ensures Bars(p, total) <= Bars(q, total)
  {
    BarsQuotient(p, total);
    BarsQuotient(q, total);
    QuotientMonotonic(p as int * 20, q as int * 20, total as int, Bars(p, total) as int, Bars(q, total) as int);
  }

  /** The bar's length: the two codes, the two borders and max(bars, 20) spaces. */
  lemma BarTextLength(processed: int64, total: int64)
    requires total != 0 && Bars(processed, total) >= 0
    ensures |BarText(processed, total)| == 2 + |Green| + |Reset|
              + (if Bars(processed, total) > 20 then Bars(processed, total) as int else 20)
  {
  }

  /** The wrap-around shows: 2^62 of 2^62 processed gives an empty bar. */
  lemma BarWrapsAround()
    ensures Bars(0x4000_0000_0000_0000, 0x4000_0000_0000_0000) == 0
  {
    assert Wrap(0x4000_0000_0000_0000 * 20) == 0;
  }
}
