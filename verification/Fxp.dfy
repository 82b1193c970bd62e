/** Parsing and printing of 16.16 fixed-point numbers (jemalloc/src/fxp.c). */
module FixedPoint {
  import opened Arith
  import opened Options

  const ONE: nat := 0x1_0000                    // 1.0, and the bound on both parts
  const DIGITS: nat := 14                       // of a fractional part that are kept
  const SCALE: nat := 100_000_000_000_000       // 10^DIGITS
  const BUF_SIZE: nat := 21
  const WORD32: nat := 0x1_0000_0000
  const WORD64: nat := 0x1_0000_0000_0000_0000

  // ----- decimal digits

  predicate IsDigit(c: char) { '0' <= c <= '9' }

  function DigitOf(d: nat): (c: char)
    requires d < 10
    ensures IsDigit(c) && ValueOf(c) == d
  {
    (48 + d) as char
  }

  function ValueOf(c: char): (d: nat)
    requires IsDigit(c)
    ensures d < 10
  {
    c as int - 48
  }

  predicate AllDigits(s: string) { forall i :: 0 <= i < |s| ==> IsDigit(s[i]) }

  /** The number a string of digits spells. */
  function Value(s: string): nat
    requires AllDigits(s)
  {
    if s == [] then 0 else Value(s[..|s| - 1]) * 10 + ValueOf(s[|s| - 1])
  }

  /** The digits of a number, without leading zeros. */
  function Decimal(n: nat): (s: string)
    ensures |s| > 0 && AllDigits(s)
  {
    if n < 10 then [DigitOf(n)] else Decimal(n / 10) + [DigitOf(n % 10)]
  }

  function Pow10(k: nat): (p: nat)
    ensures p > 0
  {
    if k == 0 then 1 else 10 * Pow10(k - 1)
  }

  function Zeros(n: nat): (s: string)
    ensures |s| == n && AllDigits(s)
  {
    seq(n, _ => '0')
  }

  lemma ValuePush(s: string, c: char)
    requires AllDigits(s) && IsDigit(c)
    ensures AllDigits(s + [c]) && Value(s + [c]) == Value(s) * 10 + ValueOf(c)
  {
  }

  lemma {:induction false} ValueOfDecimal(n: nat)
    ensures Value(Decimal(n)) == n
  {
    if n < 10 {
      ValuePush([], DigitOf(n));
      assert [] + [DigitOf(n)] == [DigitOf(n)];
    } else {
      ValueOfDecimal(n / 10);
      ValuePush(Decimal(n / 10), DigitOf(n % 10));
    }
  }

  /** Leading zeros do not count. */
  lemma {:induction false} ValueAfterZeros(k: nat, s: string)
    requires AllDigits(s)
    ensures AllDigits(Zeros(k) + s) && Value(Zeros(k) + s) == Value(s)
    decreases |s|, k
  {
    if s != [] {
      var t := s[..|s| - 1];
      ValueAfterZeros(k, t);
      ValuePush(Zeros(k) + t, s[|s| - 1]);
      assert Zeros(k) + s == Zeros(k) + t + [s[|s| - 1]];
    } else if k > 0 {
      ValueAfterZeros(k - 1, []);
      ValuePush(Zeros(k - 1), '0');
      assert Zeros(k) + [] == Zeros(k - 1) + ['0'];
      assert Zeros(k - 1) + [] == Zeros(k - 1);
    }
  }

  /** Each trailing zero multiplies by ten. */
  lemma {:induction false} ValueBeforeZeros(s: string, k: nat)
    requires AllDigits(s)
    ensures AllDigits(s + Zeros(k)) && Value(s + Zeros(k)) == Value(s) * Pow10(k)
  {
    if k == 0 {
      assert s + Zeros(0) == s;
    } else {
      ValueBeforeZeros(s, k - 1);
      ValuePush(s + Zeros(k - 1), '0');
      assert s + Zeros(k) == s + Zeros(k - 1) + ['0'];
    }
  }

  /** A number is as long as its leading power of ten says. */
  lemma {:induction false} DecimalLength(n: nat, k: nat)
    requires Pow10(k) <= n < Pow10(k + 1)
    ensures |Decimal(n)| == k + 1
  {
    if k > 0 {
      assert Pow10(k) >= 10;
      DecimalLength(n / 10, k - 1);
    }
  }

  lemma {:induction false} ValuePrefix(s: string, k: nat)
    requires AllDigits(s) && k <= |s|
    ensures AllDigits(s[..k]) && Value(s[..k]) <= Value(s)
    decreases |s|
  {
    if k < |s| {
      var t := s[..|s| - 1];
      ValuePrefix(t, k);
      assert t[..k] == s[..k];
    } else {
      assert s[..k] == s;
    }
  }

  // ----- parsing

  /** The first position from i on that does not hold a digit. */
  function DigitsEnd(s: string, i: nat): (r: nat)
    requires i <= |s|
    ensures i <= r <= |s| && AllDigits(s[i..r]) && (r < |s| ==> !IsDigit(s[r]))
    decreases |s| - i
  {
    if i == |s| || !IsDigit(s[i]) then i
    else
      var r := DigitsEnd(s, i + 1);
      assert s[i..r] == [s[i]] + s[i + 1..r];
      r
  }

  lemma {:induction false} DigitsEndIs(s: string, i: nat, r: nat)
    requires i <= r <= |s| && AllDigits(s[i..r]) && (r < |s| ==> !IsDigit(s[r]))
    ensures DigitsEnd(s, i) == r
  {
    var e := DigitsEnd(s, i);
    hide DigitsEnd;
    assert forall k :: i <= k < r ==> IsDigit(s[k]) by { assert forall k :: i <= k < r ==> s[i..r][k - i] == s[k]; }
    assert forall k :: i <= k < e ==> IsDigit(s[k]) by { assert forall k :: i <= k < e ==> s[i..e][k - i] == s[k]; }
  }

  /** Digits cut or filled up with zeros to the kept precision. */
  function Kept(ds: string): (k: string)
    requires AllDigits(ds)
    ensures |k| == DIGITS && AllDigits(k)
  {
    if |ds| >= DIGITS then ds[..DIGITS] else ds + Zeros(DIGITS - |ds|)
  }

  /** What a string denotes, and where its number ends: the integer part must fit, and a
      decimal point must be followed by a digit. */
  function Denotes(s: string): Option<(nat, nat)> {
    var n := DigitsEnd(s, 0);
    if n == 0 && (|s| == 0 || s[0] != '.') then None
    else if Value(s[..n]) >= ONE then None
    else if n == |s| || s[n] != '.' then Some((Value(s[..n]) * ONE, n))
    else
      var m := DigitsEnd(s, n + 1);
      if m == n + 1 then None
      else Some((Value(s[..n]) * ONE + Value(Kept(s[n + 1..m])) * ONE / SCALE, m))
  }

  function CharAt(s: string, i: nat): char { if i < |s| then s[i] else '\0' }

  lemma {:induction false} DigitsReach(s: string, i: nat, k: nat)
    requires i <= k <= |s| && AllDigits(s[i..k])
    ensures DigitsEnd(s, i) >= k
    decreases k - i
  {
  }

  lemma ValueStep(s: string, i: nat)
    requires AllDigits(s) && i < |s|
    ensures Value(s[..i + 1]) == Value(s[..i]) * 10 + ValueOf(s[i])
  {
    assert s[..i + 1][..i] == s[..i];
  }

  lemma {:induction false} ValueBound(s: string)
    requires AllDigits(s)
    ensures Value(s) < Pow10(|s|)
  {
    if s != [] {
      ValueBound(s[..|s| - 1]);
    }
  }

  lemma Pow10Literals()
    ensures Pow10(4) == 10_000 && Pow10(DIGITS) == SCALE
  {
    assert Pow10(8) == 100_000_000;
    assert Pow10(12) == 1_000_000_000_000;
  }

  /** What follows the integer part decides. */
  lemma DenotesAfter(s: string, n: nat)
    requires n == DigitsEnd(s, 0) && AllDigits(s[..n]) && Value(s[..n]) < ONE && (n > 0 || CharAt(s, 0) == '.')
    ensures CharAt(s, n) != '.' ==> Denotes(s) == Some((Value(s[..n]) * ONE, n))
    ensures CharAt(s, n) == '.' ==>
              && n < |s|
              && var m := DigitsEnd(s, n + 1);
                 && (m == n + 1 <==> !IsDigit(CharAt(s, n + 1)))
                 && (m == n + 1 ==> Denotes(s).None?)
                 && (m > n + 1 ==> Denotes(s) == Some((Value(s[..n]) * ONE + Value(Kept(s[n + 1..m])) * ONE / SCALE, m)))
  {
    hide Value, Kept;
  }

  /** fxp_parse: the number a string denotes and where it ends, or an error; no step leaves
      the 32 and 64 bits it is computed in. */
  method Parse(s: string) returns (r: Option<(nat, nat)>)
    ensures r == Denotes(s)
  {
    if CharAt(s, 0) != '.' && !IsDigit(CharAt(s, 0)) {
      return None;
    }
    hide Kept, Value, DigitsEnd, Denotes;
    var cur, integer := 0, 0;
    assert s[..0] == [];
    Empty();
    while IsDigit(CharAt(s, cur))
      invariant cur <= |s| && AllDigits(s[..cur]) && integer == Value(s[..cur]) < ONE
      decreases |s| - cur
    {
      ValuePush(s[..cur], s[cur]);
      assert s[..cur] + [s[cur]] == s[..cur + 1] == s[0..cur + 1];
      integer := integer * 10 + ValueOf(CharAt(s, cur));
      assert integer < WORD32;
      if integer >= ONE {
        DigitsReach(s, 0, cur + 1);
        TooLarge(s, cur + 1);
        return None;
      }
      cur := cur + 1;
    }
    assert s[0..cur] == s[..cur];
    DigitsEndIs(s, 0, cur);
    DenotesAfter(s, cur);
    if CharAt(s, cur) != '.' {
      return Some((integer * ONE, cur));
    }
    cur := cur + 1;
    if !IsDigit(CharAt(s, cur)) {
      return None;
    }
    var fraction, end := ParseFraction(s, cur);
    assert fraction * ONE < WORD64;
    r := Some((integer * ONE + fraction * ONE / SCALE, end));
  }

  lemma TooLarge(s: string, k: nat)
    requires k <= DigitsEnd(s, 0) && AllDigits(s[..k]) && Value(s[..k]) >= ONE
    ensures Denotes(s).None?
  {
    var n := DigitsEnd(s, 0);
    assert s[0..n] == s[..n] && s[..n][..k] == s[..k];
    ValuePrefix(s[..n], k);
  }

  lemma Empty()
    ensures Pow10(0) == 1 && Value("") == 0
  {
  }

  lemma KeptAt(ds: string, i: nat)
    requires AllDigits(ds) && i < DIGITS
    ensures Kept(ds)[i] == if i < |ds| then ds[i] else '0'
  {
  }

  /** The fractional digits of a number: the kept ones read, the others skipped. */
  method ParseFraction(s: string, start: nat) returns (fraction: nat, end: nat)
    requires start <= |s|
    ensures end == DigitsEnd(s, start) && fraction == Value(Kept(s[start..end])) < SCALE
  {
    hide Pow10, Kept, DigitsEnd, Value;
    assert Pow10(0) == 1 && Value("") == 0 by { Empty(); }
    ghost var m := DigitsEnd(s, start);
    ghost var ds := s[start..m];
    ghost var kept := Kept(ds);
    var cur, div := start, 1;
    fraction := 0;
    for i := 0 to DIGITS
      invariant cur == if i < |ds| then start + i else m
      invariant fraction == Value(kept[..i]) && div == Pow10(i)
    {
      ValueStep(kept, i);
      KeptAt(ds, i);
      Pow10Next(i);
      fraction := fraction * 10;
      div := div * 10;
      if IsDigit(CharAt(s, cur)) {
        fraction := fraction + ValueOf(CharAt(s, cur));
        cur := cur + 1;
      }
    }
    assert kept[..DIGITS] == kept;
    assert forall j :: start <= j < m ==> IsDigit(s[j]) by {
      assert forall j :: start <= j < m ==> s[j] == ds[j - start];
    }
    while IsDigit(CharAt(s, cur))
      invariant start <= cur <= m
      decreases m - cur
    {
      assert cur < m;
      cur := cur + 1;
    }
    ValueBound(kept);
    Pow10Literals();
    assert fraction < div == SCALE;
    end := cur;
  }

  // ----- printing

  /** Zeros between the decimal point and the first other digit of f / ONE. */
  function Leading(f: nat): nat
    decreases if f < ONE then ONE - f else 0
  {
    if f == 0 || f * 10 >= ONE then 0 else 1 + Leading(f * 10)
  }

  /** A number without its trailing zeros. */
  function Stripped(d: nat): nat {
    if d > 0 && d % 10 == 0 then Stripped(d / 10) else d
  }

  /** The fraction of a value cut to the kept digits, as a whole number. */
  function Cut(f: nat): nat { f * SCALE / ONE }

  function Fraction(f: nat): (s: string)
    ensures |s| > 0 && AllDigits(s)
  {
    Zeros(Leading(f)) + Decimal(Stripped(Cut(f)))
  }

  function Printed(a: nat): string { Decimal(a / ONE) + "." + Fraction(a % ONE) }

  lemma {:induction false} LeadingBracket(f: nat)
    requires 0 < f < ONE
    ensures f * Pow10(Leading(f)) < ONE <= f * Pow10(Leading(f) + 1)
    decreases ONE - f
  {
    if f * 10 < ONE {
      LeadingBracket(f * 10);
      var l := Leading(f * 10);
      assert f * 10 * Pow10(l) == f * Pow10(l + 1);
      assert f * 10 * Pow10(l + 1) == f * Pow10(l + 2);
    } else {
      assert Pow10(1) == 10;
    }
  }

  lemma {:induction false} Pow10Monotone(i: nat, j: nat)
    requires i <= j
    ensures Pow10(i) <= Pow10(j)
  {
    if i < j { Pow10Monotone(i, j - 1); }
  }

  /** The test of the printing loop singles out the number of leading zeros. */
  lemma LeadingIs(f: nat, i: nat)
    requires f < ONE
    ensures f * Pow10(i) < ONE <= f * Pow10(i) * 10 <==> f > 0 && i == Leading(f)
  {
    hide Pow10, Leading;
    if f > 0 {
      LeadingBracket(f);
      var l := Leading(f);
      Pow10Next(i);
      Pow10Next(l);
      if i < l {
        Pow10Monotone(i + 1, l);
        MulMonotone(Pow10(i + 1), Pow10(l), f);
      } else if i > l {
        Pow10Monotone(l + 1, i);
        MulMonotone(Pow10(l + 1), Pow10(i), f);
      }
    }
  }

  lemma Pow10Next(i: nat)
    ensures Pow10(i + 1) == 10 * Pow10(i)
  {
  }

  lemma LeadingSmall(f: nat)
    requires f < ONE
    ensures Leading(f) <= 4
  {
    hide Leading;
    if f > 0 {
      LeadingBracket(f);
      if Leading(f) > 4 {
        Pow10Literals();
        Pow10Next(4);
        Pow10Monotone(5, Leading(f));
        MulMonotone(1, f, Pow10(Leading(f)));
      }
    } else {
      LeadingOfZero();
    }
  }

  lemma LeadingOfZero()
    ensures Leading(0) == 0
  {
  }

  lemma {:induction false} Pow10Sum(i: nat, j: nat)
    ensures Pow10(i) * Pow10(j) == Pow10(i + j)
  {
    if i > 0 {
      Pow10Sum(i - 1, j);
      assert Pow10(i) * Pow10(j) == 10 * (Pow10(i - 1) * Pow10(j));
    }
  }

  lemma Regroup(f: nat, x: nat, y: nat, p: nat)
    requires x * y == p
    ensures f * p == f * x * y
  {
  }

  lemma Bracketed(x: nat, p: nat, y: nat, q: nat, n: nat)
    requires x < ONE <= y && n == x * p == y * q && p > 0
    ensures q <= n / ONE < p
  {
  }

  /** The cut fraction has all the digits that the leading zeros leave it. */
  lemma CutLength(f: nat)
    requires 0 < f < ONE
    ensures Leading(f) <= 13 && Pow10(13 - Leading(f)) <= Cut(f) < Pow10(14 - Leading(f))
  {
    hide Pow10, Leading;
    var l := Leading(f);
    LeadingSmall(f);
    LeadingBracket(f);
    Pow10Literals();
    Pow10Sum(l + 1, 13 - l);
    Pow10Sum(l, 14 - l);
    Regroup(f, Pow10(l + 1), Pow10(13 - l), SCALE);
    Regroup(f, Pow10(l), Pow10(14 - l), SCALE);
    Bracketed(f * Pow10(l), Pow10(14 - l), f * Pow10(l + 1), Pow10(13 - l), f * SCALE);
  }

  /** Stripping takes off a power of ten, and so many digits. */
  lemma {:induction false} StrippedIs(d: nat, k: nat) returns (z: nat)
    requires Pow10(k) <= d < Pow10(k + 1)
    ensures z <= k && d == Stripped(d) * Pow10(z)
    ensures Pow10(k - z) <= Stripped(d) < Pow10(k - z + 1)
  {
    hide Pow10;
    Empty();
    Pow10Next(k);
    if d % 10 == 0 {
      if k == 0 {
        assert false;
      }
      Pow10Next(k - 1);
      var y := StrippedIs(d / 10, k - 1);
      z := y + 1;
      Pow10Next(y);
      TimesTen(Stripped(d / 10), Pow10(y));
    } else {
      z := 0;
    }
  }

  lemma TimesTen(x: nat, p: nat)
    ensures x * (10 * p) == 10 * (x * p)
  {
  }

  /** Filled up with zeros again, the printed fraction is the cut one. */
  lemma FractionText(f: nat)
    requires f < ONE
    ensures |Fraction(f)| <= DIGITS && Value(Kept(Fraction(f))) == Cut(f)
  {
    hide Pow10, Leading, Value, Decimal, Stripped, Cut;
    var l, d, t := Leading(f), Stripped(Cut(f)), Fraction(f);
    ValueOfDecimal(d);
    ValueAfterZeros(l, Decimal(d));
    if f == 0 {
      FractionOfZero();
      Filled(t);
    } else {
      CutLength(f);
      var z := StrippedIs(Cut(f), 13 - l);
      DecimalLength(d, 13 - l - z);
      Filled(t);
    }
  }

  lemma Filled(t: string)
    requires AllDigits(t) && |t| <= DIGITS
    ensures Value(Kept(t)) == Value(t) * Pow10(DIGITS - |t|)
  {
    hide Pow10, Value, Kept;
    var u := t + Zeros(DIGITS - |t|);
    ValueBeforeZeros(t, DIGITS - |t|);
    forall i | 0 <= i < DIGITS ensures Kept(t)[i] == u[i] { KeptAt(t, i); }
    assert Kept(t) == u;
  }

  lemma FractionOfZero()
    ensures Leading(0) == 0 && Cut(0) == 0 && Stripped(0) == 0 && |Fraction(0)| == 1
  {
  }

  lemma Cancel(x: nat, q: nat, p: nat)
    requires q > 0 && p > 0
    ensures q * p > 0 && (x * p) / (q * p) == x / q
  {
    var k, d := x / q, q * p;
    var low := k * q;
    assert low <= x < low + q;
    Products(low, k, q, p);
    MulMonotone(low, x, p);
    MulMonotone(x + 1, low + q, p);
    QuotientIs(x * p, k, d);
  }

  lemma Products(low: nat, k: nat, q: nat, p: nat)
    requires low == k * q
    ensures low * p == k * (q * p) && (low + q) * p == low * p + q * p
  {
  }

  // ----- what every text denotes

  /** Digits that no decimal point follows denote the whole number they spell, if it fits. */
  lemma IntegerText(s: string, n: nat)
    requires 0 < n <= |s| && AllDigits(s[..n]) && (n < |s| ==> !IsDigit(s[n]) && s[n] != '.')
    ensures if Value(s[..n]) < ONE then Denotes(s) == Some((Value(s[..n]) * ONE, n)) else Denotes(s).None?
  {
    hide Value, DigitsEnd, Kept, Denotes;
    assert s[0..n] == s[..n];
    DigitsEndIs(s, 0, n);
    if Value(s[..n]) < ONE { DenotesAfter(s, n); } else { TooLarge(s, n); }
  }

  /** Digits on both sides of a decimal point denote the whole number and the fraction they
      spell, rounded down to a unit; at most 14 digits of the fraction count, and there may be
      none in front of the point. */
  lemma DecimalText(s: string, n: nat, m: nat)
    requires n + 1 < m <= |s| && AllDigits(s[..n]) && s[n] == '.' && AllDigits(s[n + 1..m]) && (m < |s| ==> !IsDigit(s[m]))
    ensures var d := s[n + 1..m];
            var e := if |d| <= DIGITS then d else d[..DIGITS];
            && AllDigits(e)
            && if Value(s[..n]) < ONE then Denotes(s) == Some((Value(s[..n]) * ONE + Value(e) * ONE / Pow10(|e|), m))
               else Denotes(s).None?
  {
    hide Value, Pow10, DigitsEnd, Kept, Denotes;
    assert s[0..n] == s[..n];
    DigitsEndIs(s, 0, n);
    DigitsEndIs(s, n + 1, m);
    KeptFraction(s[n + 1..m]);
    if Value(s[..n]) < ONE { DenotesAfter(s, n); } else { TooLarge(s, n); }
  }

  lemma KeptFraction(d: string)
    requires AllDigits(d)
    ensures var e := if |d| <= DIGITS then d else d[..DIGITS];
            AllDigits(e) && Value(Kept(d)) * ONE / SCALE == Value(e) * ONE / Pow10(|e|)
  {
    Pow10Literals();
    hide Value, Pow10;
    if |d| <= DIGITS {
      var p, q, v := Pow10(DIGITS - |d|), Pow10(|d|), Value(d);
      Filled(d);
      Pow10Sum(|d|, DIGITS - |d|);
      Cancel(v * ONE, q, p);
      assert v * p * ONE == v * ONE * p;
    }
  }

  /** Anything else denotes nothing: no digit and no point in front, or a point that no digit
      follows. */
  lemma NoText(s: string, n: nat)
    requires n <= |s| && AllDigits(s[..n])
    requires if n < |s| then !IsDigit(s[n]) && (n == 0 || s[n] == '.') && (s[n] == '.' && n + 1 < |s| ==> !IsDigit(s[n + 1]))
             else n == 0
    ensures Denotes(s).None?
  {
    hide Value, Kept;
    assert s[0..n] == s[..n];
    DigitsEndIs(s, 0, n);
    if n < |s| && s[n] == '.' {
      assert s[n + 1..n + 1] == "";
      DigitsEndIs(s, n + 1, n + 1);
    }
  }

  /** Cutting to decimal digits and back is exact when the last two bits are zero, and one
      unit short otherwise. */
  lemma CutBack(f: nat)
    requires f < ONE
    ensures Cut(f) * ONE / SCALE == if f % 4 == 0 then f else f - 1
  {
  }

  lemma {:induction false} DecimalAtMost(n: nat, k: nat)
    requires k > 0 && n < Pow10(k)
    ensures |Decimal(n)| <= k
  {
    if n >= 10 {
      assert k > 1;
      DecimalAtMost(n / 10, k - 1);
    }
  }

  /** Parsing what was printed gives the value back exactly when the last two bits of its
      fraction are zero, and one unit less otherwise; the whole text is consumed. */
  lemma RoundTrip(a: nat)
    requires a < WORD32
    ensures Denotes(Printed(a)) == Some((if a % ONE % 4 == 0 then a else a - 1, |Printed(a)|))
  {
    hide Pow10, Value, Decimal, Fraction, Cut, Kept, DigitsEnd;
    var i, f := Decimal(a / ONE), Fraction(a % ONE);
    var s := i + "." + f;
    assert s[0..|i|] == i && s[..|i|] == i && s[|i|] == '.' && s[|i| + 1..] == f;
    DigitsEndIs(s, 0, |i|);
    assert s[|i| + 1..|s|] == f;
    DigitsEndIs(s, |i| + 1, |s|);
    ValueOfDecimal(a / ONE);
    FractionText(a % ONE);
    CutBack(a % ONE);
  }

  /** The printed text and its terminator fit the buffer. */
  lemma PrintedFits(a: nat)
    requires a < WORD32
    ensures |Decimal(a / ONE)| + 1 + |Fraction(a % ONE)| == |Printed(a)| < BUF_SIZE
  {
    hide Pow10, Decimal, Fraction;
    Pow10Literals();
    Pow10Next(4);
    DecimalAtMost(a / ONE, 5);
    FractionText(a % ONE);
  }

  /** malloc_snprintf of a text that fits: the text and a terminator. */
  method Write(buf: array<char>, at: nat, text: string)
    requires at + |text| < buf.Length
    modifies buf
    ensures buf[..at] == old(buf[..at]) && buf[at..at + |text|] == text && buf[at + |text|] == '\0'
  {
    forall i | 0 <= i < |text| {
      buf[at + i] := text[i];
    }
    buf[at + |text|] := '\0';
  }

  /** fxp_print: the text of a value, within its buffer and within 64 bits. */
  method Print(a: nat, buf: array<char>)
    requires a < WORD32 && buf.Length == BUF_SIZE
    modifies buf
    ensures |Printed(a)| < BUF_SIZE && buf[..|Printed(a)|] == Printed(a) && buf[|Printed(a)|] == '\0'
  {
    hide Pow10, Leading, Decimal;
    var integer, f := a / ONE, a % ONE;
    var leading, digits := PrintDigits(f);
    PrintedFits(a);
    var head := Decimal(integer) + ".";
    Write(buf, 0, head);
    var printed := |head|;
    for i := 0 to leading
      invariant printed == |head| + i <= |head| + leading
      invariant buf[..printed] == head + Zeros(i)
    {
      buf[printed] := '0';
      assert buf[..printed + 1] == buf[..printed] + ['0'];
      assert Zeros(i + 1) == Zeros(i) + ['0'];
      printed := printed + 1;
    }
    Write(buf, printed, Decimal(digits));
    assert buf[..|Printed(a)|] == buf[..printed] + buf[printed..|Printed(a)|];
  }

  /** The loops of fxp_print that find the leading zeros and the digits behind them. */
  method PrintDigits(f: nat) returns (leading: nat, digits: nat)
    requires f < ONE
    ensures leading == Leading(f) && digits == Stripped(Cut(f))
  {
    hide Pow10, Leading;
    leading, digits := 0, f;
    LeadingSmall(f);
    assert Pow10(0) == 1 by { Empty(); }
    for i := 0 to DIGITS
      invariant digits == f * Pow10(i)
      invariant leading == if f > 0 && Leading(f) < i then Leading(f) else 0
    {
      LeadingIs(f, i);
      if digits < ONE && digits * 10 >= ONE {
        leading := i;
      }
      Pow10Next(i);
      Pow10Literals();
      Pow10Monotone(i + 1, DIGITS);
      MulMonotone(Pow10(i + 1), SCALE, f);
      digits := digits * 10;
      assert digits < WORD64;
    }
    LeadingOfZero();
    Pow10Literals();
    digits := digits / ONE;
    while digits > 0 && digits % 10 == 0
      invariant Stripped(digits) == Stripped(Cut(f))
      decreases digits
    {
      digits := digits / 10;
    }
  }
}
