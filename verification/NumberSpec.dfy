/** Printing and parsing of numbers, on 32-bit integers and C's division. */
module NumberSpec {
  import opened Constants

  const INT_MIN := -0x8000_0000
  const INT_MAX := 0x7fff_ffff

  predicate IsInt(n: int) {
    INT_MIN <= n <= INT_MAX
  }

  /** What a 32-bit register keeps of a result. */
  function Wrap(n: int): (r: int)
    ensures IsInt(r) && (IsInt(n) ==> r == n)
  {
    var low := n % U32;
    if low > INT_MAX then low - U32 else low
  }

  // ---------- arithmetic ----------

  lemma {:induction false} MulMono(a: nat, b: nat, d: nat)
    ensures a <= b ==> a * d <= b * d
    ensures a < b ==> a * d + d <= b * d
    decreases d
  {
    if d > 0 {
      MulMono(a, b, d - 1);
      assert a * d == a * (d - 1) + a && b * d == b * (d - 1) + b;
    }
  }

  lemma DivUnique(n: nat, d: nat, q: nat, r: nat)
    requires n == q * d + r && r < d
    ensures n / d == q
  {
    var p := n / d;
    assert n == p * d + n % d;
    MulMono(p, q, d);
    MulMono(q, p, d);
  }

  lemma DivShrinks(n: nat, base: nat)
    requires base >= 2 && n / base != 0
    ensures 0 < n / base < n && base <= n
  {
    var q := n / base;
    assert n == q * base + n % base;
    MulMono(2, base, q);
    MulMono(1, q, base);
  }

  // ---------- C's division ----------

  /** Division that truncates toward zero, and the remainder that goes with it. */
  function Quotient(n: int, base: nat): (q: int)
    requires base > 0
    ensures n >= 0 ==> q == n / base
  {
    if n >= 0 then n / base else -(-n / base)
  }

  function Remainder(n: int, base: nat): (r: int)
    requires base > 0
    ensures n == Quotient(n, base) * base + r && Size(r) < base && (n >= 0 ==> r >= 0) && (n <= 0 ==> r <= 0)
  {
    if n >= 0 then n % base else -(-n % base)
  }

  predicate IsBase(base: int) {
    2 <= base <= 16
  }

  /** The character printed for a remainder. */
  function DigitChar(m: int): (c: char)
    requires -16 < m < 16
    ensures m < 0 ==> c < '0'
    ensures m == 0 <==> c == '0'
  {
    if m < 10 then (m + '0' as int) as char else (m - 10 + 'A' as int) as char
  }

  function Size(n: int): nat {
    if n < 0 then -n else n
  }

  lemma QuotientShrinks(n: int, base: nat)
    requires base >= 2 && Quotient(n, base) != 0
    ensures Size(Quotient(n, base)) < Size(n) && (n < 0 <==> Quotient(n, base) < 0) && base <= Size(n)
  {
    DivShrinks(Size(n), base);
  }

  /** The characters i2a writes. */
  function Digits(n: int, base: nat): (s: string)
    requires IsBase(base)
    ensures |s| > 0
    decreases Size(n)
  {
    var last := [DigitChar(Remainder(n, base))];
    if Quotient(n, base) == 0 then last
    else
      QuotientShrinks(n, base);
      Digits(Quotient(n, base), base) + last
  }

  // ---------- what the digits mean ----------

  predicate IsDigitOf(c: char, base: nat) {
    ('0' <= c <= '9' && c as int - '0' as int < base) || ('A' <= c <= 'F' && c as int - 'A' as int + 10 < base)
  }

  function DigitValue(c: char): int {
    if c <= '9' then c as int - '0' as int else c as int - 'A' as int + 10
  }

  function WithDigit(v: int, base: nat, d: int): int {
    v * base + d
  }

  /** The number that a string of digits stands for, most significant first. */
  function ValueOf(s: string, base: nat): int {
    if s == "" then 0 else WithDigit(ValueOf(s[..|s| - 1], base), base, DigitValue(s[|s| - 1]))
  }

  /** Of a number that is not negative, i2a writes the digits, most significant first, with no zero in front. */
  lemma {:induction false} DigitsOfNat(n: nat, base: nat)
    requires IsBase(base)
    ensures ValueOf(Digits(n, base), base) == n
    ensures forall i :: 0 <= i < |Digits(n, base)| ==> IsDigitOf(Digits(n, base)[i], base)
    ensures Digits(n, base)[0] == '0' <==> n == 0
    ensures |Digits(n, base)| > 1 ==> n >= base
    decreases n
  {
    var s, q := Digits(n, base), Quotient(n, base);
    if q != 0 {
      QuotientShrinks(n, base);
      DigitsOfNat(q, base);
      assert s[..|s| - 1] == Digits(q, base);
    } else {
      assert s[..0] == "";
    }
  }

  lemma DigitsOneMore(v: nat, base: nat, d: nat)
    requires IsBase(base) && 0 < v && d < base
    ensures WithDigit(v, base, d) > 0 && Digits(WithDigit(v, base, d), base) == Digits(v, base) + [DigitChar(d)]
  {
    var n := WithDigit(v, base, d);
    MulMono(1, v, base);
    DivUnique(n, base, v, d);
    assert Quotient(n, base) == v && Remainder(n, base) == d;
  }

  lemma DigitBack(c: char, base: nat)
    requires IsBase(base) && IsDigitOf(c, base)
    ensures 0 <= DigitValue(c) < base && DigitChar(DigitValue(c)) == c
  {
  }

  /** There is only one such string for a number. */
  lemma {:induction false} DigitsUnique(s: string, base: nat)
    requires IsBase(base) && s != "" && (forall i :: 0 <= i < |s| ==> IsDigitOf(s[i], base))
    requires |s| > 1 ==> s[0] != '0'
    ensures ValueOf(s, base) >= 0 && Digits(ValueOf(s, base), base) == s
    ensures s[0] != '0' ==> ValueOf(s, base) > 0
    decreases |s|
  {
    hide DigitValue, DigitChar, IsDigitOf, WithDigit, Digits;
    var front, last := s[..|s| - 1], s[|s| - 1];
    DigitBack(last, base);
    if front == "" {
      OneDigit(DigitValue(last), base);
      assert ValueOf(front, base) == 0 && s == [last];
    } else {
      DigitsUnique(front, base);
      DigitsOneMore(ValueOf(front, base), base, DigitValue(last));
      assert s == front + [last];
    }
  }

  lemma OneDigit(d: nat, base: nat)
    requires IsBase(base) && d < base
    ensures Digits(d, base) == [DigitChar(d)] && WithDigit(0, base, d) == d && (DigitChar(d) != '0' ==> d > 0)
  {
    DivUnique(d, base, 0, d);
  }

  /** Only a number that is not negative comes out in digits: C's remainder of a negative one is negative. */
  lemma {:induction false} AllDigitsIff(n: int, base: nat)
    requires IsBase(base)
    ensures (forall i :: 0 <= i < |Digits(n, base)| ==> IsDigitOf(Digits(n, base)[i], base)) <==> n >= 0
    ensures n < 0 ==> Digits(n, base)[0] < '0'
    decreases Size(n)
  {
    if n >= 0 {
      DigitsOfNat(n, base);
    } else if Quotient(n, base) != 0 {
      QuotientShrinks(n, base);
      AllDigitsIff(Quotient(n, base), base);
      assert Digits(n, base)[0] == Digits(Quotient(n, base), base)[0];
    } else {
      assert !IsDigitOf(Digits(n, base)[0], base);
    }
  }

  function Power2(k: nat): nat {
    if k == 0 then 1 else 2 * Power2(k - 1)
  }

  /** A number below 2 to the k has at most k digits, one at least. */
  lemma {:induction false} DigitsFit(n: int, base: nat, k: nat)
    requires IsBase(base) && Size(n) < Power2(k)
    ensures |Digits(n, base)| <= k + 1
    decreases k
  {
    if Quotient(n, base) != 0 {
      QuotientShrinks(n, base);
      HalfAtMost(n, base);
      if k > 0 {
        DigitsFit(Quotient(n, base), base, k - 1);
      }
    }
  }

  lemma HalfAtMost(n: int, base: nat)
    requires base >= 2
    ensures 2 * Size(Quotient(n, base)) <= Size(n)
  {
    var q := Size(n) / base;
    assert Size(n) == q * base + Size(n) % base;
    MulMono(2, base, q);
  }

  lemma Power32()
    ensures Power2(32) == U32
  {
    assert Power2(8) == 0x100;
    assert Power2(16) == 0x1_0000;
    assert Power2(24) == 0x100_0000;
  }

  // ---------- %d ----------

  /** What %d prints, without padding. */
  function Decimal(n: int): (s: string)
    requires IsInt(n)
    ensures |s| > 0
  {
    if n < 0 then "-" + Digits(Wrap(-n), 10) else Digits(n, 10)
  }

  // ---------- atoi and isnum ----------

  datatype Parsed = Failed | Number(n: int)   // Failed: an assertion stops the program

  predicate IsDigit(c: char) {
    '0' <= c <= '9'
  }

  predicate AllDigits(s: string) {
    forall i :: 0 <= i < |s| ==> IsDigit(s[i])
  }

  function Unsigned(s: string): string {
    if s != "" && (s[0] == '+' || s[0] == '-') then s[1..] else s
  }

  /** The number accumulated over the digits, in a 32-bit integer. */
  function Accumulated(s: string): int {
    if s == "" then 0 else Wrap(Wrap(Accumulated(s[..|s| - 1]) * 10) + (s[|s| - 1] as int - '0' as int))
  }

  lemma NothingAccumulated()
    ensures Accumulated("") == 0
  {
  }

  lemma AccumulatedMore(s: string, c: char)
    ensures Accumulated(s + [c]) == Wrap(Wrap(Accumulated(s) * 10) + (c as int - '0' as int))
    ensures AllDigits(s + [c]) <==> AllDigits(s) && IsDigit(c)
  {
    hide Wrap;
    assert (s + [c])[..|s|] == s;
  }

  function Atoi(s: string): Parsed {
    if !AllDigits(Unsigned(s)) then Failed
    else if s != "" && s[0] == '-' then Number(Wrap(-Accumulated(Unsigned(s))))
    else Number(Accumulated(Unsigned(s)))
  }

  /** As long as the number fits, accumulating it is exact. */
  lemma {:induction false} AccumulatedExact(s: string)
    requires AllDigits(s) && ValueOf(s, 10) <= INT_MAX
    ensures 0 <= ValueOf(s, 10) == Accumulated(s)
  {
    if s != "" {
      ValueNonNegative(s[..|s| - 1]);
      AccumulatedExact(s[..|s| - 1]);
    }
  }

  lemma {:induction false} ValueNonNegative(s: string)
    requires AllDigits(s)
    ensures ValueOf(s, 10) >= 0
  {
    if s != "" {
      ValueNonNegative(s[..|s| - 1]);
    }
  }

  /** atoi reads back what %d prints exactly for every number but the most negative one, whose negation does not fit:
      its text is not a number, and atoi stops on it. */
  lemma RoundTripIff(n: int)
    requires IsInt(n)
    ensures Atoi(Decimal(n)) == Number(n) <==> n != INT_MIN
    ensures Atoi(Decimal(INT_MIN)) == Failed
  {
    hide Atoi, Digits;
    MostNegative();
    if 0 <= n {
      DigitsOfNat(n, 10);
      AtoiOfDigits(Digits(n, 10), n);
    } else if n != INT_MIN {
      DigitsOfNat(-n, 10);
      AtoiOfNegative(Digits(-n, 10), -n);
    }
  }

  lemma AtoiOfDigits(s: string, n: nat)
    requires AllDigits(s) && s != "" && ValueOf(s, 10) == n && IsInt(n)
    ensures Atoi(s) == Number(n)
  {
    AccumulatedExact(s);
    assert IsDigit(s[0]);
  }

  /** Whatever its length, a string of digits is read as its value modulo 2 to the 32. */
  lemma {:induction false} AccumulatedIsMod(s: string)
    requires AllDigits(s)
    ensures (Accumulated(s) - ValueOf(s, 10)) % U32 == 0
  {
    hide Wrap;
    if s != "" {
      var front, d := s[..|s| - 1], s[|s| - 1] as int - '0' as int;
      AccumulatedIsMod(front);
      assert IsDigit(s[|s| - 1]);
      WrapIsMod(Accumulated(front) * 10);
      WrapIsMod(Wrap(Accumulated(front) * 10) + d);
      TenTimes(Accumulated(front), ValueOf(front, 10), Wrap(Accumulated(front) * 10), Accumulated(s), d);
    }
  }

  lemma WrapIsMod(n: int)
    ensures (Wrap(n) - n) % U32 == 0
  {
  }

  lemma TenTimes(a: int, v: int, w: int, r: int, d: int)
    requires (a - v) % U32 == 0 && (w - a * 10) % U32 == 0 && (r - (w + d)) % U32 == 0
    ensures (r - WithDigit(v, 10, d)) % U32 == 0
  {
    var x, y, z := (a - v) / U32, (w - a * 10) / U32, (r - (w + d)) / U32;
    assert r - WithDigit(v, 10, d) == U32 * (10 * x + y + z);
  }

  /** atoi is exact modulo 2 to the 32, on every string it does not stop at. */
  lemma AtoiIsMod(s: string)
    requires IsNum(s)
    ensures Atoi(s).Number? && IsInt(Atoi(s).n)
    ensures (Atoi(s).n - (if s != "" && s[0] == '-' then -ValueOf(s[1..], 10) else ValueOf(Unsigned(s), 10))) % U32 == 0
  {
    hide Wrap;
    AccumulatedIsMod(Unsigned(s));
    AccumulatedIsInt(Unsigned(s));
    if s != "" && s[0] == '-' {
      var a, v := Accumulated(s[1..]), ValueOf(s[1..], 10);
      WrapIsMod(-a);
      NegatedMod(a, v, Wrap(-a));
    }
  }

  /** A plus sign makes no difference, and a minus sign negates. */
  lemma SignMeans(s: string)
    requires AllDigits(s)
    ensures Atoi("+" + s) == Atoi(s) && Atoi(s).Number? && Atoi("-" + s) == Number(Wrap(-Atoi(s).n))
  {
    hide Wrap, Accumulated;
    assert ("+" + s)[1..] == s && ("-" + s)[1..] == s;
  }

  lemma NegatedMod(a: int, v: int, w: int)
    requires (a - v) % U32 == 0 && (w + a) % U32 == 0
    ensures (w + v) % U32 == 0
  {
    assert w + v == U32 * ((w + a) / U32 - (a - v) / U32);
  }

  lemma AccumulatedIsInt(s: string)
    ensures IsInt(Accumulated(s))
  {
    hide Wrap;
  }

  lemma AtoiOfNegative(s: string, n: int)
    requires AllDigits(s) && ValueOf(s, 10) == n && IsInt(n)
    ensures Atoi("-" + s) == Number(-n)
  {
    AccumulatedExact(s);
    assert ("-" + s)[1..] == s;
  }

  lemma MostNegative()
    ensures Atoi(Decimal(INT_MIN)) == Failed
  {
    var s := Decimal(INT_MIN);
    assert Wrap(-INT_MIN) == INT_MIN;
    AllDigitsIff(INT_MIN, 10);
    assert s[1..] == Digits(INT_MIN, 10);
    assert !IsDigit(s[1..][0]);
  }

  /** A sign or none, and digits. */
  predicate IsNum(s: string) {
    AllDigits(Unsigned(s))
  }

  // ---------- padding ----------

  function Padding(zero: bool, n: int): (s: string)
    ensures |s| == if n > 0 then n else 0
  {
    if n <= 0 then "" else Padding(zero, n - 1) + [if zero then '0' else ' ']
  }

  function Padded(zero: bool, width: int, s: string): string {
    Padding(zero, width - |s|) + s
  }

  lemma OneMoreZero(z: string)
    requires AllDigits(z) && ValueOf(z, 10) == 0
    ensures AllDigits(z + "0") && ValueOf(z + "0", 10) == 0
  {
    hide WithDigit;
    ZeroWithZero();
    assert (z + "0")[..|z|] == z;
  }

  lemma ZeroWithZero()
    ensures WithDigit(0, 10, 0) == 0
  {
  }

  lemma {:induction false} ZerosAlone(n: int)
    ensures AllDigits(Padding(true, n)) && ValueOf(Padding(true, n), 10) == 0
  {
    hide ValueOf, AllDigits;
    if n <= 0 {
      NoDigits();
    } else {
      ZerosAlone(n - 1);
      OneMoreZero(Padding(true, n - 1));
    }
  }

  lemma NoDigits()
    ensures AllDigits("") && ValueOf("", 10) == 0
  {
  }

  lemma {:induction false} ZerosInFront(z: string, s: string)
    requires AllDigits(z) && AllDigits(s) && ValueOf(z, 10) == 0
    ensures AllDigits(z + s) && ValueOf(z + s, 10) == ValueOf(s, 10)
  {
    hide WithDigit;
    if s == "" {
      assert z + s == z;
    } else {
      ZerosInFront(z, s[..|s| - 1]);
      assert (z + s)[..|z + s| - 1] == z + s[..|s| - 1];
    }
  }

  lemma PaddedNat(n: nat, width: int)
    requires IsInt(n)
    ensures Atoi(Padded(true, width, Decimal(n))) == Number(n)
  {
    hide Atoi, ValueOf, Digits, Padding;
    var s := Digits(n, 10);
    DigitsOfNat(n, 10);
    assert AllDigits(s);
    ZerosAlone(width - |s|);
    ZerosInFront(Padding(true, width - |s|), s);
    AtoiOfDigits(Padded(true, width, s), n);
  }

  lemma BadPadding(n: int, zero: bool, width: int)
    requires IsInt(n) && width > |Decimal(n)| && !(zero && n >= 0)
    ensures Atoi(Padded(zero, width, Decimal(n))) == Failed
  {
    var s, t := Decimal(n), Padded(zero, width, Decimal(n));
    PaddingIs(zero, width - |s|);
    assert Unsigned(t) == t;
    if zero {
      assert t[width - |s|] == s[0] && !IsDigit(s[0]);
    } else {
      assert !IsDigit(t[0]);
    }
  }

  /** A number printed with a width reads back exactly if no padding is needed, or if it is padded with zeros and not
      negative: zeros go before the sign. */
  lemma PaddedRoundTripIff(n: int, zero: bool, width: int)
    requires IsInt(n) && n != INT_MIN
    ensures Atoi(Padded(zero, width, Decimal(n))) == Number(n)
      <==> width <= |Decimal(n)| || (zero && n >= 0)
  {
    hide Atoi, Decimal;
    RoundTripIff(n);
    if width <= |Decimal(n)| {
      assert Padded(zero, width, Decimal(n)) == Decimal(n);
    } else if zero && n >= 0 {
      PaddedNat(n, width);
    } else {
      BadPadding(n, zero, width);
    }
  }

  lemma {:induction false} PaddingIs(zero: bool, n: int)
    ensures forall i :: 0 <= i < |Padding(zero, n)| ==> Padding(zero, n)[i] == if zero then '0' else ' '
  {
    if n > 0 {
      PaddingIs(zero, n - 1);
    }
  }
}
