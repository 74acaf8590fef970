/** sprintf and atoi on buffers. */
module Printer {
  import opened Constants
  import opened NumberSpec
  import opened FormatSpec

  /** Write the digits of val at p, and advance p behind them. */
  method I2a(val: int, base: nat, buf: array<char>, p: nat) returns (p': nat)
    requires IsBase(base) && p + |Digits(val, base)| <= buf.Length
    modifies buf
    ensures p' == p + |Digits(val, base)|
    ensures buf[p..p'] == Digits(val, base)
    ensures forall k :: 0 <= k < buf.Length && !(p <= k < p') ==> buf[k] == old(buf[k])
    decreases Size(val)
  {
    var m, q := Remainder(val, base), Quotient(val, base);
    p' := p;
    if q != 0 {
      QuotientShrinks(val, base);
      p' := I2a(q, base, buf, p');
    }
    buf[p'] := DigitChar(m);
    p' := p' + 1;
  }

  /** Whether str is an optional sign and digits: exactly the strings atoi does not stop at. */
  method Isnum(str: string) returns (r: bool)
    ensures r <==> IsNum(str)
    ensures r <==> AllDigits(str) || (str != "" && (str[0] == '+' || str[0] == '-') && AllDigits(str[1..]))
    ensures r <==> Atoi(str) != Failed
  {
    var k := if str != "" && (str[0] == '+' || str[0] == '-') then 1 else 0;
    var first := k;
    while k < |str|
      invariant first <= k <= |str| && AllDigits(str[first..k])
    {
      if !IsDigit(str[k]) {
        assert !IsDigit(str[first..][k - first]);
        return false;
      }
      assert str[first..k + 1] == str[first..k] + [str[k]];
      k := k + 1;
    }
    assert str[first..k] == str[first..];
    return true;
  }

  /** The number str stands for. An assertion stops the program if there is anything else in it. */
  method ParseInt(str: string) returns (r: Parsed)
    ensures r == Atoi(str)
  {
    hide Wrap, Accumulated;
    var positive := true;
    var k := 0;
    if str != "" && str[0] == '+' {
      k := 1;
    } else if str != "" && str[0] == '-' {
      positive := false;
      k := 1;
    }
    var num := 0;
    ghost var first := k;
    NothingAccumulated();
    while k < |str|
      invariant first <= k <= |str| && AllDigits(str[first..k]) && num == Accumulated(str[first..k])
    {
      if !IsDigit(str[k]) {
        assert !IsDigit(str[first..][k - first]);
        return Failed;
      }
      AccumulatedMore(str[first..k], str[k]);
      assert str[first..k + 1] == str[first..k] + [str[k]];
      num := Wrap(Wrap(num * 10) + (str[k] as int - '0' as int));
      k := k + 1;
    }
    assert str[first..k] == str[first..];
    return Number(if positive then num else Wrap(-num));
  }

  // ---------- vsprintf ----------

  /** Append the characters of s at p. */
  method Append(buf: array<char>, p: nat, s: string) returns (p': nat)
    requires p + |s| <= buf.Length
    modifies buf
    ensures p' == p + |s| && buf[..p'] == old(buf[..p]) + s
  {
    p' := p;
    var k := 0;
    while k < |s|
      invariant k <= |s| && p' == p + k && buf[..p'] == old(buf[..p]) + s[..k]
    {
      buf[p'] := s[k];
      p', k := p' + 1, k + 1;
    }
    assert s[..k] == s;
  }

  /** Append n padding characters at p. */
  method Pad(buf: array<char>, p: nat, zero: bool, n: int) returns (p': nat)
    requires p + |Padding(zero, n)| <= buf.Length
    modifies buf
    ensures p' == p + |Padding(zero, n)| && buf[..p'] == old(buf[..p]) + Padding(zero, n)
  {
    p' := p;
    var k := 0;
    while k < n
      invariant (n <= 0 && k == 0) || (0 <= k <= n)
      invariant p' == p + k && buf[..p'] == old(buf[..p]) + Padding(zero, k)
    {
      buf[p'] := if zero then '0' else ' ';
      p', k := p' + 1, k + 1;
    }
  }

  /** What a conversion prints, gathered in a buffer of its own. */
  method Convert(letter: char, a: Arg) returns (inner: string)
    requires TakesArg(letter) ==> ArgOk(letter, a)
    ensures inner == Converted(letter, a)
  {
    hide Digits, Wrap;
    if letter == 'c' {
      inner := if a.n == 0 then "" else [a.n as char];
    } else if letter == 'x' || letter == 'X' {
      inner := DigitsIn(a.n, 16);
    } else if letter == 'd' {
      if a.n < 0 {
        var digits := DigitsIn(Wrap(-a.n), 10);
        inner := "-" + digits;
      } else {
        inner := DigitsIn(a.n, 10);
      }
    } else if letter == 's' {
      inner := a.s;
    } else {
      inner := "";
    }
  }

  method DigitsIn(val: int, base: nat) returns (s: string)
    requires IsBase(base) && IsInt(val)
    ensures s == Digits(val, base)
  {
    var buf := new char[STR_DEFAULT_LEN](k => NUL);
    Power32();
    DigitsFit(val, base, 32);
    var q := I2a(val, base, buf, 0);
    s := buf[..q];
  }

  /** Print fmt into buf, with a zero behind it. */
  method Vsprintf(buf: array<char>, fmt: string, args: seq<Arg>) returns (n: nat)
    requires Accepts(fmt, args) && |Format(fmt, args)| < buf.Length
    modifies buf
    ensures n == |Format(fmt, args)| && buf[..n] == Format(fmt, args) && buf[n] == NUL
  {
    hide StepText, StepOk, StepLen, StepArgs;
    ghost var all := Format(fmt, args);
    var f, rest := 0, args;
    n := 0;
    assert fmt[0..] == fmt;
    while f < |fmt|
      invariant f <= |fmt| && Accepts(fmt[f..], rest)
      invariant n <= |all| && buf[..n] + Format(fmt[f..], rest) == all
      decreases |fmt| - f
    {
      ghost var text, tail := StepText(fmt[f..], rest), Format(fmt[f..][StepLen(fmt[f..])..], StepArgs(fmt[f..], rest));
      assert buf[..n] + (text + tail) == (buf[..n] + text) + tail;
      assert fmt[f..][StepLen(fmt[f..])..] == fmt[f + StepLen(fmt[f..])..];
      f, n, rest := VsprintfStep(buf, n, fmt, f, rest);
    }
    buf[n] := NUL;
  }

  /** One character or conversion of the format. */
  method VsprintfStep(buf: array<char>, p: nat, fmt: string, f: nat, args: seq<Arg>)
    returns (f': nat, p': nat, rest: seq<Arg>)
    requires f < |fmt| && StepOk(fmt[f..], args) && p + |StepText(fmt[f..], args)| <= buf.Length
    modifies buf
    ensures f' == f + StepLen(fmt[f..]) && rest == StepArgs(fmt[f..], args)
    ensures p' == p + |StepText(fmt[f..], args)| && buf[..p'] == old(buf[..p]) + StepText(fmt[f..], args)
  {
    hide ReadSpec, Padded, Converted;
    rest := args;
    if fmt[f] != '%' {
      p' := Append(buf, p, [fmt[f]]);
      f' := f + 1;
    } else if f + 1 < |fmt| && fmt[f + 1] == '%' {
      p' := Append(buf, p, "%");
      f' := f + 2;
    } else {
      var r := ReadConversion(fmt, f);
      var letter := fmt[f + r.end];
      var inner := Convert(letter, FirstArg(args));
      p' := PrintPadded(buf, p, r.zero, r.width, inner);
      f' := f + r.end + 1;
      rest := if TakesArg(letter) then args[1..] else args;
    }
  }

  method PrintPadded(buf: array<char>, p: nat, zero: bool, alignNr: int, inner: string) returns (p': nat)
    requires p + |Padded(zero, alignNr, inner)| <= buf.Length
    modifies buf
    ensures p' == p + |Padded(zero, alignNr, inner)| && buf[..p'] == old(buf[..p]) + Padded(zero, alignNr, inner)
  {
    p' := Pad(buf, p, zero, alignNr - |inner|);
    p' := Append(buf, p', inner);
  }

  lemma PartOfRest(s: string, f: nat, i: nat, end: nat)
    requires f <= i <= end <= |s|
    ensures s[f..][i - f..] == s[i..] && s[f..][i - f..end - f] == s[i..end]
  {
  }

  /** The conversion that the % at f starts. */
  method ReadConversion(fmt: string, f: nat) returns (r: Spec)
    requires f < |fmt|
    ensures r == ReadSpec(fmt[f..])
  {
    var zero := f + 1 < |fmt| && fmt[f + 1] == '0';
    assert |fmt[f..]| > 1 ==> fmt[f..][1] == fmt[f + 1];
    var i := if zero then f + 2 else f + 1;
    var alignNr, end := ReadWidth(fmt, i);
    PartOfRest(fmt, f, i, end);
    r := Spec(zero, alignNr, end - f);
  }

  /** The number in the format from i on. */
  method ReadWidth(fmt: string, i: nat) returns (alignNr: int, end: nat)
    requires i <= |fmt|
    ensures end == i + DigitRun(fmt[i..]) && end <= |fmt| && alignNr == ValueOf(fmt[i..end], 10)
  {
    alignNr, end := 0, i;
    while end < |fmt| && IsDigit(fmt[end])
      invariant i <= end <= |fmt| && AllDigits(fmt[i..end]) && alignNr == ValueOf(fmt[i..end], 10)
      invariant end + DigitRun(fmt[end..]) == i + DigitRun(fmt[i..])
      decreases |fmt| - end
    {
      assert fmt[i..end + 1][..end - i] == fmt[i..end] && fmt[end..][1..] == fmt[end + 1..];
      alignNr := alignNr * 10;
      alignNr := alignNr + (fmt[end] as int - '0' as int);
      end := end + 1;
    }
  }
}
