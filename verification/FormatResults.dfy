/** What the conversions of a format print, said about whole formats. */
module FormatResults {
  import opened Constants
  import opened NumberSpec
  import opened FormatSpec

  /** The text of a conversion: a flag, the digits of a width, and a letter. */
  function Conversion(zero: bool, d: string, letter: char): string {
    "%" + (if zero then "0" else "") + d + [letter]
  }

  predicate IsWidth(d: string) {
    AllDigits(d) && (d != "" ==> d[0] != '0')
  }

  lemma OneConversion(zero: bool, d: string, letter: char, a: Arg)
    requires TakesArg(letter) && ArgOk(letter, a) && IsWidth(d)
    ensures Accepts(Conversion(zero, d, letter), [a])
    ensures Format(Conversion(zero, d, letter), [a]) == Padded(zero, ValueOf(d, 10), Converted(letter, a))
  {
    hide ValueOf, Converted, Padded, ReadSpec;
    var f := Conversion(zero, d, letter);
    ReadBackDigits(zero, d, letter, "");
    assert f == "%" + (if zero then "0" else "") + d + [letter] + "";
    assert f[ReadSpec(f).end + 1..] == "" && [a][1..] == [];
  }

  // ---------- %d, %x, %s and %c ----------

  lemma Plain(letter: char, a: Arg)
    requires TakesArg(letter) && ArgOk(letter, a)
    ensures Accepts(['%', letter], [a]) && Format(['%', letter], [a]) == Converted(letter, a)
  {
    hide Converted;
    OneConversion(false, "", letter, a);
    assert Conversion(false, "", letter) == ['%', letter];
    NoDigits();
    assert Padded(false, 0, Converted(letter, a)) == Converted(letter, a);
  }

  /** What %d prints is what atoi reads, for all numbers but the most negative one. It is written with digits only and
      without a zero in front, behind a minus sign if the number is negative. */
  lemma DecimalMeans(n: int)
    requires IsInt(n)
    ensures Accepts("%d", [Word(n)])
    ensures Atoi(Format("%d", [Word(n)])) == Number(n) <==> n != INT_MIN
    ensures var t := Format("%d", [Word(n)]);
      && (n >= 0 ==> t != "" && AllDigits(t) && ValueOf(t, 10) == n && (t[0] == '0' ==> t == "0"))
      && (INT_MIN < n < 0 ==> Accepts("%d", [Word(-n)]) && t == "-" + Format("%d", [Word(-n)]))
  {
    hide Atoi, Digits, ValueOf;
    Plain('d', Word(n));
    assert "%d" == ['%', 'd'];
    RoundTripIff(n);
    if n >= 0 {
      DigitsOfNat(n, 10);
      ZeroIsOneDigit(n, 10);
    } else if n != INT_MIN {
      Plain('d', Word(-n));
    }
  }

  lemma ZeroIsOneDigit(n: nat, base: nat)
    requires IsBase(base)
    ensures Digits(n, base)[0] == '0' ==> Digits(n, base) == "0"
  {
    DigitsOfNat(n, base);
  }

  /** What %x and %X print, in the digits 0 to 9 and A to F, stands for the number in base 16, exactly if it is not
      negative. */
  lemma HexMeans(n: int, letter: char)
    requires IsInt(n) && (letter == 'x' || letter == 'X')
    ensures Accepts(['%', letter], [Word(n)])
    ensures var t := Format(['%', letter], [Word(n)]);
      && ((forall i :: 0 <= i < |t| ==> IsDigitOf(t[i], 16)) <==> n >= 0)
      && (n >= 0 ==> t != "" && ValueOf(t, 16) == n && (t[0] == '0' ==> t == "0"))
  {
    hide Digits, ValueOf;
    Plain(letter, Word(n));
    AllDigitsIff(n, 16);
    if n >= 0 {
      DigitsOfNat(n, 16);
      ZeroIsOneDigit(n, 16);
    }
  }

  /** %s prints the string. */
  lemma TextMeans(s: string)
    requires |s| < STR_DEFAULT_LEN && NUL !in s
    ensures Accepts("%s", [Text(s)]) && Format("%s", [Text(s)]) == s
  {
    Plain('s', Text(s));
    assert "%s" == ['%', 's'];
  }

  /** %c prints the character, and nothing for the zero that ends strings. */
  lemma CharMeans(n: int)
    requires 0 <= n < 256
    ensures Accepts("%c", [Word(n)]) && Format("%c", [Word(n)]) == if n == 0 then "" else [n as char]
  {
    Plain('c', Word(n));
    assert "%c" == ['%', 'c'];
  }

  /** With a width, what the letter prints on its own comes last, and in front of it, up to the width, are zeros if the
      width is written with one, and spaces if not. */
  lemma WidthPads(zero: bool, d: string, letter: char, a: Arg)
    requires TakesArg(letter) && ArgOk(letter, a) && IsWidth(d)
    ensures Accepts(['%', letter], [a]) && Accepts(Conversion(zero, d, letter), [a])
    ensures var u, t := Format(['%', letter], [a]), Format(Conversion(zero, d, letter), [a]);
      && |t| == (if ValueOf(d, 10) > |u| then ValueOf(d, 10) else |u|)
      && t[|t| - |u|..] == u
      && forall i :: 0 <= i < |t| - |u| ==> t[i] == if zero then '0' else ' '
  {
    hide Converted, ValueOf;
    OneConversion(zero, d, letter, a);
    Plain(letter, a);
    PaddingIs(zero, ValueOf(d, 10) - |Converted(letter, a)|);
  }

  // ---------- one format after the other ----------

  /** The arguments a format takes. */
  function Takes(f: string, args: seq<Arg>): (n: nat)
    requires Accepts(f, args)
    ensures n <= |args|
    decreases |f|
  {
    if f == "" then 0
    else |args| - |StepArgs(f, args)| + Takes(f[StepLen(f)..], StepArgs(f, args))
  }

  lemma {:induction false} DigitRunStops(s: string, t: string)
    requires DigitRun(s) < |s|
    ensures DigitRun(s + t) == DigitRun(s)
  {
    if IsDigit(s[0]) {
      assert (s + t)[1..] == s[1..] + t;
      DigitRunStops(s[1..], t);
    }
  }

  lemma SpecOfFront(f: string, g: string)
    requires f != "" && ReadSpec(f).end < |f|
    ensures ReadSpec(f + g) == ReadSpec(f)
  {
    hide ValueOf;
    var i := if |f| > 1 && f[1] == '0' then 2 else 1;
    var n := DigitRun(f[i..]);
    assert (f + g)[i..] == f[i..] + g;
    DigitRunStops(f[i..], g);
    assert (f + g)[i..i + n] == f[i..i + n];
  }

  lemma StepOfFront(f: string, g: string, a: seq<Arg>, b: seq<Arg>)
    requires f != "" && StepOk(f, a) && StepLen(f) <= |f|
    ensures StepOk(f + g, a + b) && StepLen(f + g) == StepLen(f) && StepText(f + g, a + b) == StepText(f, a)
    ensures StepArgs(f + g, a + b) == StepArgs(f, a) + b
  {
    hide Converted, Padded, ReadSpec;
    if IsConversion(f) {
      EndBehindPercent(f);
      SpecOfFront(f, g);
      assert a != [] ==> (a + b)[0] == a[0] && (a + b)[1..] == a[1..] + b;
      LetterTakes(f, g, a, b);
    }
  }

  lemma EndBehindPercent(f: string)
    requires f != ""
    ensures 0 < ReadSpec(f).end <= |f|
  {
  }

  lemma LetterTakes(f: string, g: string, a: seq<Arg>, b: seq<Arg>)
    requires f != "" && IsConversion(f) && StepOk(f, a)
    ensures (f + g)[ReadSpec(f).end] == f[ReadSpec(f).end]
    ensures !TakesArg(f[ReadSpec(f).end]) ==>
      Converted(f[ReadSpec(f).end], FirstArg(a + b)) == Converted(f[ReadSpec(f).end], FirstArg(a))
  {
  }

  /** A format that is followed by another prints what it prints, and then the other what it prints. */
  lemma {:induction false} FormatAppend(f: string, g: string, a: seq<Arg>, b: seq<Arg>)
    requires Accepts(f, a) && Takes(f, a) == |a| && Accepts(g, b)
    ensures Accepts(f + g, a + b) && Format(f + g, a + b) == Format(f, a) + Format(g, b)
    decreases |f|
  {
    hide StepText, StepOk, StepLen, StepArgs;
    if f == "" {
      assert f + g == g && a + b == b;
    } else {
      StepOfFront(f, g, a, b);
      assert (f + g)[StepLen(f)..] == f[StepLen(f)..] + g;
      FormatAppend(f[StepLen(f)..], g, StepArgs(f, a), b);
    }
  }

  /** Text without a % is printed as it is. */
  lemma {:induction false} LiteralMeans(s: string)
    requires '%' !in s
    ensures Accepts(s, []) && Takes(s, []) == 0 && Format(s, []) == s
  {
    if s != "" {
      assert s[0] in s;
      LiteralMeans(s[1..]);
    }
  }

  lemma PercentMeans()
    ensures Accepts("%%", []) && Takes("%%", []) == 0 && Format("%%", []) == "%"
  {
    assert "%%"[2..] == "";
  }

  /** The name fork makes up for a child: the parent's name, an underline, and the child's pid in decimal. */
  lemma ChildName(name: string, pid: int)
    requires |name| < STR_DEFAULT_LEN && NUL !in name && IsInt(pid)
    ensures Accepts("%s_%d", [Text(name), Word(pid)]) && Accepts("%d", [Word(pid)])
    ensures Format("%s_%d", [Text(name), Word(pid)]) == name + "_" + Format("%d", [Word(pid)])
  {
    hide Format, Accepts, Takes;
    TextMeans(name);
    LiteralMeans("_");
    DecimalMeans(pid);
    TakesOne("%s", Text(name));
    FormatAppend("_", "%d", [], [Word(pid)]);
    assert "_" + "%d" == "_%d" && [] + [Word(pid)] == [Word(pid)];
    FormatAppend("%s", "_%d", [Text(name)], [Word(pid)]);
    assert "%s" + "_%d" == "%s_%d" && [Text(name)] + [Word(pid)] == [Text(name), Word(pid)];
  }

  lemma TakesOne(f: string, a: Arg)
    requires |f| == 2 && f[0] == '%' && TakesArg(f[1]) && Accepts(f, [a])
    ensures Takes(f, [a]) == 1
  {
    hide ValueOf;
    ReadBackDigits(false, "", f[1], "");
    assert f == "%" + "" + "" + [f[1]] + "";
    assert f[2..] == "";
  }
}
