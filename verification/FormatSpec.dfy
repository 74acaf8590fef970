/** Format strings: what vsprintf makes of them, and what they were written from. */
module FormatSpec {
  import opened NumberSpec

  const STR_DEFAULT_LEN := 1024

  /** An argument: a word for %d, %x and %c, or a string for %s. */
  datatype Arg = Word(n: int) | Text(s: string)

  // ---------- reading a format ----------

  /** The length of the run of digits at the front. */
  function DigitRun(s: string): (n: nat)
    ensures n <= |s| && (forall i :: 0 <= i < n ==> IsDigit(s[i])) && (n < |s| ==> !IsDigit(s[n]))
  {
    if s == "" || !IsDigit(s[0]) then 0 else 1 + DigitRun(s[1..])
  }

  /** A conversion: % is followed by an optional 0, an optional width, and a letter at position end. */
  datatype Spec = Spec(zero: bool, width: int, end: nat)

  function ReadSpec(f: string): (r: Spec)
    requires |f| > 0
    ensures 0 < r.end <= |f|
  {
    var zero := |f| > 1 && f[1] == '0';
    var i := if zero then 2 else 1;
    var n := DigitRun(f[i..]);
    Spec(zero, ValueOf(f[i..i + n], 10), i + n)
  }

  predicate TakesArg(letter: char) {
    letter == 'c' || letter == 'x' || letter == 'X' || letter == 'd' || letter == 's'
  }

  /** The argument fits the letter, and what it prints fits the buffer for it. */
  predicate ArgOk(letter: char, a: Arg) {
    if letter == 's' then a.Text? && |a.s| < STR_DEFAULT_LEN && 0 as char !in a.s
    else a.Word? && IsInt(a.n) && (letter == 'c' ==> 0 <= a.n < 256)
  }

  /** What a conversion prints, before padding. */
  function Converted(letter: char, a: Arg): string
    requires TakesArg(letter) ==> ArgOk(letter, a)
  {
    if letter == 'c' then if a.n == 0 then "" else [a.n as char]
    else if letter == 'x' || letter == 'X' then Digits(a.n, 16)
    else if letter == 'd' then Decimal(a.n)
    else if letter == 's' then a.s
    else ""
  }

  const NO_ARG := Word(0)

  function FirstArg(args: seq<Arg>): Arg {
    if args == [] then NO_ARG else args[0]
  }

  predicate IsConversion(f: string)
    requires f != ""
  {
    f[0] == '%' && !(|f| > 1 && f[1] == '%')
  }

  /** The text at the front of the format is a character, a double %, or a complete conversion with a fitting
      argument if it takes one. */
  predicate StepOk(f: string, args: seq<Arg>)
    requires f != ""
  {
    IsConversion(f) ==>
      var r := ReadSpec(f);
      r.end < |f| && (TakesArg(f[r.end]) ==> args != [] && ArgOk(f[r.end], args[0]))
  }

  function StepLen(f: string): (n: nat)
    requires f != ""
    ensures n > 0
  {
    if IsConversion(f) then ReadSpec(f).end + 1 else if f[0] == '%' then 2 else 1
  }

  function StepArgs(f: string, args: seq<Arg>): seq<Arg>
    requires f != "" && StepOk(f, args)
  {
    if IsConversion(f) && TakesArg(f[ReadSpec(f).end]) then args[1..] else args
  }

  /** What is printed for it. */
  function StepText(f: string, args: seq<Arg>): string
    requires f != "" && StepOk(f, args)
  {
    if IsConversion(f) then
      var r := ReadSpec(f);
      Padded(r.zero, r.width, Converted(f[r.end], FirstArg(args)))
    else [f[0]]
  }

  predicate Accepts(f: string, args: seq<Arg>)
    decreases |f|
  {
    f == "" || (StepOk(f, args) && StepLen(f) <= |f| && Accepts(f[StepLen(f)..], StepArgs(f, args)))
  }

  /** What vsprintf prints. */
  function Format(f: string, args: seq<Arg>): string
    requires Accepts(f, args)
    decreases |f|
  {
    if f == "" then "" else StepText(f, args) + Format(f[StepLen(f)..], StepArgs(f, args))
  }

  // ---------- writing a format ----------

  /** What a format is written from. */
  datatype Piece = Char(c: char) | Percent | Conv(zero: bool, width: nat, letter: char)

  predicate PieceOk(p: Piece) {
    match p
    case Char(c) => c != '%'
    case Percent => true
    case Conv(zero, width, letter) => TakesArg(letter)
  }

  function Show(p: Piece): string {
    match p
    case Char(c) => [c]
    case Percent => "%%"
    case Conv(zero, width, letter) =>
      "%" + (if zero then "0" else "") + WidthOf(width) + [letter]
  }

  function WidthOf(width: nat): string {
    if width == 0 then "" else Digits(width, 10)
  }

  predicate Fits(ps: seq<Piece>, args: seq<Arg>) {
    if ps == [] then true
    else
      && PieceOk(ps[0])
      && (ps[0].Conv? ==> args != [] && ArgOk(ps[0].letter, args[0]))
      && Fits(ps[1..], if ps[0].Conv? then args[1..] else args)
  }

  function ShowAll(ps: seq<Piece>): string {
    if ps == [] then "" else Show(ps[0]) + ShowAll(ps[1..])
  }

  function Expand(p: Piece, a: Arg): string
    requires PieceOk(p) && (p.Conv? ==> ArgOk(p.letter, a))
  {
    match p
    case Char(c) => [c]
    case Percent => "%"
    case Conv(zero, width, letter) => Padded(zero, width, Converted(letter, a))
  }

  /** Each piece on its own, one after the other. */
  function ExpandAll(ps: seq<Piece>, args: seq<Arg>): string
    requires Fits(ps, args)
  {
    if ps == [] then ""
    else Expand(ps[0], FirstArg(args)) + ExpandAll(ps[1..], if ps[0].Conv? then args[1..] else args)
  }

  lemma {:induction false} DigitRunIs(d: string, rest: string)
    requires AllDigits(d) && (rest != "" ==> !IsDigit(rest[0]))
    ensures DigitRun(d + rest) == |d|
  {
    if d == "" {
      assert d + rest == rest;
    } else {
      assert (d + rest)[1..] == d[1..] + rest;
      DigitRunIs(d[1..], rest);
    }
  }

  /** A written width is read back, and its first digit is not taken for the flag. */
  lemma ReadBack(zero: bool, width: nat, letter: char, rest: string)
    requires TakesArg(letter)
    ensures var f := Show(Conv(zero, width, letter)) + rest;
      && f[0] == '%' && f[1] != '%'
      && ReadSpec(f) == Spec(zero, width, |f| - |rest| - 1) && f[|f| - |rest| - 1] == letter
  {
    hide ReadSpec, Digits, ValueOf, AllDigits;
    WidthDigits(width);
    ReadBackDigits(zero, WidthOf(width), letter, rest);
  }

  lemma WidthDigits(width: nat)
    ensures var d := WidthOf(width);
      AllDigits(d) && (d != "" ==> d[0] != '0') && ValueOf(d, 10) == width
  {
    DigitsOfNat(width, 10);
  }

  lemma ReadBackDigits(zero: bool, d: string, letter: char, rest: string)
    requires TakesArg(letter) && AllDigits(d) && (d != "" ==> d[0] != '0')
    ensures var f := "%" + (if zero then "0" else "") + d + [letter] + rest;
      && f[0] == '%' && f[1] != '%'
      && ReadSpec(f) == Spec(zero, ValueOf(d, 10), |f| - |rest| - 1) && f[|f| - |rest| - 1] == letter
  {
    hide ValueOf;
    var f := "%" + (if zero then "0" else "") + d + [letter] + rest;
    var i := if zero then 2 else 1;
    assert f[1] == '0' <==> zero;
    assert f[i..] == d + ([letter] + rest);
    DigitRunIs(d, [letter] + rest);
    assert f[i..i + |d|] == d;
  }

  /** Whatever pieces a format was written from, vsprintf prints each of them as if it stood alone. */
  lemma {:induction false} FormatOfPieces(ps: seq<Piece>, args: seq<Arg>)
    requires Fits(ps, args)
    ensures Accepts(ShowAll(ps), args) && Format(ShowAll(ps), args) == ExpandAll(ps, args)
  {
    if ps != [] {
      var p, rest, f := ps[0], ShowAll(ps[1..]), ShowAll(ps);
      FormatOfPieces(ps[1..], if p.Conv? then args[1..] else args);
      match p {
        case Char(c) => assert f[1..] == rest;
        case Percent => assert f[0] == '%' && f[1] == '%' && f[2..] == rest;
        case Conv(zero, width, letter) =>
          ReadBack(zero, width, letter, rest);
          assert f[ReadSpec(f).end + 1..] == rest;
      }
    }
  }
}
