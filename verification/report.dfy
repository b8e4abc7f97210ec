/** The report `main` prints: a four-way choice on `(include_original, raw)`.
    Raw modes print plain decimal integers; the other modes use a
    human-readable formatter, which is a parameter here. */
module Report {
  import opened Io

  /** U+2192 RIGHTWARDS ARROW, between the original and compressed sizes. */
  const Arrow: char := '\U{2192}'

  const Separator: string := [' ', Arrow, ' ']

  predicate IsDigit(c: char)
  {
    '0' <= c <= '9'
  }

  predicate AllDigits(s: string)
  {
    forall i :: 0 <= i < |s| ==> IsDigit(s[i])
  }

  function DigitValue(c: char): nat
    requires IsDigit(c)
  {
    c as int - '0' as int
  }

  function DigitChar(d: nat): (c: char)
    requires d < 10
    ensures IsDigit(c) && DigitValue(c) == d
  {
    ('0' as int + d) as char
  }

  /** `n` written in decimal, as `{}` displays an integer: at least one
      digit, and no leading zero unless the number is 0 itself. */
  function Decimal(n: nat): (s: string)
    ensures |s| >= 1 && AllDigits(s)
    ensures s[0] == '0' ==> n == 0 && |s| == 1
    decreases n
  {
    if n < 10 then [DigitChar(n)] else Decimal(n / 10) + [DigitChar(n % 10)]
  }

  /** The value of a string of decimal digits. */
  function ParseDecimal(s: string): nat
    requires AllDigits(s)
  {
    if s == [] then 0 else 10 * ParseDecimal(s[..|s| - 1]) + DigitValue(s[|s| - 1])
  }

  /** Reading a printed number back gives the number. */
  lemma {:induction false} DecimalRoundTrip(n: nat)
    ensures ParseDecimal(Decimal(n)) == n
    decreases n
  {
    if n >= 10 {
      var s := Decimal(n);
      assert s[..|s| - 1] == Decimal(n / 10);
      DecimalRoundTrip(n / 10);
    }
  }

  /** Distinct sizes are printed differently. */
  lemma DecimalInjective(a: nat, b: nat)
    requires Decimal(a) == Decimal(b)
    ensures a == b
  {
    DecimalRoundTrip(a);
    DecimalRoundTrip(b);
  }

  /** The line `main` prints, without its newline. */
  function Line(includeOriginal: bool, raw: bool, original: nat, compressed: nat,
                human: nat -> string): string
  {
    match (includeOriginal, raw)
    case (false, false) => human(compressed)
    case (false, true) => Decimal(compressed)
    case (true, false) => human(original) + Separator + human(compressed)
    case (true, true) => Decimal(original) + Separator + Decimal(compressed)
  }

  /** What `println!` writes. */
  function Output(includeOriginal: bool, raw: bool, original: nat, compressed: nat,
                  human: nat -> string): string
  {
    Line(includeOriginal, raw, original, compressed, human) + "\n"
  }

  /** Exactly one line is printed, provided the formatter (used only outside
      raw mode) never produces a line break itself. */
  lemma OneLine(includeOriginal: bool, raw: bool, original: nat, compressed: nat,
                human: nat -> string)
    requires !raw ==> forall n :: '\n' !in human(n)
    ensures var out := Output(includeOriginal, raw, original, compressed, human);
            && |out| >= 1 && out[|out| - 1] == '\n'
            && '\n' !in out[..|out| - 1]
  {
  }

  /** The numbers a raw-mode line carries: the original size when shown,
      and the compressed size. */
  datatype RawLine = RawLine(original: Option<nat>, compressed: nat)

  /** The length of the run of digits `s` starts with. */
  function LeadingDigits(s: string): (n: nat)
    ensures n <= |s| && AllDigits(s[..n])
    ensures n < |s| ==> !IsDigit(s[n])
  {
    if s == [] || !IsDigit(s[0]) then 0
    else
      var n := 1 + LeadingDigits(s[1..]);
      assert s[..n] == [s[0]] + s[1..][..n - 1];
      n
  }

  /** Reads a raw-mode line back: a bare number, or two numbers joined by
      the arrow separator; anything else is not a raw-mode line. */
  function ParseRaw(line: string): Option<RawLine>
  {
    if line != [] && AllDigits(line) then Some(RawLine(None, ParseDecimal(line)))
    else
      var i := LeadingDigits(line);
      if 0 < i && i + |Separator| < |line| && line[i..i + |Separator|] == Separator
         && AllDigits(line[i + |Separator|..])
      then Some(RawLine(Some(ParseDecimal(line[..i])), ParseDecimal(line[i + |Separator|..])))
      else None
  }

  lemma {:induction false} LeadingDigitsOfConcat(a: string, b: string)
    requires AllDigits(a)
    requires b != [] && !IsDigit(b[0])
    ensures LeadingDigits(a + b) == |a|
    decreases |a|
  {
    if a != [] {
      var ab := a + b;
      assert ab[0] == a[0] && IsDigit(a[0]);
      assert ab[1..] == a[1..] + b;
      assert AllDigits(a[1..]) by {
        forall i | 0 <= i < |a[1..]| ensures IsDigit(a[1..][i]) {
          assert a[1..][i] == a[i + 1];
        }
      }
      LeadingDigitsOfConcat(a[1..], b);
      assert LeadingDigits(ab) == 1 + LeadingDigits(ab[1..]);
    } else {
      assert a + b == b;
    }
  }

  /** A raw-mode line reads back as exactly the sizes it was printed from,
      and shows the original size exactly when it was asked for: the choice
      of branch depends on the two flags alone. */
  lemma RawLineRoundTrip(includeOriginal: bool, original: nat, compressed: nat, human: nat -> string)
    ensures ParseRaw(Line(includeOriginal, true, original, compressed, human))
         == Some(RawLine(if includeOriginal then Some(original) else None, compressed))
  {
    var a, c := Decimal(original), Decimal(compressed);
    DecimalRoundTrip(compressed);
    if includeOriginal {
      var line := a + Separator + c;
      assert line[|a|] == ' ';
      assert !AllDigits(line) by { assert !IsDigit(line[|a|]); }
      LeadingDigitsOfConcat(a, Separator + c);
      assert line == a + (Separator + c);
      assert line[..|a|] == a;
      assert line[|a|..|a| + |Separator|] == Separator;
      assert line[|a| + |Separator|..] == c;
      DecimalRoundTrip(original);
    }
  }
}
