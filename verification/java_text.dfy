/** The pieces of the Java library the server thread leans on, over
    unbounded integers and `seq<char>`: `int` and `byte` ranges,
    `Integer.toString`/`toHexString`, `Integer.parseInt`/`Byte.parseByte`,
    `String.indexOf`, `String.trim` and the first `BufferedReader.readLine`. */
module JavaText {
  import opened Wrappers

  /** A Java `int`. */
  type Int32 = x: int | -0x8000_0000 <= x < 0x8000_0000

  /** A Java `byte` (signed). */
  type Byte = b: int | -128 <= b < 128

  /** The radixes `Character.digit` and `Character.forDigit` accept. */
  type Radix = r: int | 2 <= r <= 36 witness 10

  /** The unchecked exceptions the modelled code can throw. */
  datatype Exception = NullPointer | NumberFormat | IndexOutOfBounds

  /** `Character.digit(c, radix)` over ASCII: the digit's value, or -1. */
  function CharDigit(c: char, radix: Radix): (v: int)
    ensures -1 <= v < radix
    ensures v >= 0 ==> ('0' <= c <= '9' || 'a' <= c <= 'z' || 'A' <= c <= 'Z')
  {
    var d :=
      if '0' <= c <= '9' then c as int - '0' as int
      else if 'a' <= c <= 'z' then c as int - 'a' as int + 10
      else if 'A' <= c <= 'Z' then c as int - 'A' as int + 10
      else -1;
    if d < radix then d else -1
  }

  /** `Character.digit` ignores case: a letter digit is worth what its
      lower-case form is, and `forDigit` writes every digit back in lower
      case. */
  lemma {:induction false} CharDigitCase(c: char, radix: Radix)
    ensures CharDigit(c, radix) >= 0 ==>
      ForDigit(CharDigit(c, radix), radix) == if 'A' <= c <= 'Z' then (c as int + 32) as char else c
    ensures 'A' <= c <= 'Z' ==> CharDigit(c, radix) == CharDigit((c as int + 32) as char, radix)
  {
  }

  /** `Character.forDigit(d, radix)`: the lower-case digit of value `d`. */
  function ForDigit(d: nat, radix: Radix): (c: char)
    requires d < radix
    ensures CharDigit(c, radix) == d
    ensures c != '-' && c != '+' && c != ':' && c != ';' && c != '\n' && c != '\r' && c > ' '
  {
    if d < 10 then ('0' as int + d) as char else ('a' as int + d - 10) as char
  }

  /** Every character of `s` is a digit of the radix (so none is a sign, a
      separator, a line terminator or a blank). */
  predicate AllDigits(s: string, radix: Radix)
  {
    forall i :: 0 <= i < |s| ==> CharDigit(s[i], radix) >= 0
  }

  /** The digits of `n` in `radix`, most significant first, no leading zero
      (`Integer.toString(n, radix)` for `n >= 0`). */
  function NatToString(n: nat, radix: Radix): (s: string)
    ensures |s| >= 1
    ensures AllDigits(s, radix)
    ensures |s| == 1 <==> n < radix
    ensures s[0] == '0' <==> n == 0
    decreases n
  {
    if n < radix then [ForDigit(n, radix)]
    else
      DivBounds(n, radix);
      NatToString(n / radix, radix) + [ForDigit(n % radix, radix)]
  }

  /** The value of a string of digits, read most significant first. */
  function DigitsValue(s: string, radix: Radix): nat
    requires AllDigits(s, radix)
  {
    if s == [] then 0
    else
      var high := DigitsValue(s[..|s| - 1], radix);
      MulNonNegative(high, radix);
      high * radix + CharDigit(s[|s| - 1], radix)
  }

  /** `String.valueOf(n)`, also what `n + ""` produces: the decimal digits
      of `n`, after a minus sign when `n` is negative. */
  function IntToString(n: Int32): (s: string)
    ensures |s| >= 1 && (s[0] == '-' <==> n < 0)
  {
    if n < 0 then "-" + NatToString(-(n as int), 10) else NatToString(n, 10)
  }

  /** The text `String.valueOf(n)` gives is the decimal digits whose value
      is `n`, after a minus sign when `n` is negative. */
  lemma {:induction false} IntToStringDigits(n: Int32)
    ensures var s := IntToString(n);
      && (n >= 0 ==> AllDigits(s, 10) && DigitsValue(s, 10) == n && (s[0] == '0' <==> n == 0))
      && (n < 0 ==> |s| >= 2 && AllDigits(s[1..], 10) && DigitsValue(s[1..], 10) == -(n as int) && s[1] != '0')
  {
    if n < 0 {
      var digits := NatToString(-(n as int), 10);
      DigitsValueOfNatToString(-(n as int), 10);
      assert IntToString(n) == "-" + digits;
      assert ("-" + digits)[1..] == digits;
      assert digits[0] != '0';
    } else {
      DigitsValueOfNatToString(n, 10);
    }
  }

  /** `Integer.toHexString(x)`: the two's-complement bits of `x` read as an
      unsigned number, in lower-case hex without leading zeros. */
  function ToHexString(x: Int32): (h: string)
    ensures |h| >= 1 && AllDigits(h, 16)
    ensures DigitsValue(h, 16) == if x < 0 then x + 0x1_0000_0000 else x
  {
    DigitsValueOfNatToString(if x < 0 then x + 0x1_0000_0000 else x, 16);
    NatToString(if x < 0 then x + 0x1_0000_0000 else x, 16)
  }

  /** `Integer.parseInt(s, radix)`: an optional sign, then at least one
      digit; fails (NumberFormatException) on anything else and on values
      outside the `int` range. */
  function ParseInt(s: string, radix: Radix): (r: Option<Int32>)
    ensures r.Some? ==> |s| >= 1 && (CharDigit(s[0], radix) >= 0 || (|s| >= 2 && (s[0] == '-' || s[0] == '+')))
    ensures r.Some? ==> AllDigits(s[1..], radix)
  {
    if |s| == 0 then None
    else if s[0] == '-' || s[0] == '+' then
      if |s| == 1 then None else ParseMagnitude(s[0] == '-', s[1..], radix)
    else ParseMagnitude(false, s, radix)
  }

  /** The digits after the sign: all must be digits of the radix, and the
      signed value must fit in an `int`. */
  function ParseMagnitude(negative: bool, digits: string, radix: Radix): Option<Int32>
  {
    if !AllDigits(digits, radix) then None
    else
      var m: int := DigitsValue(digits, radix);
      var v: int := if negative then 0 - m else m;
      if -0x8000_0000 <= v < 0x8000_0000 then Some(v) else None
  }

  /** `Byte.parseByte(s, radix)`: `parseInt`, then a range check to a byte. */
  function ParseByte(s: string, radix: Radix): (r: Option<Byte>)
    ensures r.Some? <==> ParseInt(s, radix).Some? && -128 <= ParseInt(s, radix).value < 128
    ensures r.Some? ==> r.value == ParseInt(s, radix).value
  {
    match ParseInt(s, radix)
    case None => None
    case Some(v) => if -128 <= v < 128 then Some(v) else None
  }

  /** `s.indexOf(c)`: the first position of `c`, or -1. */
  function IndexOf(s: string, c: char): (k: int)
    ensures -1 <= k < |s|
    ensures k >= 0 ==> s[k] == c && c !in s[..k]
    ensures k == -1 <==> c !in s
  {
    if |s| == 0 then -1
    else if s[0] == c then 0
    else
      var k := IndexOf(s[1..], c);
      if k == -1 then -1 else k + 1
  }

  /** The number of leading characters of `s` at or below the space
      character. */
  function LeadingBlanks(s: string): (n: nat)
    ensures n <= |s|
    ensures forall i :: 0 <= i < n ==> s[i] <= ' '
    ensures n < |s| ==> s[n] > ' '
    decreases |s|
  {
    if |s| > 0 && s[0] <= ' ' then
      var n := LeadingBlanks(s[1..]);
      assert forall i :: 1 <= i < n + 1 ==> s[i] == s[1..][i - 1];
      n + 1
    else 0
  }

  /** `s` without its trailing characters at or below the space character:
      a prefix of `s` that ends above space, and only such characters are
      dropped. */
  function TrimEnd(s: string): (t: string)
    ensures t <= s
    ensures |t| > 0 ==> t[|t| - 1] > ' '
    ensures forall i :: |t| <= i < |s| ==> s[i] <= ' '
    decreases |s|
  {
    if |s| > 0 && s[|s| - 1] <= ' ' then TrimEnd(s[..|s| - 1]) else s
  }

  /** `String.trim`: the slice of `s` left after dropping every leading and
      trailing character at or below the space character. It starts right
      after the leading blanks, and everything after it is blank too. */
  function Trim(s: string): (t: string)
    ensures var a := LeadingBlanks(s);
      && a + |t| <= |s| && t == s[a..a + |t|]
      && (forall i :: a + |t| <= i < |s| ==> s[i] <= ' ')
    ensures |t| > 0 ==> t[0] > ' ' && t[|t| - 1] > ' '
    ensures (forall i :: 0 <= i < |s| ==> s[i] > ' ') ==> t == s
  {
    var a := LeadingBlanks(s);
    var t := TrimEnd(s[a..]);
    TrimShape(s, a, t);
    t
  }

  /** What `Trim` computes has the shape its contract states. */
  lemma {:induction false} TrimShape(s: string, a: nat, t: string)
    requires a == LeadingBlanks(s) && t == TrimEnd(s[a..])
    ensures a + |t| <= |s| && t == s[a..a + |t|]
    ensures forall i :: a + |t| <= i < |s| ==> s[i] <= ' '
    ensures |t| > 0 ==> t[0] > ' ' && t[|t| - 1] > ' '
    ensures (forall i :: 0 <= i < |s| ==> s[i] > ' ') ==> t == s
  {
    TrimEndAfter(s, a);
    NoBlanksUntrimmed(s);
  }

  /** Trimming the end of what follows position `a` leaves a slice of `s`
      that starts at `a` and is followed only by blanks. */
  lemma {:induction false} TrimEndAfter(s: string, a: nat)
    requires a <= |s| && (a < |s| ==> s[a] > ' ')
    ensures var t := TrimEnd(s[a..]);
      && a + |t| <= |s| && t == s[a..a + |t|]
      && (forall i :: a + |t| <= i < |s| ==> s[i] <= ' ')
      && (|t| > 0 ==> t[0] > ' ')
  {
    var u := s[a..];
    var t := TrimEnd(u);
    assert t == u[..|t|];
    forall i | a + |t| <= i < |s|
      ensures s[i] <= ' '
    {
      assert s[i] == u[i - a];
    }
  }

  /** A text with no character at or below space loses nothing to `trim`. */
  lemma {:induction false} NoBlanksUntrimmed(s: string)
    ensures (forall i :: 0 <= i < |s| ==> s[i] > ' ') ==> LeadingBlanks(s) == 0 && TrimEnd(s) == s
  {
    if forall i :: 0 <= i < |s| ==> s[i] > ' ' {
      if |s| > 0 {
        assert s[0] > ' ';
      }
    }
  }

  /** The characters before the first line terminator. */
  function LineBody(s: string): (line: string)
    ensures line <= s
    ensures forall i :: 0 <= i < |line| ==> line[i] != '\n' && line[i] != '\r'
    ensures |line| < |s| ==> s[|line|] == '\n' || s[|line|] == '\r'
  {
    if s == [] || s[0] == '\n' || s[0] == '\r' then []
    else [s[0]] + LineBody(s[1..])
  }

  /** The first `BufferedReader.readLine()` on a stream holding `content`:
      null at end of stream, otherwise the text up to the first '\n' or '\r'. */
  function ReadLine(content: string): (line: Option<string>)
    ensures line.None? <==> content == []
    ensures line.Some? ==> line.value == LineBody(content)
  {
    if content == [] then None else Some(LineBody(content))
  }

  lemma {:induction false} MulNonNegative(a: nat, b: nat)
    ensures a * b >= 0
  {
  }

  lemma {:induction false} DivBounds(n: nat, radix: Radix)
    ensures n % radix < radix
    ensures n >= radix ==> 1 <= n / radix < n
  {
    DivMod(n, radix);
  }

  lemma {:induction false} DivMod(n: nat, radix: Radix)
    ensures n == (n / radix) * radix + n % radix
    ensures n >= radix ==> 1 <= n / radix < n
  {
  }

  /** Reading back the digits `NatToString` writes gives the number. */
  lemma {:induction false} DigitsValueOfNatToString(n: nat, radix: Radix)
    ensures DigitsValue(NatToString(n, radix), radix) == n
    decreases n
  {
    var s := NatToString(n, radix);
    if n < radix {
      assert s[..0] == [];
    } else {
      var m, r := n / radix, n % radix;
      var q := NatToString(m, radix);
      assert s[..|s| - 1] == q;
      DivMod(n, radix);
      DigitsValueOfNatToString(m, radix);
      assert DigitsValue(s, radix) == m * radix + r;
    }
  }

  /** A decimal numeral without a leading zero is the one `Integer.toString`
      writes for its value: no other text of digits has that value. */
  lemma {:induction false} DecimalNumeralUnique(s: string, n: nat)
    requires |s| >= 1 && AllDigits(s, 10) && DigitsValue(s, 10) == n
    requires |s| > 1 ==> s[0] != '0'
    ensures s == NatToString(n, 10)
    decreases |s|
  {
    var last := s[|s| - 1];
    CharDigitCase(last, 10);
    if |s| == 1 {
      assert s[..0] == [];
    } else {
      var high := s[..|s| - 1];
      assert AllDigits(high, 10);
      LeadingDigitPositive(high);
      DivModUnique(DigitsValue(high, 10), CharDigit(last, 10), n);
      DecimalNumeralUnique(high, n / 10);
      assert s == high + [last];
    }
  }

  /** A numeral whose first digit is not zero is worth at least one. */
  lemma {:induction false} LeadingDigitPositive(s: string)
    requires |s| >= 1 && AllDigits(s, 10) && s[0] != '0'
    ensures DigitsValue(s, 10) >= 1
    decreases |s|
  {
    if |s| == 1 {
      assert s[..0] == [];
    } else {
      var high := s[..|s| - 1];
      assert AllDigits(high, 10) && high[0] == s[0];
      LeadingDigitPositive(high);
      MulNonNegative(DigitsValue(high, 10), 10);
    }
  }

  /** Quotient and remainder by ten are determined. */
  lemma {:induction false} DivModUnique(q: nat, d: int, n: nat)
    requires 0 <= d < 10 && n == q * 10 + d
    ensures n / 10 == q && n % 10 == d
  {
  }

  /** Blanks around text that starts and ends above space are what `trim`
      removes. */
  lemma {:induction false} TrimPadded(pre: string, t: string, post: string)
    requires forall i :: 0 <= i < |pre| ==> pre[i] <= ' '
    requires forall i :: 0 <= i < |post| ==> post[i] <= ' '
    requires |t| > 0 && t[0] > ' ' && t[|t| - 1] > ' '
    ensures Trim(pre + t + post) == t
  {
    var s := pre + t + post;
    var a := LeadingBlanks(s);
    var u := Trim(s);
    assert s[|pre|] == t[0];
    assert a == |pre|;
    assert s[|pre| + |t| - 1] == t[|t| - 1];
    assert |u| == |t|;
    assert s[|pre|..|pre| + |t|] == t;
  }

  /** The digits `NatToString` writes read back as the number, with
      either sign, when the signed value is an `int`. */
  lemma {:induction false} MagnitudeOfNatToString(negative: bool, m: nat, radix: Radix)
    requires if negative then m <= 0x8000_0000 else m < 0x8000_0000
    ensures ParseMagnitude(negative, NatToString(m, radix), radix) == Some(if negative then 0 - m else m)
  {
    DigitsValueOfNatToString(m, radix);
  }

  /** `Integer.parseInt` inverts `Integer.toString` on every non-negative `int`. */
  lemma {:induction false} ParseIntOfNatToString(n: nat, radix: Radix)
    requires n < 0x8000_0000
    ensures ParseInt(NatToString(n, radix), radix) == Some(n)
  {
    MagnitudeOfNatToString(false, n, radix);
  }

  /** `Integer.parseInt` reads a minus sign and the digits of `-n` as `n`. */
  lemma {:induction false} ParseNegative(n: Int32)
    requires n < 0
    ensures ParseInt(IntToString(n), 10) == Some(n)
  {
    var t := NatToString(-(n as int), 10);
    assert IntToString(n) == "-" + t;
    ParseMinus(t, 10);
    MagnitudeOfNatToString(true, -(n as int), 10);
  }

  /** A leading minus sign before at least one character hands the rest to
      the magnitude parser as a negative number. */
  lemma {:induction false} ParseMinus(t: string, radix: Radix)
    requires |t| >= 1
    ensures ParseInt("-" + t, radix) == ParseMagnitude(true, t, radix)
  {
    assert ("-" + t)[1..] == t;
  }

  /** `Integer.parseInt` inverts `String.valueOf` on every `int`, negative
      ones and `Integer.MIN_VALUE` included. */
  lemma {:induction false} ParseIntOfIntToString(n: Int32)
    ensures ParseInt(IntToString(n), 10) == Some(n)
  {
    if n < 0 {
      ParseNegative(n);
    } else {
      ParseIntOfNatToString(n, 10);
    }
  }

  lemma {:induction false} LastDigit(m: nat, radix: Radix)
    ensures var s := NatToString(m, radix); s[|s| - 1] == ForDigit(m % radix, radix)
  {
    if m < radix {
      SmallMod(m, radix);
    }
  }

  lemma {:induction false} SmallMod(m: nat, radix: Radix)
    requires m < radix
    ensures m % radix == m
  {
  }

  /** The last two digits of a number of at least two digits. */
  lemma {:induction false} LastTwoDigits(n: nat, radix: Radix)
    requires n >= radix
    ensures var s := NatToString(n, radix);
      |s| >= 2 && s[|s| - 2..] == [ForDigit((n / radix) % radix, radix), ForDigit(n % radix, radix)]
  {
    DivMod(n, radix);
    var q := NatToString(n / radix, radix);
    LastDigit(n / radix, radix);
    var s := NatToString(n, radix);
    assert s == q + [ForDigit(n % radix, radix)];
  }

  /** `Integer.parseInt` on digits alone: their value, when it fits in an
      `int`. */
  lemma {:induction false} ParseIntOfDigits(s: string, radix: Radix)
    requires |s| >= 1 && AllDigits(s, radix)
    ensures ParseInt(s, radix) == if DigitsValue(s, radix) < 0x8000_0000 then Some(DigitsValue(s, radix)) else None
  {
  }

  /** `Integer.parseInt` on a sign and digits: their value, negated after
      '-', when it fits in an `int`. */
  lemma {:induction false} ParseIntOfSigned(s: string, radix: Radix)
    requires |s| >= 2 && (s[0] == '-' || s[0] == '+') && AllDigits(s[1..], radix)
    ensures var v := if s[0] == '-' then 0 - DigitsValue(s[1..], radix) else DigitsValue(s[1..], radix);
      ParseInt(s, radix) == if -0x8000_0000 <= v < 0x8000_0000 then Some(v) else None
  {
  }

  /** `Byte.parseByte` on two digits: their value, read most significant
      first, when it fits in a byte, and a failure otherwise. */
  lemma {:induction false} ParseDigitPair(h: string, radix: Radix)
    requires |h| == 2 && AllDigits(h, radix)
    ensures var v := radix * CharDigit(h[0], radix) + CharDigit(h[1], radix);
      ParseByte(h, radix) == if v < 128 then Some(v) else None
  {
    TwoDigitsValue(h, radix);
    ParseIntOfDigits(h, radix);
  }

  /** Two digits are worth the first times the radix plus the second. */
  lemma {:induction false} TwoDigitsValue(h: string, radix: Radix)
    requires |h| == 2 && AllDigits(h, radix)
    ensures DigitsValue(h, radix) == radix * CharDigit(h[0], radix) + CharDigit(h[1], radix)
  {
    assert h[..1][..0] == [];
    assert DigitsValue(h[..1], radix) == CharDigit(h[0], radix);
  }

  /** `Byte.parseByte` on a sign and one digit: the digit's value, negated
      after '-'. */
  lemma {:induction false} ParseSignedDigit(sign: char, c: char, radix: Radix)
    requires (sign == '-' || sign == '+') && CharDigit(c, radix) >= 0
    ensures ParseByte([sign, c], radix) == Some(if sign == '-' then -CharDigit(c, radix) else CharDigit(c, radix))
  {
    var h := [sign, c];
    assert h[1..] == [c];
    assert [c][..0] == [];
    assert DigitsValue([c], radix) == CharDigit(c, radix);
  }

  /** `Byte.parseByte` rejects two characters whose second is not a digit,
      or whose first is neither a digit nor a sign. */
  lemma {:induction false} ParsePairRejected(h: string, radix: Radix)
    requires |h| == 2
    requires CharDigit(h[1], radix) < 0 || (CharDigit(h[0], radix) < 0 && h[0] != '-' && h[0] != '+')
    ensures ParseByte(h, radix) == None
  {
  }

  /** The first `c` in `a + [c] + b` is the one after `a` when `a` has none. */
  lemma {:induction false} IndexOfAfter(a: string, c: char, b: string)
    requires c !in a
    ensures IndexOf(a + [c] + b, c) == |a|
  {
    var s := a + [c] + b;
    assert s[..|a|] == a;
    assert s[|a|] == c;
  }

  /** A line without terminators followed by '\n' is read as exactly that
      line. */
  lemma {:induction false} LineBodyOfLine(a: string, rest: string)
    requires forall i :: 0 <= i < |a| ==> a[i] != '\n' && a[i] != '\r'
    ensures LineBody(a + "\n" + rest) == a
    decreases |a|
  {
    if a != [] {
      assert (a + "\n" + rest)[1..] == a[1..] + "\n" + rest;
      LineBodyOfLine(a[1..], rest);
      assert [a[0]] + a[1..] == a;
    }
  }
}
