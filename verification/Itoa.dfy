/** Printing an integer: what mini_itoa writes, and when it reads back as the number printed. */
module Itoa {
  import opened Machine
  import opened Arith

  const LONG_MIN: int := -0x8000_0000_0000_0000
  const LONG_MAX: int := 0x7fff_ffff_ffff_ffff

  /** A 64-bit integer read as signed. */
  function Signed(w: Word): (r: int)
    ensures LONG_MIN <= r <= LONG_MAX
  {
    if w <= LONG_MAX then w else w - WORD
  }

  // ---- the text of a number

  /** C's % and /, which truncate toward zero. */
  function Rem(a: int, b: int): (r: int)
    requires b > 0
    ensures -b < r < b && (a >= 0 ==> r >= 0) && (a <= 0 ==> r <= 0)
  {
    if a >= 0 then a % b else -((-a) % b)
  }

  function Quo(a: int, b: int): (q: int)
    requires b > 0
    ensures (a >= 0 ==> q >= 0) && (a <= 0 ==> q <= 0) && (a > 0 && b >= 2 ==> q < a)
  {
    if a >= 0 then a / b else -((-a) / b)
  }

  /** Negation of a long, which leaves the least one as it is. */
  function Negated(value: int): int { if value == LONG_MIN then value else -value }

  function DigitChar(digit: int, uppercase: bool): char
    requires -16 < digit < 16
  {
    if digit < 10 then ('0' as int + digit) as char
    else ((if uppercase then 'A' else 'a') as int + digit - 10) as char
  }

  /** The digits, most significant first. */
  function Digits(v: int, radix: nat, uppercase: bool): string
    requires 2 <= radix <= 16
    decreases if v > 0 then v else 0
  {
    var last := [DigitChar(Rem(v, radix), uppercase)];
    if Quo(v, radix) > 0 then Digits(Quo(v, radix), radix, uppercase) + last else last
  }

  function Zeros(n: int): (s: string)
    ensures |s| == if n > 0 then n else 0
    ensures forall i :: 0 <= i < |s| ==> s[i] == '0'
  {
    seq(if n > 0 then n else 0, _ => '0')
  }

  /** The text mini_itoa leaves in the buffer. */
  function Text(value: int, radix: nat, uppercase: bool, unsig: bool, zeroPad: nat): string
    requires 2 <= radix <= 16
  {
    var negative := value < 0 && !unsig;
    var digits := Digits(if negative then Negated(value) else value, radix, uppercase);
    (if negative then "-" else "") + Zeros(zeroPad - |digits|) + digits
  }

  // ---- reading it back

  function DigitValue(c: char): int {
    if '0' <= c <= '9' then c as int - '0' as int
    else if 'a' <= c <= 'f' then c as int - 'a' as int + 10
    else if 'A' <= c <= 'F' then c as int - 'A' as int + 10
    else -1
  }

  predicate IsNumber(s: string) { s != [] && forall i :: 0 <= i < |s| ==> DigitValue(s[i]) >= 0 }

  /** The number a string of digits denotes. */
  function Value(s: string, radix: nat): int {
    if s == [] then 0 else Value(s[..|s| - 1], radix) * radix + DigitValue(s[|s| - 1])
  }

  /** The text denotes the number, with a minus sign if it is negative. */
  predicate Denotes(s: string, radix: nat, n: int) {
    if s != [] && s[0] == '-' then IsNumber(s[1..]) && n == -Value(s[1..], radix)
    else IsNumber(s) && n == Value(s, radix)
  }

  lemma {:induction false} ValueZeros(n: int, s: string, radix: nat)
    requires radix >= 2
    ensures Value(Zeros(n) + s, radix) == Value(s, radix)
    decreases |s|, if n > 0 then n else 0
  {
    var z := Zeros(n);
    if s != [] {
      assert (z + s)[..|z + s| - 1] == z + s[..|s| - 1];
      ValueZeros(n, s[..|s| - 1], radix);
    } else if n > 0 {
      assert (z + s)[..|z + s| - 1] == Zeros(n - 1) + s;
      ValueZeros(n - 1, s, radix);
    } else {
      assert z + s == [];
    }
  }

  lemma DigitReadsBack(d: nat, uppercase: bool)
    requires d < 16
    ensures DigitValue(DigitChar(d, uppercase)) == d
  {}

  lemma AppendDigit(s: string, c: char, radix: nat)
    requires DigitValue(c) >= 0 && (s == [] || IsNumber(s))
    ensures IsNumber(s + [c]) && Value(s + [c], radix) == Value(s, radix) * radix + DigitValue(c)
  {
    assert (s + [c])[..|s + [c]| - 1] == s;
  }

  lemma {:induction false} DigitsReadBack(v: nat, radix: nat, uppercase: bool)
    requires 2 <= radix <= 16
    ensures IsNumber(Digits(v, radix, uppercase)) && Value(Digits(v, radix, uppercase), radix) == v
    decreases v
  {
    var d, q := Rem(v, radix), Quo(v, radix);
    DigitReadsBack(d, uppercase);
    if q > 0 {
      DigitsReadBack(q, radix, uppercase);
      AppendDigit(Digits(q, radix, uppercase), DigitChar(d, uppercase), radix);
    } else {
      AppendDigit([], DigitChar(d, uppercase), radix);
      assert [] + [DigitChar(d, uppercase)] == [DigitChar(d, uppercase)];
    }
    QuoRem(v, radix);
  }

  lemma QuoRem(v: nat, radix: nat)
    requires radix >= 2
    ensures v == Quo(v, radix) * radix + Rem(v, radix)
  {}

  /** Of a negative number only one character is printed, and it denotes nothing or zero. */
  lemma NegativeDigits(v: int, radix: nat, uppercase: bool)
    requires 2 <= radix <= 16 && v < 0
    ensures var s := Digits(v, radix, uppercase);
      |s| == 1 && DigitValue(s[0]) == if (-v) % radix == 0 then 0 else -1
  {}

  lemma NumberPadded(n: int, s: string, radix: nat)
    requires radix >= 2 && s != []
    ensures IsNumber(Zeros(n) + s) <==> IsNumber(s)
    ensures Value(Zeros(n) + s, radix) == Value(s, radix)
    ensures (Zeros(n) + s)[0] == '-' <==> n <= 0 && s[0] == '-'
  {
    var z := Zeros(n);
    ValueZeros(n, s, radix);
    if IsNumber(z + s) {
      forall i | 0 <= i < |s| ensures DigitValue(s[i]) >= 0 {
        assert (z + s)[|z| + i] == s[i];
      }
    }
  }

  /** The number mini_itoa is meant to print: the argument, read as unsigned if it says so. */
  function Meant(value: int, unsig: bool): int {
    if unsig && value < 0 then value + WORD else value
  }

  lemma SignedDenotes(n: int, digits: string, radix: nat, m: int)
    requires radix >= 2 && digits != []
    ensures Denotes("-" + Zeros(n) + digits, radix, m) <==> IsNumber(digits) && m == -Value(digits, radix)
  {
    NumberPadded(n, digits, radix);
    assert ("-" + Zeros(n) + digits)[1..] == Zeros(n) + digits;
  }

  lemma NoSign(s: string, radix: nat, m: int)
    requires s != [] && (s[0] == '-' ==> |s| == 1)
    ensures Denotes(s, radix, m) <==> IsNumber(s) && m == Value(s, radix)
  {
    if s[0] == '-' {
      assert DigitValue(s[0]) < 0 && s[1..] == [];
    }
  }

  lemma UnsignedDenotes(n: int, digits: string, radix: nat, m: int)
    requires radix >= 2 && digits != [] && (digits[0] == '-' ==> |digits| == 1)
    ensures Denotes(Zeros(n) + digits, radix, m) <==> IsNumber(digits) && m == Value(digits, radix)
  {
    NumberPadded(n, digits, radix);
    NoSign(Zeros(n) + digits, radix, m);
  }

  /** What the printed digits denote, for negative numbers too. */
  lemma DigitsDenote(v: int, radix: nat, uppercase: bool)
    requires 2 <= radix <= 16
    ensures var s := Digits(v, radix, uppercase);
      && s != [] && (s[0] == '-' ==> |s| == 1)
      && (v >= 0 ==> IsNumber(s)) && (IsNumber(s) ==> Value(s, radix) == if v >= 0 then v else 0)
  {
    var s := Digits(v, radix, uppercase);
    if v >= 0 {
      DigitsReadBack(v, radix, uppercase);
    } else {
      NegativeDigits(v, radix, uppercase);
      OneDigit(s, radix);
    }
  }

  lemma TextIs(value: int, radix: nat, uppercase: bool, unsig: bool, zeroPad: nat, digits: string)
    requires 2 <= radix <= 16
    requires digits == Digits(if value < 0 && !unsig then Negated(value) else value, radix, uppercase)
    ensures Text(value, radix, uppercase, unsig, zeroPad) ==
      if value < 0 && !unsig then "-" + Zeros(zeroPad - |digits|) + digits else Zeros(zeroPad - |digits|) + digits
  {
    assert "" + Zeros(zeroPad - |digits|) + digits == Zeros(zeroPad - |digits|) + digits;
  }

  /** Printing round-trips for every value but two kinds: the least negative number, and unsigned
      numbers from 2^63 on. */
  lemma PrintsTheNumberIff(value: int, radix: nat, uppercase: bool, unsig: bool, zeroPad: nat)
    requires 2 <= radix <= 16 && LONG_MIN <= value <= LONG_MAX
    ensures Denotes(Text(value, radix, uppercase, unsig, zeroPad), radix, Meant(value, unsig)) <==>
      if unsig then value >= 0 else value != LONG_MIN
  {
    var v := if value < 0 && !unsig then Negated(value) else value;
    var digits := Digits(v, radix, uppercase);
    DigitsDenote(v, radix, uppercase);
    TextIs(value, radix, uppercase, unsig, zeroPad, digits);
    if value < 0 && !unsig {
      SignedDenotes(zeroPad - |digits|, digits, radix, value);
    } else {
      UnsignedDenotes(zeroPad - |digits|, digits, radix, Meant(value, unsig));
    }
  }

  lemma OneDigit(s: string, radix: nat)
    requires |s| == 1
    ensures Value(s, radix) == DigitValue(s[0])
  {
    assert s[..0] == [] && Value([], radix) == 0;
  }

  /** Letters among the digits have the case asked for. */
  lemma {:induction false} DigitsCase(v: nat, radix: nat, uppercase: bool)
    requires 2 <= radix <= 16
    ensures forall c :: c in Digits(v, radix, uppercase) ==> !(if uppercase then 'a' <= c <= 'f' else 'A' <= c <= 'F')
    decreases v
  {
    if Quo(v, radix) > 0 {
      DigitsCase(Quo(v, radix), radix, uppercase);
    }
  }

  // ---- its length

  function Power(base: nat, n: nat): nat { if n == 0 then 1 else base * Power(base, n - 1) }

  /** There are exactly as many digits as the number needs. */
  lemma {:induction false} DigitCount(v: nat, radix: nat, uppercase: bool, n: nat)
    requires 2 <= radix <= 16
    ensures |Digits(v, radix, uppercase)| <= n + 1 <==> v < Power(radix, n + 1)
    decreases n
  {
    QuoRem(v, radix);
    var q := Quo(v, radix);
    if n > 0 {
      DigitCount(q, radix, uppercase, n - 1);
      QuoBelow(v, radix, Power(radix, n));
    } else {
      assert Power(radix, 1) == radix * Power(radix, 0);
      QuoBelow(v, radix, 1);
    }
  }

  lemma QuoBelow(v: nat, radix: nat, p: nat)
    requires radix >= 2
    ensures Quo(v, radix) < p <==> v < radix * p
  {
    QuoRem(v, radix);
    var q := Quo(v, radix);
    if q < p {
      MulMonotone(q + 1, p, radix);
    } else {
      MulMonotone(p, q, radix);
    }
  }

  lemma {:induction false} PowerSum(base: nat, a: nat, b: nat)
    ensures Power(base, a + b) == Power(base, a) * Power(base, b)
  {
    if b > 0 {
      PowerSum(base, a, b - 1);
      Swap(base, Power(base, a), Power(base, b - 1));
    }
  }

  lemma Swap(b: nat, x: nat, y: nat)
    ensures b * (x * y) == x * (b * y)
  {}

  lemma Squares(base: nat)
    ensures Power(base, 1) == base && Power(base, 2) == base * base
    ensures Power(base, 16) == Power(base, 8) * Power(base, 8)
    ensures Power(base, 8) == Power(base, 4) * Power(base, 4)
    ensures Power(base, 4) == Power(base, 2) * Power(base, 2)
  {
    PowerSum(base, 1, 1);
    PowerSum(base, 2, 2);
    PowerSum(base, 4, 4);
    PowerSum(base, 8, 8);
    assert Power(base, 1) == base * Power(base, 0);
  }

  const BUFFER: nat := 24

  lemma LongDigits(v: nat, uppercase: bool)
    requires v <= -LONG_MIN
    ensures |Digits(v, 10, uppercase)| <= 19 && |Digits(v, 16, uppercase)| <= 16
  {
    Squares(10);
    PowerSum(10, 16, 2);
    PowerSum(10, 18, 1);
    Squares(16);
    DigitCount(v, 10, uppercase, 18);
    DigitCount(v, 16, uppercase, 15);
  }

  /** The text and its terminator fit the buffer of the formatter exactly if the padding leaves
      room for a sign. */
  lemma FitsIff(value: int, radix: nat, uppercase: bool, unsig: bool, zeroPad: nat)
    requires (radix == 10 || radix == 16) && LONG_MIN <= value <= LONG_MAX
    ensures |Text(value, radix, uppercase, unsig, zeroPad)| < BUFFER <==>
      zeroPad <= if value < 0 && !unsig then 22 else 23
  {
    var v := if value < 0 && !unsig then Negated(value) else value;
    if v >= 0 {
      LongDigits(v, uppercase);
    } else {
      NegativeDigits(v, radix, uppercase);
    }
  }

  /** Without its sign the text has as many characters as the number has digits, or the padding. */
  lemma TextLength(value: int, radix: nat, uppercase: bool, unsig: bool, zeroPad: nat)
    requires 2 <= radix <= 16
    ensures var negative := value < 0 && !unsig;
      var digits := |Digits(if negative then Negated(value) else value, radix, uppercase)|;
      |Text(value, radix, uppercase, unsig, zeroPad)| ==
      (if negative then 1 else 0) + (if digits < zeroPad then zeroPad else digits)
  {}

  // ---- exactly which text

  /** The digits of s are digits of the radix, and its letters have the case asked for. */
  predicate DigitsOf(s: string, radix: nat, uppercase: bool) {
    forall i :: 0 <= i < |s| ==>
      0 <= DigitValue(s[i]) < radix && !(if uppercase then 'a' <= s[i] <= 'f' else 'A' <= s[i] <= 'F')
  }

  /** The digits of n, at least pad of them, with zeros in front only as far as needed for that. */
  predicate Padded(s: string, radix: nat, n: nat, pad: nat, uppercase: bool) {
    && s != [] && DigitsOf(s, radix, uppercase) && Value(s, radix) == n
    && |s| >= pad && (|s| > pad && |s| > 1 ==> s[0] != '0')
  }

  /** The text of n: a minus sign if n is negative, and the padded digits. */
  predicate Shows(s: string, radix: nat, n: int, pad: nat, uppercase: bool) {
    if n < 0 then s != [] && s[0] == '-' && Padded(s[1..], radix, -n, pad, uppercase)
    else Padded(s, radix, n, pad, uppercase)
  }

  lemma DigitCharOf(d: nat, radix: nat, uppercase: bool)
    requires d < radix <= 16
    ensures var c := DigitChar(d, uppercase);
      DigitValue(c) == d && !(if uppercase then 'a' <= c <= 'f' else 'A' <= c <= 'F') && (c == '0' <==> d == 0)
  {}

  lemma {:induction false} DigitsAre(v: nat, radix: nat, uppercase: bool)
    requires 2 <= radix <= 16
    ensures DigitsOf(Digits(v, radix, uppercase), radix, uppercase)
    ensures v > 0 ==> Digits(v, radix, uppercase)[0] != '0'
    ensures v < radix ==> |Digits(v, radix, uppercase)| == 1
    decreases v
  {
    var q, d := Quo(v, radix), Rem(v, radix);
    DigitCharOf(d, radix, uppercase);
    QuoRem(v, radix);
    QuoBelow(v, radix, 1);
    if q > 0 {
      DigitsAre(q, radix, uppercase);
    }
  }

  lemma ZerosInFront(n: int, s: string, radix: nat, uppercase: bool)
    requires radix >= 2 && DigitsOf(s, radix, uppercase)
    ensures DigitsOf(Zeros(n) + s, radix, uppercase)
  {
    var z := Zeros(n);
    forall i | 0 <= i < |z + s|
      ensures 0 <= DigitValue((z + s)[i]) < radix
      ensures !(if uppercase then 'a' <= (z + s)[i] <= 'f' else 'A' <= (z + s)[i] <= 'F')
    {
      if i < |z| {
        assert (z + s)[i] == '0';
      } else {
        assert (z + s)[i] == s[i - |z|];
      }
    }
  }

  lemma PaddedDigits(v: nat, radix: nat, uppercase: bool, pad: nat, digits: string)
    requires 2 <= radix <= 16 && digits == Digits(v, radix, uppercase)
    ensures Padded(Zeros(pad - |digits|) + digits, radix, v, pad, uppercase)
  {
    var n := pad - |digits|;
    DigitsAre(v, radix, uppercase);
    DigitsReadBack(v, radix, uppercase);
    ValueZeros(n, digits, radix);
    ZerosInFront(n, digits, radix, uppercase);
    if |digits| >= pad {
      assert Zeros(n) + digits == digits;
    }
  }

  /** What is printed of every number that is printed right. */
  lemma TextShows(value: int, radix: nat, uppercase: bool, unsig: bool, zeroPad: nat)
    requires 2 <= radix <= 16 && LONG_MIN <= value <= LONG_MAX && if unsig then value >= 0 else value != LONG_MIN
    ensures Shows(Text(value, radix, uppercase, unsig, zeroPad), radix, value, zeroPad, uppercase)
  {
    var v := if value < 0 then -value else value;
    var digits := Digits(v, radix, uppercase);
    PaddedDigits(v, radix, uppercase, zeroPad, digits);
    TextIs(value, radix, uppercase, unsig, zeroPad, digits);
    if value < 0 {
      SignInFront(Zeros(zeroPad - |digits|), digits);
    }
  }

  lemma SignInFront(zeros: string, digits: string)
    ensures var s := "-" + zeros + digits; s[0] == '-' && s[1..] == zeros + digits
  {}

  // ---- and there is no other such text

  lemma BelowStep(x: int, d: int, p: nat, radix: nat)
    requires 0 <= x < p && 0 <= d < radix
    ensures 0 <= x * radix + d < radix * p
  {
    MulMonotone(x + 1, p, radix);
    MulMonotone(0, x, radix);
    assert (x + 1) * radix == x * radix + radix && p * radix == radix * p;
  }

  lemma {:induction false} ValueBelow(s: string, radix: nat, uppercase: bool)
    requires 2 <= radix && DigitsOf(s, radix, uppercase)
    ensures 0 <= Value(s, radix) < Power(radix, |s|)
    decreases |s|
  {
    if s != [] {
      var n := |s| - 1;
      ValueBelow(s[..n], radix, uppercase);
      BelowStep(Value(s[..n], radix), DigitValue(s[n]), Power(radix, n), radix);
    }
  }

  lemma AboveStep(x: int, d: int, p: nat, radix: nat)
    requires p <= x && 0 <= d
    ensures x * radix + d >= radix * p
  {
    MulMonotone(p, x, radix);
  }

  /** A number with no zero in front is at least a power of the radix. */
  lemma {:induction false} ValueAbove(s: string, radix: nat, uppercase: bool)
    requires 2 <= radix && s != [] && DigitsOf(s, radix, uppercase) && s[0] != '0'
    ensures Value(s, radix) >= Power(radix, |s| - 1)
    decreases |s|
  {
    var n := |s| - 1;
    if n == 0 {
      assert s[..0] == [] && Value(s[..0], radix) == 0;
      NotZero(s[0]);
    } else {
      ValueAbove(s[..n], radix, uppercase);
      AboveStep(Value(s[..n], radix), DigitValue(s[n]), Power(radix, n - 1), radix);
    }
  }

  lemma NotZero(c: char)
    requires DigitValue(c) >= 0 && c != '0'
    ensures DigitValue(c) >= 1
  {}

  lemma SameDigit(c: char, d: char, uppercase: bool)
    requires DigitValue(c) == DigitValue(d) >= 0
    requires !(if uppercase then 'a' <= c <= 'f' else 'A' <= c <= 'F') && !(if uppercase then 'a' <= d <= 'f' else 'A' <= d <= 'F')
    ensures c == d
  {}

  lemma {:induction false} SameValue(s: string, t: string, radix: nat, uppercase: bool)
    requires 2 <= radix && DigitsOf(s, radix, uppercase) && DigitsOf(t, radix, uppercase)
    requires |s| == |t| && Value(s, radix) == Value(t, radix)
    ensures s == t
    decreases |s|
  {
    if s != [] {
      var n := |s| - 1;
      var a, b, c, d := Value(s[..n], radix), Value(t[..n], radix), DigitValue(s[n]), DigitValue(t[n]);
      assert a * radix + c == b * radix + d;
      DivModIs(a * radix + c, radix, a, c);
      DivModIs(b * radix + d, radix, b, d);
      SameValue(s[..n], t[..n], radix, uppercase);
      SameDigit(s[n], t[n], uppercase);
      assert s == s[..n] + [s[n]] && t == t[..n] + [t[n]];
    }
  }

  lemma {:induction false} PowerGrows(base: nat, a: nat, b: nat)
    requires base >= 1 && a <= b
    ensures 1 <= Power(base, a) <= Power(base, b)
    decreases b
  {
    if a < b {
      PowerGrows(base, a, b - 1);
      MulMonotone(1, base, Power(base, b - 1));
    } else if a > 0 {
      PowerGrows(base, a - 1, b - 1);
      MulMonotone(1, base, Power(base, b - 1));
    }
  }

  lemma PaddedNotLonger(s: string, t: string, radix: nat, n: nat, pad: nat, uppercase: bool)
    requires 2 <= radix && Padded(s, radix, n, pad, uppercase) && Padded(t, radix, n, pad, uppercase)
    ensures |t| <= |s|
  {
    if |t| > |s| {
      ValueBelow(s, radix, uppercase);
      ValueAbove(t, radix, uppercase);
      PowerGrows(radix, |s|, |t| - 1);
    }
  }

  /** Radix, number, padding and case determine the text. */
  lemma ShowsOnly(s: string, t: string, radix: nat, n: int, pad: nat, uppercase: bool)
    requires 2 <= radix && Shows(s, radix, n, pad, uppercase) && Shows(t, radix, n, pad, uppercase)
    ensures s == t
  {
    var a, b, m := if n < 0 then s[1..] else s, if n < 0 then t[1..] else t, if n < 0 then -n else n;
    PaddedNotLonger(a, b, radix, m, pad, uppercase);
    PaddedNotLonger(b, a, radix, m, pad, uppercase);
    SameValue(a, b, radix, uppercase);
    if n < 0 {
      assert s == [s[0]] + a && t == [t[0]] + b;
    }
  }

  // ---- in the buffer

  function Reversed(s: string): (r: string)
    ensures |r| == |s|
    ensures forall i :: 0 <= i < |s| ==> r[i] == s[|s| - 1 - i]
  {
    seq(|s|, i requires 0 <= i < |s| => s[|s| - 1 - i])
  }

  /** Write the digits, least significant first. */
  method PutDigits(value: int, radix: nat, uppercase: bool, buffer: array<char>) returns (p: nat)
    requires 2 <= radix <= 16 && |Digits(value, radix, uppercase)| <= buffer.Length
    modifies buffer
    ensures p == |Digits(value, radix, uppercase)| && Reversed(buffer[..p]) == Digits(value, radix, uppercase)
    ensures forall j :: p <= j < buffer.Length ==> buffer[j] == old(buffer[j])
  {
    p := 0;
    var v := value;
    ghost var digits := Digits(value, radix, uppercase);
    while true
      invariant 0 <= p <= buffer.Length
      invariant digits == Digits(v, radix, uppercase) + Reversed(buffer[..p])
      invariant forall j :: p <= j < buffer.Length ==> buffer[j] == old(buffer[j])
      decreases if v > 0 then v else 0
    {
      var digit := Rem(v, radix);
      ghost var before := buffer[..p];
      buffer[p] := DigitChar(digit, uppercase);
      p := p + 1;
      assert buffer[..p] == before + [DigitChar(digit, uppercase)];
      assert Reversed(buffer[..p]) == [DigitChar(digit, uppercase)] + Reversed(before);
      v := Quo(v, radix);
      if v <= 0 {
        break;
      }
    }
  }

  /** Pad with zeros up to zeroPad characters. */
  method PutZeros(buffer: array<char>, from: nat, zeroPad: nat) returns (p: nat)
    requires from <= buffer.Length && zeroPad <= buffer.Length
    modifies buffer
    ensures p == (if from < zeroPad then zeroPad else from) && buffer[..p] == old(buffer[..from]) + Zeros(zeroPad - from)
    ensures forall j :: p <= j < buffer.Length ==> buffer[j] == old(buffer[j])
  {
    p := from;
    while p < zeroPad
      invariant from <= p <= buffer.Length && (from < zeroPad ==> p <= zeroPad) && (from >= zeroPad ==> p == from)
      invariant forall j :: 0 <= j < buffer.Length ==> buffer[j] == if from <= j < p then '0' else old(buffer[j])
    {
      buffer[p] := '0';
      p := p + 1;
    }
  }

  /** Reverse the first len characters in place. */
  method Reverse(buffer: array<char>, len: nat)
    requires len <= buffer.Length
    modifies buffer
    ensures buffer[..len] == Reversed(old(buffer[..len]))
    ensures forall j :: len <= j < buffer.Length ==> buffer[j] == old(buffer[j])
  {
    var i := 0;
    while i < len / 2
      invariant 0 <= i <= len / 2
      invariant forall k :: 0 <= k < i ==> buffer[k] == old(buffer[len - 1 - k]) && buffer[len - 1 - k] == old(buffer[k])
      invariant forall k :: i <= k < len - i ==> buffer[k] == old(buffer[k])
      invariant forall j :: len <= j < buffer.Length ==> buffer[j] == old(buffer[j])
    {
      buffer[i], buffer[len - i - 1] := buffer[len - i - 1], buffer[i];
      i := i + 1;
    }
  }

  /** Append the sign, if there is one, and the terminator. */
  method PutSign(buffer: array<char>, from: nat, negative: bool) returns (len: nat)
    requires from + (if negative then 1 else 0) < buffer.Length
    modifies buffer
    ensures len == from + (if negative then 1 else 0)
    ensures buffer[..len] == old(buffer[..from]) + if negative then "-" else ""
    ensures forall j :: len <= j < buffer.Length ==> buffer[j] == if j == len then '\0' else old(buffer[j])
  {
    len := from;
    if negative {
      buffer[len] := '-';
      len := len + 1;
    }
    buffer[len] := '\0';
  }

  lemma ReversedParts(digits: string, zeros: int, sign: string)
    ensures Reversed(Reversed(digits) + Zeros(zeros) + Reversed(sign)) == sign + Zeros(zeros) + digits
  {}

  // mini_itoa
  method MiniItoa(value: int, radix: nat, uppercase: bool, unsig: bool, buffer: array<char>, zeroPad: nat) returns (len: nat)
    requires LONG_MIN <= value <= LONG_MAX && radix >= 2
    requires radix <= 16 ==> |Text(value, radix, uppercase, unsig, zeroPad)| < buffer.Length
    modifies buffer
    ensures radix > 16 ==> len == 0 && buffer[..] == old(buffer[..])
    ensures radix <= 16 ==>
      && len == |Text(value, radix, uppercase, unsig, zeroPad)|
      && buffer[..len] == Text(value, radix, uppercase, unsig, zeroPad)
      && (forall j :: len <= j < buffer.Length ==> buffer[j] == if j == len then '\0' else old(buffer[j]))
  {
    if radix > 16 {
      return 0;
    }
    var negative := value < 0 && !unsig;
    var v := if negative then Negated(value) else value;
    ghost var digits := Digits(v, radix, uppercase);
    len := PutDigits(v, radix, uppercase, buffer);
    assert buffer[..len] == Reversed(digits);
    len := PutZeros(buffer, len, zeroPad);
    ghost var sign := if negative then "-" else "";
    len := PutSign(buffer, len, negative);
    assert Reversed(sign) == sign;
    assert buffer[..len] == Reversed(digits) + Zeros(zeroPad - |digits|) + Reversed(sign);
    ReversedParts(digits, zeroPad - |digits|, sign);
    Reverse(buffer, len);
  }
}
