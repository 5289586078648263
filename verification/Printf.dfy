/** Formatted output into a bounded buffer (mini_vsnprintf), and the untruncated rendering it
    writes a prefix of. */
module Printf {
  import opened Arith
  import opened Machine
  import opened Itoa

  /** An argument slot: the 64-bit word in it, and the string there if the word is a pointer. */
  datatype Arg = Arg(word: Word, text: string)

  const UNSIGNED_INT: nat := 0x1_0000_0000

  /** The character at i of a format, which a NUL ends. */
  function At(fmt: string, i: nat): char { if i < |fmt| then fmt[i] else '\0' }

  // ---- directives

  /** A directive after its '%': zero padding, whether a single 'l' came before the conversion
      character (NUL if the format ended), and where the format goes on. */
  datatype Directive = Directive(zeroPad: nat, long: bool, conv: char, next: nat)

  predicate IsDigit(c: char) { '0' <= c <= '9' }

  /** The padding is kept in a char. */
  function AddDigit(pad: nat, c: char): nat
    requires IsDigit(c)
  {
    (pad * 10 + (c as int - '0' as int)) % 256
  }

  /** Scan a padding from i on: the padding, and where its first non-digit is. */
  function Padding(fmt: string, i: nat, pad: nat): (r: (nat, nat))
    ensures i <= r.1 && (i <= |fmt| ==> r.1 <= |fmt|) && !IsDigit(At(fmt, r.1))
    decreases |fmt| - i
  {
    if IsDigit(At(fmt, i)) then Padding(fmt, i + 1, AddDigit(pad, At(fmt, i))) else (pad, i)
  }

  function Parse(fmt: string, i: nat): (d: Directive)
    ensures d.next > i
  {
    var (pad, j) := if At(fmt, i) == '0' then Padding(fmt, i + 1, 0) else (0, i);
    var long := At(fmt, j) == 'l';
    var k := if long then j + 1 else j;
    Directive(pad, long, At(fmt, k), k + 1)
  }

  /** Conversions that take an argument. */
  predicate Takes(conv: char) { conv in {'u', 'd', 'x', 'X', 'c', 's'} }

  predicate IsNumeric(conv: char) { conv in {'u', 'd', 'x', 'X'} }

  /** The value a numeric conversion prints: without 'l', the low half of the argument. */
  function NumberArg(d: Directive, arg: Arg): (v: int)
    ensures LONG_MIN <= v <= LONG_MAX
  {
    if d.long then Signed(arg.word) else arg.word % UNSIGNED_INT
  }

  function NumberText(d: Directive, arg: Arg): string
    requires IsNumeric(d.conv)
  {
    if d.conv == 'u' || d.conv == 'd' then Text(NumberArg(d, arg), 10, false, d.conv == 'u', d.zeroPad)
    else Text(NumberArg(d, arg), 16, d.conv == 'X', true, d.zeroPad)
  }

  /** What a directive prints. */
  function Piece(d: Directive, arg: Arg): string {
    if IsNumeric(d.conv) then NumberText(d, arg)
    else if d.conv == 'c' then [(arg.word % 256) as char]
    else if d.conv == 's' then arg.text
    else if d.conv == 'l' then ""
    else [d.conv]
  }

  // ---- the rendering

  /** The whole output for a format from i on, with arguments from k on. */
  function Render(fmt: string, i: nat, args: nat -> Arg, k: nat): string
    decreases |fmt| - i
  {
    if At(fmt, i) == '\0' then ""
    else if fmt[i] != '%' then [fmt[i]] + Render(fmt, i + 1, args, k)
    else
      var d := Parse(fmt, i + 1);
      if d.conv == '\0' then ""
      else Piece(d, args(k)) + Render(fmt, d.next, args, if Takes(d.conv) then k + 1 else k)
  }

  /** Every number in the rendering, with its terminator, fits the buffer numbers are made in. */
  predicate NumbersFit(fmt: string, i: nat, args: nat -> Arg, k: nat)
    decreases |fmt| - i
  {
    if At(fmt, i) == '\0' then true
    else if fmt[i] != '%' then NumbersFit(fmt, i + 1, args, k)
    else
      var d := Parse(fmt, i + 1);
      d.conv != '\0' ==>
        && (IsNumeric(d.conv) ==> |NumberText(d, args(k))| < BUFFER)
        && NumbersFit(fmt, d.next, args, if Takes(d.conv) then k + 1 else k)
  }

  // ---- what a directive says

  predicate AllDigits(s: string) { forall i :: 0 <= i < |s| ==> IsDigit(s[i]) }

  /** The text of a directive: perhaps a 0 and more digits, perhaps an l, and the conversion. */
  function DirectiveText(padded: bool, digits: string, long: bool, conv: char): string {
    (if padded then "0" + digits else "") + (if long then "l" else "") + [conv]
  }

  /** The text can be read in one way only. */
  predicate Readable(padded: bool, digits: string, long: bool, conv: char) {
    && AllDigits(digits)
    && (!long ==> conv != 'l' && (if padded then !IsDigit(conv) else conv != '0'))
  }

  /** The format goes on with a text from i on. */
  predicate GoesOn(fmt: string, i: nat, s: string) { i + |s| <= |fmt| && fmt[i..i + |s|] == s }

  lemma NextDigit(v: int, c: char)
    requires IsDigit(c)
    ensures AddDigit(v % 256, c) == (v * 10 + DigitValue(c)) % 256
  {
    var d := DigitValue(c);
    DivModIs(v % 256 * 10 + d, 256, (v * 10 + d) / 256 - v / 256 * 10, (v * 10 + d) % 256);
  }

  lemma ValueAppended(fmt: string, i: nat, j: nat)
    requires i <= j < |fmt|
    ensures Value(fmt[i..j + 1], 10) == Value(fmt[i..j], 10) * 10 + DigitValue(fmt[j])
  {
    assert fmt[i..j + 1][..|fmt[i..j + 1]| - 1] == fmt[i..j];
  }

  /** Scanning digits takes them all and keeps their decimal value modulo 256. */
  lemma {:induction false} PaddingReads(fmt: string, i: nat, j: nat, k: nat, pad: nat)
    requires i <= j <= k <= |fmt| && AllDigits(fmt[i..k]) && !IsDigit(At(fmt, k))
    requires pad == Value(fmt[i..j], 10) % 256
    ensures Padding(fmt, j, pad) == (Value(fmt[i..k], 10) % 256, k)
    decreases k - j
  {
    if j < k {
      assert fmt[i..k][j - i] == fmt[j];
      NextDigit(Value(fmt[i..j], 10), fmt[j]);
      ValueAppended(fmt, i, j);
      PaddingReads(fmt, i, j + 1, k, AddDigit(pad, fmt[j]));
    }
  }

  lemma GoesOnSplit(fmt: string, i: nat, a: string, b: string)
    requires GoesOn(fmt, i, a + b)
    ensures GoesOn(fmt, i, a) && GoesOn(fmt, i + |a|, b)
  {
    var s := fmt[i..i + |a + b|];
    assert s[..|a|] == a && s[|a|..] == b;
    assert fmt[i..i + |a|] == s[..|a|] && fmt[i + |a|..i + |a| + |b|] == s[|a|..];
  }

  lemma StartsWith(fmt: string, i: nat, s: string)
    requires GoesOn(fmt, i, s) && s != []
    ensures At(fmt, i) == s[0]
  {
    assert fmt[i] == fmt[i..i + |s|][0];
  }

  /** The part of a directive's text behind the padding. */
  lemma TailReads(fmt: string, j: nat, long: bool, conv: char)
    requires GoesOn(fmt, j, (if long then "l" else "") + [conv]) && (!long ==> conv != 'l')
    ensures (At(fmt, j) == 'l' <==> long) && At(fmt, if long then j + 1 else j) == conv
  {
    GoesOnSplit(fmt, j, if long then "l" else "", [conv]);
    StartsWith(fmt, if long then j + 1 else j, [conv]);
    if long {
      StartsWith(fmt, j, "l");
    }
  }

  /** What reading a directive's text gives: the padding is the decimal value of its digits modulo
      256, the conversion is its last character, and the directive ends right behind it. */
  lemma ParseReads(fmt: string, i: nat, padded: bool, digits: string, long: bool, conv: char)
    requires Readable(padded, digits, long, conv) && GoesOn(fmt, i, DirectiveText(padded, digits, long, conv))
    ensures Parse(fmt, i) == Directive(if padded then Value(digits, 10) % 256 else 0, long, conv,
                                       i + |DirectiveText(padded, digits, long, conv)|)
  {
    var tail := (if long then "l" else "") + [conv];
    if padded {
      assert DirectiveText(padded, digits, long, conv) == "0" + (digits + tail);
      GoesOnSplit(fmt, i, "0", digits + tail);
      StartsWith(fmt, i, "0");
      GoesOnSplit(fmt, i + 1, digits, tail);
      var k := i + 1 + |digits|;
      TailReads(fmt, k, long, conv);
      assert fmt[i + 1..i + 1] == "";
      PaddingReads(fmt, i + 1, i + 1, k, 0);
    } else {
      assert DirectiveText(padded, digits, long, conv) == tail;
      TailReads(fmt, i, long, conv);
    }
  }

  lemma GoesOnJoin(fmt: string, i: nat, a: string, b: string)
    requires GoesOn(fmt, i, a) && GoesOn(fmt, i + |a|, b)
    ensures GoesOn(fmt, i, a + b)
  {
    assert fmt[i..i + |a + b|] == fmt[i..i + |a|] + fmt[i + |a|..i + |a| + |b|];
  }

  lemma OneChar(fmt: string, i: nat)
    requires i < |fmt|
    ensures GoesOn(fmt, i, [At(fmt, i)])
  {}

  lemma TailText(fmt: string, j: nat, long: bool)
    requires (long <==> At(fmt, j) == 'l') && (if long then j + 1 else j) < |fmt|
    ensures GoesOn(fmt, j, (if long then "l" else "") + [At(fmt, if long then j + 1 else j)])
  {
    OneChar(fmt, if long then j + 1 else j);
    if long {
      OneChar(fmt, j);
    }
    GoesOnJoin(fmt, j, if long then "l" else "", [At(fmt, if long then j + 1 else j)]);
  }

  lemma PaddedText(fmt: string, i: nat, digits: string, tail: string)
    requires At(fmt, i) == '0' && GoesOn(fmt, i + 1, digits) && GoesOn(fmt, i + 1 + |digits|, tail)
    ensures GoesOn(fmt, i, "0" + (digits + tail))
  {
    OneChar(fmt, i);
    GoesOnJoin(fmt, i + 1, digits, tail);
    GoesOnJoin(fmt, i, "0", digits + tail);
  }

  /** And every directive the format does not break off is such a text. */
  lemma ParsedText(fmt: string, i: nat) returns (padded: bool, digits: string)
    requires Parse(fmt, i).next <= |fmt|
    ensures var d := Parse(fmt, i);
      && Readable(padded, digits, d.long, d.conv) && (!padded ==> digits == "")
      && GoesOn(fmt, i, DirectiveText(padded, digits, d.long, d.conv))
  {
    var d := Parse(fmt, i);
    padded, digits := At(fmt, i) == '0', "";
    var tail := (if d.long then "l" else "") + [d.conv];
    if padded {
      var k := Padding(fmt, i + 1, 0).1;
      PaddingSpan(fmt, i + 1, 0);
      digits := fmt[i + 1..k];
      TailText(fmt, k, d.long);
      PaddedText(fmt, i, digits, tail);
      assert DirectiveText(padded, digits, d.long, d.conv) == "0" + (digits + tail);
    } else {
      TailText(fmt, i, d.long);
      assert DirectiveText(padded, digits, d.long, d.conv) == tail;
    }
  }

  lemma {:induction false} PaddingSpan(fmt: string, i: nat, pad: nat)
    requires i <= |fmt|
    ensures var k := Padding(fmt, i, pad).1; k <= |fmt| && AllDigits(fmt[i..k])
    decreases |fmt| - i
  {
    if IsDigit(At(fmt, i)) {
      PaddingSpan(fmt, i + 1, AddDigit(pad, At(fmt, i)));
      var k := Padding(fmt, i, pad).1;
      assert fmt[i..k] == [fmt[i]] + fmt[i + 1..k];
    }
  }

  // ---- numbers fit

  /** The digits after a directive's leading 0. */
  function PadText(fmt: string, i: nat): string
    requires i <= |fmt|
  {
    if At(fmt, i) == '0' then fmt[i + 1..Padding(fmt, i + 1, 0).1] else ""
  }

  lemma PadTextIs(fmt: string, i: nat)
    requires i <= |fmt|
    ensures AllDigits(PadText(fmt, i)) && Parse(fmt, i).zeroPad == Value(PadText(fmt, i), 10) % 256
  {
    if At(fmt, i) == '0' {
      PaddingSpan(fmt, i + 1, 0);
      assert fmt[i + 1..i + 1] == "";
      PaddingReads(fmt, i + 1, i + 1, Padding(fmt, i + 1, 0).1, 0);
    }
  }

  /** The most a padding may be: only a long d can print a sign. */
  function PadLimit(d: Directive): nat { if d.conv == 'd' && d.long then 22 else 23 }

  /** The digits of each padding of a number, modulo 256, are within the limit. */
  predicate PaddingsFit(fmt: string, i: nat)
    decreases |fmt| - i
  {
    if At(fmt, i) == '\0' then true
    else if fmt[i] != '%' then PaddingsFit(fmt, i + 1)
    else
      var d := Parse(fmt, i + 1);
      d.conv != '\0' ==>
        (IsNumeric(d.conv) ==> Value(PadText(fmt, i + 1), 10) % 256 <= PadLimit(d)) && PaddingsFit(fmt, d.next)
  }

  /** The arguments that print longest: the least 64-bit number everywhere. */
  const WORST: nat -> Arg := _ => Arg(0x8000_0000_0000_0000, "")

  /** A number fits whatever its argument exactly if the worst one does, which is when the padding
      is within the limit. */
  lemma NumberFits(d: Directive, arg: Arg)
    requires IsNumeric(d.conv)
    ensures |NumberText(d, Arg(0x8000_0000_0000_0000, ""))| < BUFFER <==> d.zeroPad <= PadLimit(d)
    ensures d.zeroPad <= PadLimit(d) ==> |NumberText(d, arg)| < BUFFER
  {
    FitsIff(NumberArg(d, arg), 10, false, d.conv == 'u', d.zeroPad);
    FitsIff(NumberArg(d, arg), 16, d.conv == 'X', true, d.zeroPad);
    var worst := NumberArg(d, Arg(0x8000_0000_0000_0000, ""));
    FitsIff(worst, 10, false, d.conv == 'u', d.zeroPad);
    FitsIff(worst, 16, d.conv == 'X', true, d.zeroPad);
  }

  /** The text of a format decides whether its numbers always fit: if its paddings are within the
      limit they do for all arguments, and if not they do not for the worst ones. */
  lemma {:induction false} PaddingsDecide(fmt: string, i: nat, args: nat -> Arg, k: nat)
    ensures PaddingsFit(fmt, i) ==> NumbersFit(fmt, i, args, k)
    ensures !PaddingsFit(fmt, i) ==> !NumbersFit(fmt, i, WORST, k)
    decreases |fmt| - i
  {
    if At(fmt, i) != '\0' {
      if fmt[i] != '%' {
        PaddingsDecide(fmt, i + 1, args, k);
      } else {
        var d := Parse(fmt, i + 1);
        if d.conv != '\0' {
          PadTextIs(fmt, i + 1);
          if IsNumeric(d.conv) {
            NumberFits(d, args(k));
          }
          PaddingsDecide(fmt, d.next, args, if Takes(d.conv) then k + 1 else k);
        }
      }
    }
  }

  // ---- what is rendered

  lemma RenderChar(fmt: string, i: nat, args: nat -> Arg, k: nat)
    requires At(fmt, i) != '\0' && At(fmt, i) != '%'
    ensures Render(fmt, i, args, k) == [fmt[i]] + Render(fmt, i + 1, args, k)
  {}

  lemma OneMore(fmt: string, i: nat, j: nat, rest: string)
    requires i < j <= |fmt|
    ensures [fmt[i]] + (fmt[i + 1..j] + rest) == fmt[i..j] + rest
  {
    assert fmt[i..j] == [fmt[i]] + fmt[i + 1..j];
  }

  /** Text up to the first '%' is copied. */
  lemma {:induction false} LiteralText(fmt: string, i: nat, j: nat, args: nat -> Arg, k: nat)
    requires i <= j <= |fmt| && forall p :: i <= p < j ==> fmt[p] != '%' && fmt[p] != '\0'
    ensures Render(fmt, i, args, k) == fmt[i..j] + Render(fmt, j, args, k)
    decreases j - i
  {
    if i < j {
      LiteralText(fmt, i + 1, j, args, k);
      OneMore(fmt, i, j, Render(fmt, j, args, k));
      RenderChar(fmt, i, args, k);
    } else {
      assert fmt[i..j] == "";
    }
  }

  lemma RenderParsed(fmt: string, i: nat, args: nat -> Arg, k: nat)
    requires At(fmt, i) == '%' && Parse(fmt, i + 1).conv != '\0'
    ensures var d := Parse(fmt, i + 1);
      Render(fmt, i, args, k) == Piece(d, args(k)) + Render(fmt, d.next, args, if Takes(d.conv) then k + 1 else k)
  {}

  /** The rendering of a directive: its piece, and the rest of the format with the next argument if
      the conversion is one of the six that take one. */
  lemma RenderDirective(fmt: string, i: nat, padded: bool, digits: string, long: bool, conv: char, args: nat -> Arg, k: nat)
    requires Readable(padded, digits, long, conv) && conv != '\0'
    requires GoesOn(fmt, i, "%" + DirectiveText(padded, digits, long, conv))
    ensures var next := i + 1 + |DirectiveText(padded, digits, long, conv)|;
      var d := Directive(if padded then Value(digits, 10) % 256 else 0, long, conv, next);
      Render(fmt, i, args, k) == Piece(d, args(k)) + Render(fmt, next, args,
        if conv == 'u' || conv == 'd' || conv == 'x' || conv == 'X' || conv == 'c' || conv == 's' then k + 1 else k)
  {
    ParseBehindPercent(fmt, i, padded, digits, long, conv);
    RenderParsed(fmt, i, args, k);
  }

  lemma ParseBehindPercent(fmt: string, i: nat, padded: bool, digits: string, long: bool, conv: char)
    requires Readable(padded, digits, long, conv) && GoesOn(fmt, i, "%" + DirectiveText(padded, digits, long, conv))
    ensures At(fmt, i) == '%'
    ensures Parse(fmt, i + 1) == Directive(if padded then Value(digits, 10) % 256 else 0, long, conv,
                                           i + 1 + |DirectiveText(padded, digits, long, conv)|)
  {
    GoesOnSplit(fmt, i, "%", DirectiveText(padded, digits, long, conv));
    StartsWith(fmt, i, "%");
    ParseReads(fmt, i + 1, padded, digits, long, conv);
  }

  /** A directive without padding and l. */
  lemma RenderPlain(fmt: string, i: nat, conv: char, args: nat -> Arg, k: nat)
    requires GoesOn(fmt, i, "%" + [conv]) && conv != '\0' && conv != 'l' && conv != '0'
    ensures Render(fmt, i, args, k) == Piece(Directive(0, false, conv, i + 2), args(k)) + Render(fmt, i + 2, args,
      if conv == 'u' || conv == 'd' || conv == 'x' || conv == 'X' || conv == 'c' || conv == 's' then k + 1 else k)
  {
    assert DirectiveText(false, "", false, conv) == [conv];
    RenderDirective(fmt, i, false, "", false, conv, args, k);
  }

  /** "%s" prints the string the next argument points to, and takes it. */
  lemma StringPrints(fmt: string, i: nat, args: nat -> Arg, k: nat)
    requires GoesOn(fmt, i, "%s")
    ensures Render(fmt, i, args, k) == args(k).text + Render(fmt, i + 2, args, k + 1)
  {
    assert "%s" == "%" + ['s'];
    RenderPlain(fmt, i, 's', args, k);
  }

  /** "%c" prints the low byte of the next argument as a character, and takes it. */
  lemma CharPrints(fmt: string, i: nat, args: nat -> Arg, k: nat)
    requires GoesOn(fmt, i, "%c")
    ensures Render(fmt, i, args, k) == [(args(k).word % 256) as char] + Render(fmt, i + 2, args, k + 1)
  {
    assert "%c" == "%" + ['c'];
    RenderPlain(fmt, i, 'c', args, k);
  }

  /** A percent sign and any other character that is no conversion print that character, and take
      nothing; "%%" prints one percent sign. */
  lemma OtherPrints(fmt: string, i: nat, conv: char, args: nat -> Arg, k: nat)
    requires GoesOn(fmt, i, "%" + [conv])
    requires conv !in {'u', 'd', 'x', 'X', 'c', 's', 'l', '0', '\0'}
    ensures Render(fmt, i, args, k) == [conv] + Render(fmt, i + 2, args, k)
  {
    RenderPlain(fmt, i, conv, args, k);
  }

  lemma PercentPrints(fmt: string, i: nat, args: nat -> Arg, k: nat)
    requires GoesOn(fmt, i, "%%")
    ensures Render(fmt, i, args, k) == "%" + Render(fmt, i + 2, args, k)
  {
    assert "%%" == "%" + ['%'];
    OtherPrints(fmt, i, '%', args, k);
  }

  /** The number a numeric conversion is to print: with 'l' the 64-bit argument, signed for 'd',
      without it the low half of the argument. */
  function NumberMeant(long: bool, conv: char, word: Word): int {
    if !long then word % UNSIGNED_INT else if conv == 'd' then Signed(word) else word
  }

  /** A numeric directive prints its number: decimal for u and d, hexadecimal for x and X, with
      letters of its own case, padded with zeros to the decimal value of its digits modulo 256;
      and it takes one argument. Excepted are the least long and unsigned longs from 2^63 on. */
  lemma NumberPrints(fmt: string, i: nat, padded: bool, digits: string, long: bool, conv: char, args: nat -> Arg, k: nat)
    returns (text: string)
    requires Readable(padded, digits, long, conv) && conv in {'u', 'd', 'x', 'X'}
    requires GoesOn(fmt, i, "%" + DirectiveText(padded, digits, long, conv))
    ensures Render(fmt, i, args, k) == text + Render(fmt, i + 1 + |DirectiveText(padded, digits, long, conv)|, args, k + 1)
    ensures var n := NumberMeant(long, conv, args(k).word);
      LONG_MIN < n <= LONG_MAX ==>
        Shows(text, if conv == 'x' || conv == 'X' then 16 else 10, n, if padded then Value(digits, 10) % 256 else 0, conv == 'X')
  {
    RenderDirective(fmt, i, padded, digits, long, conv, args, k);
    var d := Directive(if padded then Value(digits, 10) % 256 else 0, long, conv,
                       i + 1 + |DirectiveText(padded, digits, long, conv)|);
    text := NumberText(d, args(k));
    var n, v := NumberMeant(long, conv, args(k).word), NumberArg(d, args(k));
    if LONG_MIN < n <= LONG_MAX {
      assert v == n;
      if conv == 'x' || conv == 'X' {
        TextShows(v, 16, conv == 'X', true, d.zeroPad);
      } else {
        TextShows(v, 10, false, conv == 'u', d.zeroPad);
      }
    }
  }

  lemma EndsAfterL(fmt: string, j: nat, long: bool)
    requires GoesOn(fmt, j, if long then "l" else "") && j + (if long then 1 else 0) == |fmt|
    ensures (At(fmt, j) == 'l' <==> long) && At(fmt, if long then j + 1 else j) == '\0'
  {
    if long {
      StartsWith(fmt, j, "l");
    }
  }

  /** Reading a directive that breaks off finds no conversion. */
  lemma ParseBroken(fmt: string, i: nat, padded: bool, digits: string, long: bool)
    requires AllDigits(digits) && GoesOn(fmt, i, (if padded then "0" + digits else "") + (if long then "l" else ""))
    requires i + |(if padded then "0" + digits else "") + (if long then "l" else "")| == |fmt|
    ensures Parse(fmt, i).conv == '\0'
  {
    var pad, l := if padded then "0" + digits else "", if long then "l" else "";
    GoesOnSplit(fmt, i, pad, l);
    var j := i + |pad|;
    EndsAfterL(fmt, j, long);
    if padded {
      GoesOnSplit(fmt, i, "0", digits);
      StartsWith(fmt, i, "0");
      assert fmt[i + 1..i + 1] == "";
      PaddingReads(fmt, i + 1, i + 1, j, 0);
    }
  }

  /** A format that ends inside a directive prints nothing more. */
  lemma BrokenOff(fmt: string, i: nat, padded: bool, digits: string, long: bool, args: nat -> Arg, k: nat)
    requires AllDigits(digits) && i <= |fmt|
    requires fmt[i..] == "%" + ((if padded then "0" + digits else "") + (if long then "l" else ""))
    ensures Render(fmt, i, args, k) == ""
  {
    var s := (if padded then "0" + digits else "") + (if long then "l" else "");
    assert GoesOn(fmt, i, "%" + s) by {
      assert fmt[i..i + |"%" + s|] == fmt[i..];
    }
    GoesOnSplit(fmt, i, "%", s);
    StartsWith(fmt, i, "%");
    ParseBroken(fmt, i + 1, padded, digits, long);
  }

  lemma DenotesOne(s: string, radix: nat, m: int, n: int)
    requires Denotes(s, radix, m)
    ensures Denotes(s, radix, n) <==> n == m
  {}

  /** With 'l', a conversion prints its 64-bit argument, signed or unsigned as it says, but for
      the least negative number and unsigned numbers from 2^63 on. */
  lemma LongNumberIff(d: Directive, arg: Arg)
    requires IsNumeric(d.conv) && d.long
    ensures Denotes(NumberText(d, arg), if d.conv in {'x', 'X'} then 16 else 10,
                    if d.conv == 'd' then Signed(arg.word) else arg.word) <==>
      if d.conv == 'd' then Signed(arg.word) != LONG_MIN else arg.word <= LONG_MAX
  {
    PrintsTheNumberIff(Signed(arg.word), 10, false, d.conv == 'u', d.zeroPad);
    PrintsTheNumberIff(Signed(arg.word), 16, d.conv == 'X', true, d.zeroPad);
  }

  /** A 32-bit integer read as signed. */
  function SignedInt(u: nat): int
    requires u < UNSIGNED_INT
  {
    if u < UNSIGNED_INT / 2 then u else u - UNSIGNED_INT
  }

  /** Without 'l', a conversion always prints the argument as an unsigned int; so 'd' prints an
      int exactly if the int is not negative. */
  lemma IntNumber(d: Directive, arg: Arg)
    requires IsNumeric(d.conv) && !d.long
    ensures Denotes(NumberText(d, arg), if d.conv in {'x', 'X'} then 16 else 10, arg.word % UNSIGNED_INT)
    ensures d.conv == 'd' ==>
      (Denotes(NumberText(d, arg), 10, SignedInt(arg.word % UNSIGNED_INT)) <==> SignedInt(arg.word % UNSIGNED_INT) >= 0)
  {
    var v := arg.word % UNSIGNED_INT;
    PrintsTheNumberIff(v, 10, false, d.conv == 'u', d.zeroPad);
    PrintsTheNumberIff(v, 16, d.conv == 'X', true, d.zeroPad);
    if d.conv == 'd' {
      DenotesOne(NumberText(d, arg), 10, v, SignedInt(v));
    }
  }

  /** A second 'l' is taken for the conversion: "%ll" prints nothing and takes no argument, and
      what follows it is ordinary text. */
  lemma LongLongPrintsNothing(fmt: string, i: nat, args: nat -> Arg, k: nat)
    requires GoesOn(fmt, i, "%ll")
    ensures Render(fmt, i, args, k) == Render(fmt, i + 3, args, k)
  {
    assert fmt[i] == fmt[i..i + 3][0] && fmt[i + 1] == fmt[i..i + 3][1] && fmt[i + 2] == fmt[i..i + 3][2];
  }

  /** So "%ll" and a conversion print the conversion's letter. */
  lemma LongLongPrintsLetter(conv: char, args: nat -> Arg)
    requires conv != '%' && conv != '\0'
    ensures Render("%ll" + [conv], 0, args, 0) == [conv]
  {
    var fmt := "%ll" + [conv];
    LongLongPrintsNothing(fmt, 0, args, 0);
    assert Render(fmt, 4, args, 0) == "";
    assert Render(fmt, 3, args, 0) == [conv] + Render(fmt, 4, args, 0);
  }

  // ---- truncation

  function Cut(s: string, n: nat): (r: string)
    ensures r <= s && |r| == if |s| < n then |s| else n
  {
    if |s| < n then s else s[..n]
  }

  /** Cutting as one goes is cutting at the end. */
  lemma CutOnce(a: string, b: string, n: nat)
    ensures Cut(Cut(a, n) + b, n) == Cut(a + b, n)
  {}

  /** Output went on from one position to another: nothing was touched, or a terminator follows
      the output and what lies behind it is as it was. */
  predicate Grew(was: seq<char>, now: seq<char>, from: nat, to: nat) {
    && |now| == |was| && from <= to <= |now|
    && if from == to && now == was then true
       else to < |now| && now[to] == '\0' && forall j :: to < j < |now| ==> now[j] == was[j]
  }

  lemma GrewTwice(a: seq<char>, b: seq<char>, c: seq<char>, from: nat, mid: nat, to: nat)
    requires Grew(a, b, from, mid) && Grew(b, c, mid, to)
    ensures Grew(a, c, from, to)
  {}

  class MiniBuff {
    const buffer: array<char>
    const bufferLen: nat
    var pos: nat

    constructor (buffer0: array<char>, bufferLen0: nat)
      requires bufferLen0 <= buffer0.Length
      ensures buffer == buffer0 && bufferLen == bufferLen0 && pos == 0 && Valid()
    {
      buffer, bufferLen, pos := buffer0, bufferLen0, 0;
    }

    ghost predicate Valid()
      reads this
    {
      bufferLen <= buffer.Length && (pos == 0 || pos < bufferLen)
    }

    function Room(): nat { if bufferLen == 0 then 0 else bufferLen - 1 }

    ghost function Written(): string
      requires Valid()
      reads this, buffer
    {
      buffer[..pos]
    }

    // _putc
    method Putc(ch: char) returns (put: int)
      requires Valid()
      modifies this`pos, buffer
      ensures Valid() && pos == old(pos) + put
      ensures Written() == Cut(old(Written()) + [ch], Room())
      ensures Grew(old(buffer[..]), buffer[..], old(pos), pos)
    {
      if pos + 1 >= bufferLen {
        return 0;
      }
      ghost var before := Written();
      buffer[pos] := ch;
      pos := pos + 1;
      buffer[pos] := '\0';
      assert Written() == before + [ch];
      return 1;
    }

    // _puts
    method Puts(s: string, len: nat) returns (put: nat)
      requires Valid() && bufferLen > 0 && len <= |s|
      modifies this`pos, buffer
      ensures Valid() && pos == old(pos) + put
      ensures Written() == Cut(old(Written()) + s[..len], Room())
      ensures Grew(old(buffer[..]), buffer[..], old(pos), pos)
    {
      put := len;
      if bufferLen - pos - 1 < len {
        put := bufferLen - pos - 1;
      }
      ghost var before := Written();
      var i := 0;
      while i < put
        invariant 0 <= i <= put && pos == old(pos) + i && Valid()
        invariant Written() == before + s[..i]
        invariant forall j :: pos <= j < buffer.Length ==> buffer[j] == old(buffer[j])
      {
        buffer[pos] := s[i];
        pos := pos + 1;
        assert Written() == before + s[..i] + [s[i]];
        i := i + 1;
      }
      buffer[pos] := '\0';
      assert before + s[..put] == Cut(before + s[..len], Room());
    }
  }

  // ---- the formatter

  /** The padding digits of a directive. */
  method ScanPadding(fmt: string, i: nat) returns (pad: nat, next: nat)
    ensures (pad, next) == Padding(fmt, i, 0)
  {
    pad, next := 0, i;
    while IsDigit(At(fmt, next))
      invariant i <= next
      invariant Padding(fmt, next, pad) == Padding(fmt, i, 0)
      decreases |fmt| - next
    {
      pad := AddDigit(pad, At(fmt, next));
      next := next + 1;
    }
  }

  /** Read a directive after its '%'. */
  method Scan(fmt: string, i: nat) returns (d: Directive)
    ensures d == Parse(fmt, i)
  {
    var pad, next := 0, i;
    if At(fmt, next) == '0' {
      pad, next := ScanPadding(fmt, next + 1);
    }
    var long := false;
    if At(fmt, next) == 'l' {
      long := true;
      next := next + 1;
    }
    d := Directive(pad, long, At(fmt, next), next + 1);
  }

  /** The numeric conversions. */
  method PutNumber(d: Directive, arg: Arg, b: MiniBuff)
    requires b.Valid() && b.bufferLen > 0 && IsNumeric(d.conv) && |NumberText(d, arg)| < BUFFER
    modifies b`pos, b.buffer
    ensures b.Valid() && b.Written() == Cut(old(b.Written()) + NumberText(d, arg), b.Room())
    ensures Grew(old(b.buffer[..]), b.buffer[..], old(b.pos), b.pos)
  {
    var bf := new char[BUFFER];
    var value := if d.long then Signed(arg.word) else arg.word % UNSIGNED_INT;
    var len;
    if d.conv == 'u' || d.conv == 'd' {
      len := MiniItoa(value, 10, false, d.conv == 'u', bf, d.zeroPad);
    } else {
      len := MiniItoa(value, 16, d.conv == 'X', true, bf, d.zeroPad);
    }
    var _ := b.Puts(bf[..], len);
  }

  /** The switch on the conversion character. */
  method Convert(d: Directive, arg: Arg, b: MiniBuff)
    requires b.Valid() && b.pos + 1 < b.bufferLen && d.conv != '\0'
    requires IsNumeric(d.conv) ==> |NumberText(d, arg)| < BUFFER
    modifies b`pos, b.buffer
    ensures b.Valid() && b.Written() == Cut(old(b.Written()) + Piece(d, arg), b.Room())
    ensures Grew(old(b.buffer[..]), b.buffer[..], old(b.pos), b.pos)
  {
    if d.conv == 'l' {
      assert b.Written() + "" == b.Written();
    } else if IsNumeric(d.conv) {
      PutNumber(d, arg, b);
    } else if d.conv == 'c' {
      var _ := b.Putc((arg.word % 256) as char);
    } else if d.conv == 's' {
      var _ := b.Puts(arg.text, |arg.text|);
      assert arg.text[..|arg.text|] == arg.text;
    } else {
      var _ := b.Putc(d.conv);
    }
  }

  /** One round of the formatter's loop: it puts a piece of the rendering, or finds the end. */
  method PutItem(fmt: string, i: nat, args: nat -> Arg, k: nat, b: MiniBuff)
    returns (i': nat, k': nat, ended: bool, ghost piece: string)
    requires b.Valid() && b.pos + 1 < b.bufferLen && At(fmt, i) != '\0' && NumbersFit(fmt, i, args, k)
    modifies b`pos, b.buffer
    ensures b.Valid() && NumbersFit(fmt, i', args, k') && i < i'
    ensures b.Written() == Cut(old(b.Written()) + piece, b.Room())
    ensures Render(fmt, i, args, k) == piece + if ended then "" else Render(fmt, i', args, k')
    ensures Grew(old(b.buffer[..]), b.buffer[..], old(b.pos), b.pos)
  {
    ended := false;
    if fmt[i] != '%' {
      var _ := b.Putc(fmt[i]);
      i', k', piece := i + 1, k, [fmt[i]];
    } else {
      var d := Scan(fmt, i + 1);
      if d.conv == '\0' {
        i', k', ended, piece := |fmt| + i + 1, k, true, "";
        assert b.Written() + piece == b.Written();
      } else {
        Convert(d, args(k), b);
        i', k', piece := d.next, if Takes(d.conv) then k + 1 else k, Piece(d, args(k));
      }
    }
  }

  /** The formatter's loop. */
  method PutItems(fmt: string, args: nat -> Arg, b: MiniBuff)
    requires b.Valid() && b.pos == 0 && NumbersFit(fmt, 0, args, 0)
    modifies b`pos, b.buffer
    ensures b.Valid() && b.Written() == Cut(Render(fmt, 0, args, 0), b.Room())
    ensures Grew(old(b.buffer[..]), b.buffer[..], 0, b.pos)
  {
    ghost var was := b.buffer[..];
    ghost var whole, rest := Render(fmt, 0, args, 0), Render(fmt, 0, args, 0);
    var i, k := 0, 0;
    assert b.Written() + rest == whole;
    while At(fmt, i) != '\0'
      invariant b.Valid() && NumbersFit(fmt, i, args, k) && rest == Render(fmt, i, args, k)
      invariant Cut(b.Written() + rest, b.Room()) == Cut(whole, b.Room())
      invariant Grew(was, b.buffer[..], 0, b.pos)
      decreases |fmt| - i
    {
      if b.pos + 1 >= b.bufferLen {
        break;
      }
      ghost var before, mid := b.Written(), b.buffer[..];
      ghost var from := b.pos;
      var i', k', ended, piece := PutItem(fmt, i, args, k, b);
      ghost var rest' := if ended then "" else Render(fmt, i', args, k');
      Advanced(before, piece, rest, rest', whole, b.Room());
      GrewTwice(was, mid, b.buffer[..], 0, from, b.pos);
      rest := rest';
      if ended {
        break;
      }
      i, k := i', k';
    }
    CutDone(b.Written(), rest, b.Room());
  }

  /** mini_vsnprintf: what is written is as much of the whole rendering as fits in front of a
      terminator, and the result is its length. */
  method MiniVsnprintf(buffer: array<char>, bufferLen: nat, fmt: string, args: nat -> Arg) returns (n: nat)
    requires bufferLen <= buffer.Length && NumbersFit(fmt, 0, args, 0)
    modifies buffer
    ensures n <= buffer.Length
    ensures buffer[..n] == Cut(Render(fmt, 0, args, 0), if bufferLen == 0 then 0 else bufferLen - 1)
    ensures Grew(old(buffer[..]), buffer[..], 0, n)
  {
    var b := new MiniBuff(buffer, bufferLen);
    PutItems(fmt, args, b);
    n := b.pos;
  }

  /** Once the room is used up or nothing is left to write, what is written is the cut. */
  lemma CutDone(written: string, rest: string, n: nat)
    requires |written| <= n && (|written| == n || rest == "")
    ensures Cut(written + rest, n) == written
  {}

  /** Writing a piece of what is left changes nothing about where the output will end up. */
  lemma Advanced(before: string, piece: string, rest: string, rest': string, whole: string, n: nat)
    requires rest == piece + rest' && Cut(before + rest, n) == Cut(whole, n)
    ensures Cut(Cut(before + piece, n) + rest', n) == Cut(whole, n)
  {
    CutOnce(before + piece, rest', n);
    assert before + (piece + rest') == before + piece + rest';
  }
}
