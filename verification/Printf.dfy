/**
 Printing and scanning integers: digits are collected backwards in a buffer of 64 characters and
 put out in reverse; scanning folds every digit character into a 32-bit word.
 */
module Printf {
  import opened Bits
  import opened Common
  import opened Streams

  const BUFFER_SIZE: nat := 64

  // ---- numerals ----

  /** Entry n of the table of digits: 0 to 9, then the letters. */
  function Digit(n: nat, upperCase: bool): char
    requires n < 36
  {
    if n < 10 then ('0' as int + n) as char
    else if upperCase then ('A' as int + n - 10) as char
    else ('a' as int + n - 10) as char
  }

  function Numeral(value: nat, base: nat, upperCase: bool): (s: Text)
    requires 2 <= base <= 36
    ensures s != []
  {
    if value < base then [Digit(value, upperCase)]
    else Numeral(value / base, base, upperCase) + [Digit(value % base, upperCase)]
  }

  function DigitValue(c: char): nat {
    if '0' <= c <= '9' then c as nat - '0' as nat
    else if 'a' <= c <= 'z' then c as nat - 'a' as nat + 10
    else if 'A' <= c <= 'Z' then c as nat - 'A' as nat + 10
    else 0
  }

  /** The number that a row of digits denotes in positional notation. */
  function Denoted(s: Text, base: nat): nat {
    if s == [] then 0 else Denoted(s[..|s| - 1], base) * base + DigitValue(s[|s| - 1])
  }

  lemma DigitDenotes(n: nat, upperCase: bool)
    requires n < 36
    ensures DigitValue(Digit(n, upperCase)) == n
    ensures Digit(n, upperCase) == '0' <==> n == 0
    ensures '0' <= Digit(n, upperCase) <= '9' <==> n < 10
  {
  }

  /** The table in which the digits are looked up. */
  function Table(upperCase: bool): Text {
    if upperCase then "0123456789ABCDEFGHIJKLMNOPQRSTUVWXYZ" else "0123456789abcdefghijklmnopqrstuvwxyz"
  }

  /** Entry n of the table is the digit n, and has the value n. */
  lemma DigitIs(n: nat, upperCase: bool)
    requires n < 36
    ensures |Table(upperCase)| == 36
    ensures Digit(n, upperCase) == Table(upperCase)[n] && DigitValue(Table(upperCase)[n]) == n
  {
    if upperCase { UpperEntry(n); } else { LowerEntry(n); }
  }

  lemma UpperEntry(n: nat)
    requires n < 36
    ensures "0123456789ABCDEFGHIJKLMNOPQRSTUVWXYZ"[n] == Digit(n, true)
  {
    var low, mid, high := "0123456789AB", "CDEFGHIJKLMN", "OPQRSTUVWXYZ";
    assert "0123456789ABCDEFGHIJKLMNOPQRSTUVWXYZ" == low + mid + high;
    if n < 12 { assert low[n] == Digit(n, true); }
    else if n < 24 { assert mid[n - 12] == Digit(n, true); }
    else { assert high[n - 24] == Digit(n, true); }
  }

  lemma LowerEntry(n: nat)
    requires n < 36
    ensures "0123456789abcdefghijklmnopqrstuvwxyz"[n] == Digit(n, false)
  {
    var low, mid, high := "0123456789ab", "cdefghijklmn", "opqrstuvwxyz";
    assert "0123456789abcdefghijklmnopqrstuvwxyz" == low + mid + high;
    if n < 12 { assert low[n] == Digit(n, false); }
    else if n < 24 { assert mid[n - 12] == Digit(n, false); }
    else { assert high[n - 24] == Digit(n, false); }
  }

  /** Every character of a numeral is one of the digits of its base and case. */
  lemma {:induction false} NumeralDigits(value: nat, base: nat, upperCase: bool)
    requires 2 <= base <= 36
    ensures var table := Table(upperCase);
      forall k | 0 <= k < |Numeral(value, base, upperCase)| ::
        |table| == 36 && Numeral(value, base, upperCase)[k] in table[..base]
    decreases value
  {
    hide Digit, Table;
    var table := Table(upperCase);
    if value < base {
      DigitIs(value, upperCase);
      assert table[..base][value] == table[value];
    } else {
      Quotient(value, base);
      NumeralDigits(value / base, base, upperCase);
      DigitIs(value % base, upperCase);
      assert table[..base][value % base] == table[value % base];
    }
  }

  lemma DenotedMore(s: Text, c: char, base: nat)
    ensures Denoted(s + [c], base) == Denoted(s, base) * base + DigitValue(c)
  {
  }

  lemma DenotedNothing(base: nat)
    ensures Denoted([], base) == 0
  {
  }

  lemma NumeralStep(value: nat, base: nat, upperCase: bool)
    requires 2 <= base <= 36
    ensures value < base ==> Numeral(value, base, upperCase) == [] + [Digit(value, upperCase)]
    ensures base <= value ==>
      Numeral(value, base, upperCase) == Numeral(value / base, base, upperCase) + [Digit(value % base, upperCase)]
  {
  }

  lemma Quotient(value: nat, base: nat)
    requires 2 <= base <= value
    ensures 0 < value / base <= value / 2 < value
    ensures value == (value / base) * base + value % base
  {
    var q, r := value / base, value % base;
    assert value == base * q + r && 0 <= r < base;
    if q <= 0 {
      MulMonotone(base, q, 0);
    } else {
      MulMonotone(q, 2, base);
    }
  }

  /** A numeral denotes its number, and starts with a zero only for zero itself. */
  lemma {:induction false} NumeralDenotes(value: nat, base: nat, upperCase: bool)
    requires 2 <= base <= 36
    ensures Denoted(Numeral(value, base, upperCase), base) == value
    ensures Numeral(value, base, upperCase)[0] == '0' <==> value == 0
    decreases value
  {
    hide Numeral, Denoted, Digit, DigitValue;
    NumeralStep(value, base, upperCase);
    if value < base {
      DigitDenotes(value, upperCase);
      DenotedMore([], Digit(value, upperCase), base);
      DenotedNothing(base);
    } else {
      DigitDenotes(value % base, upperCase);
      Quotient(value, base);
      NumeralDenotes(value / base, base, upperCase);
      DenotedMore(Numeral(value / base, base, upperCase), Digit(value % base, upperCase), base);
    }
  }

  /** A number below 2^n needs at most n digits in any base. */
  lemma {:induction false} NumeralFits(value: nat, base: nat, upperCase: bool, n: nat)
    requires 2 <= base <= 36 && value < Pow2(n) && 0 < n
    ensures |Numeral(value, base, upperCase)| <= n
    decreases n
  {
    hide Numeral, Pow2;
    NumeralStep(value, base, upperCase);
    if base <= value {
      Pow2Step(n);
      if n == 1 { Pow2Zero(); }
      Quotient(value, base);
      NumeralFits(value / base, base, upperCase, n - 1);
    }
  }

  /** Cutting digits off the end of a numeral always makes it smaller. */
  lemma {:induction false} PrefixDenotesLess(s: Text, n: nat, base: nat)
    requires 2 <= base && n < |s| && 0 < Denoted(s[..n], base)
    ensures Denoted(s[..n], base) < Denoted(s, base)
    decreases |s|
  {
    var front := s[..|s| - 1];
    assert s == front + [s[|s| - 1]];
    DenotedMore(front, s[|s| - 1], base);
    if n < |front| {
      assert front[..n] == s[..n];
      PrefixDenotesLess(front, n, base);
    } else {
      assert front == s[..n];
    }
    Grows(Denoted(front, base), base);
  }

  lemma Grows(v: nat, base: nat)
    requires 2 <= base && 0 < v
    ensures v < v * base
  {
  }

  lemma {:induction false} LeadingDigitCounts(s: Text, base: nat)
    requires s != [] && 2 <= base && 0 < DigitValue(s[0])
    ensures 0 < Denoted(s, base)
    decreases |s|
  {
    var front := s[..|s| - 1];
    assert s == front + [s[|s| - 1]];
    DenotedMore(front, s[|s| - 1], base);
    if front != [] {
      LeadingDigitCounts(front, base);
      Grows(Denoted(front, base), base);
    } else {
      DenotedNothing(base);
    }
  }

  // ---- fields ----

  /** The least number of characters a conversion takes, and whether zeros make up for what is missing. */
  datatype Field = Field(width: nat, zeroPad: bool)

  const NO_FIELD: Field := Field(0, false)

  function Repeat(c: char, n: nat): (s: Text)
    ensures |s| == n
  {
    seq(n, _ => c)
  }

  function Padding(width: nat, used: nat): nat {
    if used < width then width - used else 0
  }

  /** Zeros stand between the sign and the digits, blanks in front of both. */
  function InField(field: Field, negative: bool, numeral: Text): Text {
    var padding := Padding(field.width, |numeral| + |Sign(negative)|);
    if field.zeroPad then Sign(negative) + (Repeat('0', padding) + numeral)
    else Repeat(' ', padding) + (Sign(negative) + numeral)
  }

  /** Zeros go through the buffer of the digits. */
  predicate FieldFits(field: Field) {
    field.zeroPad ==> field.width <= BUFFER_SIZE
  }

  /** numberOfCharacters: the logarithm to the base, rounded down, and one. */
  function NumberOfCharacters(value: nat, base: nat): (n: nat)
    requires 2 <= base
    ensures 0 < n
    decreases value
  {
    if value < base then 1 else Shrinks(value, base); 1 + NumberOfCharacters(value / base, base)
  }

  function Power(base: nat, n: nat): nat {
    if n == 0 then 1 else base * Power(base, n - 1)
  }

  /** It is the whole part of the logarithm and one. */
  lemma {:induction false} CharactersIsLog(value: nat, base: nat)
    requires 2 <= base && 0 < value
    ensures var n := NumberOfCharacters(value, base); Power(base, n - 1) <= value < Power(base, n)
    decreases value
  {
    if base <= value {
      hide Power, NumberOfCharacters;
      Quotient(value, base);
      CharactersIsLog(value / base, base);
      var n := NumberOfCharacters(value / base, base);
      CharactersStep(value, base);
      Between(value, base, Power(base, n - 1), Power(base, n));
      PowerStep(base, n);
      PowerStep(base, n + 1);
    } else {
      PowerStep(base, 1);
    }
  }

  lemma CharactersStep(value: nat, base: nat)
    requires 2 <= base <= value
    ensures NumberOfCharacters(value, base) == 1 + NumberOfCharacters(value / base, base)
  {
  }

  lemma PowerStep(base: nat, n: nat)
    requires 0 < n
    ensures Power(base, n) == base * Power(base, n - 1)
    ensures n == 1 ==> Power(base, n) == base && Power(base, n - 1) == 1
  {
  }

  lemma Between(value: nat, base: nat, low: nat, high: nat)
    requires 0 < base && low <= value / base < high
    ensures base * low <= value < base * high
  {
    MulMonotone(base, low, value / base);
    MulMonotone(base, value / base + 1, high);
    assert base * (value / base + 1) == base * (value / base) + base;
  }

  lemma {:induction false} NumeralLength(value: nat, base: nat, upperCase: bool)
    requires 2 <= base <= 36
    ensures |Numeral(value, base, upperCase)| == NumberOfCharacters(value, base)
    decreases value
  {
    if base <= value {
      Quotient(value, base);
      NumeralLength(value / base, base, upperCase);
    }
  }

  /** A field is as wide as asked for, or as what is in it. */
  lemma FieldWidth(field: Field, negative: bool, numeral: Text)
    ensures |InField(field, negative, numeral)| ==
      if field.width < |Sign(negative)| + |numeral| then |Sign(negative)| + |numeral| else field.width
  {
  }

  /**
   Character by character: without zero padding, blanks and then sign and numeral; with it, the sign,
   zeros and the numeral.
   */
  lemma FieldMeans(field: Field, negative: bool, numeral: Text)
    ensures var shown := InField(field, negative, numeral);
      var sign := if negative then "-" else "";
      && (!field.zeroPad ==>
            && |sign + numeral| <= |shown| && shown[|shown| - |sign + numeral|..] == sign + numeral
            && forall k | 0 <= k < |shown| - |sign + numeral| :: shown[k] == ' ')
      && (field.zeroPad ==>
            && |sign| + |numeral| <= |shown| && shown[..|sign|] == sign
            && shown[|shown| - |numeral|..] == numeral
            && forall k | |sign| <= k < |shown| - |numeral| :: shown[k] == '0')
  {
    var padding := Padding(field.width, |numeral| + |Sign(negative)|);
    var shown := InField(field, negative, numeral);
    if field.zeroPad {
      assert shown == Sign(negative) + Repeat('0', padding) + numeral;
    } else {
      assert shown == Repeat(' ', padding) + (Sign(negative) + numeral);
    }
  }

  /** Zero padding stays inside the buffer of the digits exactly up to a width of 64. */
  lemma ZerosFitIff(width: nat, value: nat, base: nat, upperCase: bool, negative: bool)
    requires value < UINT64 && 2 <= base <= 36 && (negative ==> base == 10)
    ensures |InField(Field(width, true), negative, Numeral(value, base, upperCase))| <= BUFFER_SIZE <==>
      FieldFits(Field(width, true))
  {
    hide Numeral, Pow2;
    Pow2Words();
    NumeralFits(value, base, upperCase, 64);
    if base == 10 {
      TwentyDigits();
      DecimalFits(value, upperCase, 20);
    }
  }

  lemma {:induction false} FrontCountsNothing(c: char, n: nat, s: Text, base: nat)
    requires DigitValue(c) == 0
    ensures Denoted(Repeat(c, n) + s, base) == Denoted(s, base)
    decreases n + |s|
  {
    hide DigitValue, Denoted;
    if s != [] {
      assert Repeat(c, n) + s == (Repeat(c, n) + s[..|s| - 1]) + [s[|s| - 1]];
      assert s == s[..|s| - 1] + [s[|s| - 1]];
      FrontCountsNothing(c, n, s[..|s| - 1], base);
      DenotedMore(Repeat(c, n) + s[..|s| - 1], s[|s| - 1], base);
      DenotedMore(s[..|s| - 1], s[|s| - 1], base);
    } else if n != 0 {
      assert Repeat(c, n) + s == (Repeat(c, n - 1) + []) + [c];
      FrontCountsNothing(c, n - 1, [], base);
      DenotedMore(Repeat(c, n - 1) + [], c, base);
      DenotedNothing(base);
    } else {
      assert Repeat(c, n) + s == s;
    }
  }

  function SkipBlanks(s: Text): Text {
    if s != [] && s[0] == ' ' then SkipBlanks(s[1..]) else s
  }

  lemma {:induction false} BlanksSkipped(n: nat, s: Text)
    requires s != [] && s[0] != ' '
    ensures SkipBlanks(Repeat(' ', n) + s) == s
  {
    if n == 0 {
      assert Repeat(' ', n) + s == s;
    } else {
      assert (Repeat(' ', n) + s)[1..] == Repeat(' ', n - 1) + s;
      BlanksSkipped(n - 1, s);
    }
  }

  /** Behind the blanks stands what the sign and the numeral denote, padded with zeros or not. */
  lemma FieldDenotes(field: Field, negative: bool, numeral: Text, base: nat)
    requires numeral != [] && numeral[0] !in {' ', '-'}
    ensures var shown := SkipBlanks(InField(field, negative, numeral));
      && shown != [] && (negative <==> shown[0] == '-')
      && Denoted(if negative then shown[1..] else shown, base) == Denoted(numeral, base)
  {
    hide Denoted;
    var padding := Padding(field.width, |numeral| + |Sign(negative)|);
    var zeros := Repeat('0', padding) + numeral;
    FrontCountsNothing('0', padding, numeral, base);
    BlanksSkipped(padding, Sign(negative) + numeral);
    BlanksSkipped(0, Sign(negative) + zeros);
    assert Repeat(' ', 0) + (Sign(negative) + zeros) == Sign(negative) + zeros;
    if negative {
      assert (Sign(true) + numeral)[1..] == numeral && (Sign(true) + zeros)[1..] == zeros;
    } else {
      assert Sign(false) + numeral == numeral && Sign(false) + zeros == zeros;
    }
  }

  lemma FieldParts(field: Field, negative: bool, numeral: Text, padding: nat)
    requires padding == Padding(field.width, |numeral| + |Sign(negative)|)
    ensures InField(field, negative, numeral) == Repeat(' ', if field.zeroPad then 0 else padding) +
      (Sign(negative) + (Repeat('0', if field.zeroPad then padding else 0) + numeral))
  {
    assert Repeat('0', 0) + numeral == numeral;
    assert Repeat(' ', 0) + InField(field, negative, numeral) == InField(field, negative, numeral);
  }

  lemma FieldNone(negative: bool, numeral: Text)
    ensures InField(NO_FIELD, negative, numeral) == Sign(negative) + numeral
  {
  }

  // ---- printing an unsigned integer ----

  function Reversed(s: Text): (r: Text)
    ensures |r| == |s|
  {
    if s == [] then [] else [s[|s| - 1]] + Reversed(s[..|s| - 1])
  }

  lemma ReversedMore(s: Text, c: char)
    ensures Reversed(s + [c]) == [c] + Reversed(s)
  {
  }

  lemma {:induction false} ReversedField(digits: Text, zeros: nat, negative: bool)
    ensures Reversed(digits + Repeat('0', zeros) + Sign(negative)) ==
      Sign(negative) + (Repeat('0', zeros) + Reversed(digits))
    decreases zeros, negative
  {
    hide Reversed;
    if negative {
      ReversedField(digits, zeros, false);
      assert digits + Repeat('0', zeros) + Sign(true) == (digits + Repeat('0', zeros) + Sign(false)) + ['-'];
      ReversedMore(digits + Repeat('0', zeros) + Sign(false), '-');
    } else if zeros != 0 {
      ReversedField(digits, zeros - 1, false);
      assert digits + Repeat('0', zeros) + Sign(false) == (digits + Repeat('0', zeros - 1) + Sign(false)) + ['0'];
      ReversedMore(digits + Repeat('0', zeros - 1) + Sign(false), '0');
      assert ['0'] + (Repeat('0', zeros - 1) + Reversed(digits)) == Repeat('0', zeros) + Reversed(digits);
    } else {
      assert digits + Repeat('0', 0) + Sign(false) == digits;
    }
  }

  function Sign(negative: bool): Text {
    if negative then "-" else ""
  }

  /** While the digits are collected: what the rest of the value prints as, and then the buffer reversed. */
  ghost predicate Collecting(value: nat, base: nat, upperCase: bool, rest: nat, digits: Text)
    requires 2 <= base <= 36
  {
    Numeral(value, base, upperCase) ==
      (if rest == 0 && digits != [] then [] else Numeral(rest, base, upperCase)) + Reversed(digits)
  }

  lemma CollectStart(value: nat, base: nat, upperCase: bool)
    requires 2 <= base <= 36
    ensures Collecting(value, base, upperCase, value, [])
    ensures Collecting(0, base, upperCase, 0, [Digit(0, upperCase)])
  {
  }

  lemma CollectRound(value: nat, base: nat, upperCase: bool, rest: nat, digits: Text)
    requires 2 <= base <= 36 && Collecting(value, base, upperCase, rest, digits) && rest != 0
    ensures Collecting(value, base, upperCase, rest / base, digits + [Digit(rest % base, upperCase)])
  {
    hide Numeral, Reversed, Digit;
    NumeralStep(rest, base, upperCase);
    var c := Digit(rest % base, upperCase);
    ReversedMore(digits, c);
    if rest < base {
      assert rest % base == rest && rest / base == 0;
      assert [] + [c] + Reversed(digits) == [] + ([c] + Reversed(digits));
    } else {
      Quotient(rest, base);
      var front := Numeral(rest / base, base, upperCase);
      assert front + [c] + Reversed(digits) == front + ([c] + Reversed(digits));
    }
  }

  lemma CollectEnd(value: nat, base: nat, upperCase: bool, digits: Text)
    requires 2 <= base <= 36 && Collecting(value, base, upperCase, 0, digits) && digits != []
    ensures Reversed(digits) == Numeral(value, base, upperCase)
  {
  }

  /** Room for another digit: the buffer cannot run over. */
  lemma CollectFits(value: nat, base: nat, upperCase: bool, rest: nat, digits: Text)
    requires 2 <= base <= 36 && value < UINT64 && Collecting(value, base, upperCase, rest, digits)
    ensures rest != 0 ==> |digits| < BUFFER_SIZE
    ensures |digits| <= BUFFER_SIZE
    ensures base == 10 ==> |digits| <= 20
  {
    hide Numeral, Pow2;
    Pow2Words();
    NumeralFits(value, base, upperCase, 64);
    if base == 10 {
      TwentyDigits();
      DecimalFits(value, upperCase, 20);
    }
  }

  function Pow10(n: nat): nat {
    if n == 0 then 1 else 10 * Pow10(n - 1)
  }

  lemma TwentyDigits()
    ensures UINT64 <= Pow10(20)
  {
    assert Pow10(10) == 10_000_000_000;
    assert Pow10(20) == 100_000_000_000_000_000_000;
  }

  lemma {:induction false} DecimalFits(value: nat, upperCase: bool, n: nat)
    requires value < Pow10(n) && 0 < n
    ensures |Numeral(value, 10, upperCase)| <= n
    decreases n
  {
    hide Numeral;
    NumeralStep(value, 10, upperCase);
    if 10 <= value {
      DecimalFits(value / 10, upperCase, n - 1);
    }
  }

  /** The digits, last one first; they fit the buffer, and in decimal a sign does too. */
  method CollectDigits(buffer: array<char>, value: nat, base: nat, upperCase: bool) returns (index: nat)
    requires buffer.Length == BUFFER_SIZE && 2 <= base <= 36 && value < UINT64
    modifies buffer
    ensures index <= BUFFER_SIZE && Reversed(buffer[..index]) == Numeral(value, base, upperCase)
    ensures base == 10 ==> index <= 20
  {
    hide Numeral, Digit, Collecting, Reversed;
    index := 0;
    var rest: nat := value;
    CollectStart(value, base, upperCase);
    if value == 0 {
      buffer[index] := Digit(0, upperCase);
      index := index + 1;
      assert buffer[..1] == [Digit(0, upperCase)];
    }
    while rest != 0
      invariant index <= BUFFER_SIZE && (rest == 0 ==> 0 < index)
      invariant Collecting(value, base, upperCase, rest, buffer[..index])
      decreases rest
    {
      CollectFits(value, base, upperCase, rest, buffer[..index]);
      CollectRound(value, base, upperCase, rest, buffer[..index]);
      Shrinks(rest, base);
      ghost var digits := buffer[..index];
      buffer[index] := Digit(rest % base, upperCase);
      index := index + 1;
      assert buffer[..index] == digits + [Digit(rest % base, upperCase)];
      rest := rest / base;
    }
    CollectFits(value, base, upperCase, 0, buffer[..index]);
    CollectEnd(value, base, upperCase, buffer[..index]);
  }

  lemma Shrinks(rest: nat, base: nat)
    requires 2 <= base && 0 < rest
    ensures 0 <= rest % base < base && 0 <= rest / base < rest
  {
    var q, r := rest / base, rest % base;
    assert rest == base * q + r && 0 <= r < base;
    if rest <= q {
      MulMonotone(base, rest, q);
      MulMonotone(rest, 2, base);
    } else if q <= -1 {
      MulMonotone(base, q, -1);
    }
  }

  /**
   printfUint. The digits are collected first; zeros go behind them into the same buffer, which is why
   their number is bounded, and blanks go to the stream right away.
   */
  method PrintUint(stream: Stream, field: Field, value: nat, base: nat, upperCase: bool, isSigned: bool)
    requires stream.Valid() && 2 <= base <= 36 && value < UINT64 && (isSigned ==> base == 10) && FieldFits(field)
    modifies stream, stream.buffer
    ensures stream.Valid()
    ensures stream.Text() == Shown(old(stream.Text()), InField(field, isSigned, Numeral(value, base, upperCase)),
      stream.buffer.Length, stream.hasDescriptor)
  {
    hide Numeral, Reversed, Shown, NumberOfCharacters, Collecting;
    ghost var numeral := Numeral(value, base, upperCase);
    var numWidth := NumberOfCharacters(value, base) + if isSigned then 1 else 0;
    NumeralLength(value, base, upperCase);
    var buffer := new char[BUFFER_SIZE](_ => '\0');
    var index := CollectDigits(buffer, value, base, upperCase);
    ghost var digits := buffer[..index];
    var padding := Padding(field.width, numWidth);
    ghost var blanks := Repeat(' ', if field.zeroPad then 0 else padding);
    ghost var zeros := Repeat('0', if field.zeroPad then padding else 0);
    ghost var text, size, endless := stream.Text(), stream.buffer.Length, stream.hasDescriptor;
    Fitted(stream);
    if field.zeroPad {
      index := AddZeros(buffer, index, padding);
      ShownNothing(text, size, endless);
    } else {
      Pad(stream, padding);
      assert buffer[..index] == digits + zeros;
    }
    if isSigned {
      buffer[index] := '-';
      index := index + 1;
    }
    assert buffer[..index] == digits + zeros + Sign(isSigned);
    ReversedField(digits, |zeros|, isSigned);
    PutReversed(stream, buffer, index);
    ShownSome(text, blanks, Sign(isSigned) + (zeros + numeral), size, endless);
    FieldParts(field, isSigned, numeral, padding);
  }

  lemma Fitted(stream: Stream)
    requires stream.Valid()
    ensures stream.hasDescriptor || |stream.Text()| <= stream.buffer.Length
  {
  }

  /** The zeros behind the digits. */
  method AddZeros(buffer: array<char>, count: nat, padding: nat) returns (index: nat)
    requires count + padding <= buffer.Length
    modifies buffer
    ensures index == count + padding && buffer[..index] == old(buffer[..count]) + Repeat('0', padding)
  {
    index := count;
    for i := 0 to padding
      invariant index == count + i
      invariant buffer[..index] == old(buffer[..count]) + Repeat('0', i)
    {
      ghost var before := buffer[..index];
      buffer[index] := '0';
      index := index + 1;
      assert buffer[..index] == before + ['0'];
    }
  }

  method Pad(stream: Stream, amount: nat)
    requires stream.Valid()
    modifies stream, stream.buffer
    ensures stream.Valid()
    ensures stream.Text() ==
      Shown(old(stream.Text()), Repeat(' ', amount), stream.buffer.Length, stream.hasDescriptor)
  {
    hide Shown;
    ghost var text, size, endless := stream.Text(), stream.buffer.Length, stream.hasDescriptor;
    Fitted(stream);
    ShownNothing(text, size, endless);
    for i := 0 to amount
      invariant stream.Valid() && stream.Text() == Shown(text, Repeat(' ', i), size, endless)
    {
      ShownSome(text, Repeat(' ', i), [' '], size, endless);
      assert Repeat(' ', i) + [' '] == Repeat(' ', i + 1);
      stream.PutC(' ');
    }
  }

  method PutReversed(stream: Stream, buffer: array<char>, count: nat)
    requires stream.Valid() && count <= buffer.Length && buffer != stream.buffer
    modifies stream, stream.buffer
    ensures stream.Valid()
    ensures stream.Text() ==
      Shown(old(stream.Text()), Reversed(old(buffer[..count])), stream.buffer.Length, stream.hasDescriptor)
  {
    hide Shown, Reversed;
    var index: nat := count;
    ghost var text := stream.Text();
    ghost var size, endless := stream.buffer.Length, stream.hasDescriptor;
    while index > 0
      invariant index <= count && stream.Valid() && buffer[..count] == old(buffer[..count])
      invariant Shown(stream.Text(), Reversed(buffer[..index]), size, endless) ==
        Shown(text, Reversed(old(buffer[..count])), size, endless)
    {
      assert buffer[..index] == buffer[..index - 1] + [buffer[index - 1]];
      ReversedMore(buffer[..index - 1], buffer[index - 1]);
      ShownOne(stream.Text(), buffer[index - 1], Reversed(buffer[..index - 1]), size, endless);
      stream.PutC(buffer[index - 1]);
      index := index - 1;
    }
    ReversedNothing(buffer[..0]);
    ShownNothing(stream.Text(), size, endless);
  }

  lemma ReversedNothing(s: Text)
    requires s == []
    ensures Reversed(s) == []
  {
  }

  // ---- printing a signed integer ----

  datatype Width = Width8 | Width16 | WidthDefault | Width32 | Width64

  function Halfway(width: Width): nat {
    match width
    case Width8 => 0x80
    case Width16 => 0x8000
    case WidthDefault => 0x8000_0000
    case Width32 => 0x8000_0000
    case Width64 => 0x8000_0000_0000_0000
  }

  datatype Magnitude = Magnitude(value: nat, negative: bool)

  function Complement(x: nat): nat
    requires x < UINT64
  {
    UINT64 - 1 - x
  }

  /** interpretIntValue for %i: the argument, widened to 64 bits, becomes a sign and a magnitude. */
  function InterpretInt(width: Width, i: int): Magnitude
    requires -0x8000_0000_0000_0000 <= i < 0x8000_0000_0000_0000
  {
    var value := if i < 0 then UINT64 + i else i;
    if value >= Halfway(width) then Magnitude(And((Complement(value) + 1) % UINT64, Halfway(width) - 1), true)
    else Magnitude(value, false)
  }

  function SignedValue(m: Magnitude): int {
    if m.negative then 0 - m.value else m.value
  }

  lemma HalfwayPow2(width: Width)
    ensures IsPow2(Halfway(width))
  {
    hide Pow2;
    Pow2Words();
    Pow2Small();
    Pow2Sum(6, 1);
    Pow2Sum(8, 7);
    Pow2Sum(16, 15);
    Pow2Sum(32, 31);
    Pow2Sum(8, 8);
    Pow2Step(8);
    Pow2Step(16);
    Pow2Step(32);
    Pow2Step(64);
    match width
    case Width8 => assert 0x80 == Pow2(7);
    case Width16 => assert 0x8000 == Pow2(15);
    case WidthDefault => assert 0x8000_0000 == Pow2(31);
    case Width32 => assert 0x8000_0000 == Pow2(31);
    case Width64 => assert 0x8000_0000_0000_0000 == Pow2(63);
  }

  /** Sign and magnitude give the argument back exactly between the two extremes of the width. */
  lemma IntInterpretedIff(width: Width, i: int)
    requires -0x8000_0000_0000_0000 <= i < 0x8000_0000_0000_0000
    ensures SignedValue(InterpretInt(width, i)) == i <==> 0 - Halfway(width) < i < Halfway(width)
    ensures InterpretInt(width, i).value < UINT64
    ensures i == 0 - Halfway(width) ==> InterpretInt(width, i) == Magnitude(0, true)
    ensures InterpretInt(width, i) ==
      if 0 <= i < Halfway(width) then Magnitude(i, false) else Magnitude((0 - i) % Halfway(width), true)
  {
    hide And, Pow2;
    HalfwayPow2(width);
    WordHalves(width, i);
    var half := Halfway(width);
    var k: nat :| half == Pow2(k);
    var value := if i < 0 then UINT64 + i else i;
    var flipped := (Complement(value) + 1) % UINT64;
    AndLowMask(flipped, k);
    if i < 0 {
      assert flipped == -i;
      if -i == half { ModOf(half, half, 1, 0); }
    }
  }

  /** A word is a multiple of half the range of every width. */
  lemma WordHalves(width: Width, i: int)
    ensures (UINT64 - i) % Halfway(width) == (0 - i) % Halfway(width)
  {
    match width
    case Width8 => MultipleAdded(0 - i, 0x80, 0x200_0000_0000_0000);
    case Width16 => MultipleAdded(0 - i, 0x8000, 0x2_0000_0000_0000);
    case WidthDefault => MultipleAdded(0 - i, 0x8000_0000, 0x2_0000_0000);
    case Width32 => MultipleAdded(0 - i, 0x8000_0000, 0x2_0000_0000);
    case Width64 => MultipleAdded(0 - i, 0x8000_0000_0000_0000, 2);
  }

  lemma MultipleAdded(x: int, d: int, q: int)
    requires 0 < d
    ensures (x + d * q) % d == x % d
  {
    assert d * (x / d + q) == d * (x / d) + d * q;
    ModOf(x + d * q, d, x / d + q, x % d);
  }

  function DenotedInt(s: Text): int {
    if s != [] && s[0] == '-' then 0 - Denoted(s[1..], 10) else Denoted(s, 10)
  }

  function IntField(field: Field, width: Width, i: int): Text
    requires -0x8000_0000_0000_0000 <= i < 0x8000_0000_0000_0000
  {
    var m := InterpretInt(width, i);
    InField(field, m.negative, Numeral(m.value, 10, false))
  }

  /**
   %i prints what denotes its argument, in a field of any kind, unless that is the least one of the
   width or beyond it.
   */
  lemma IntPrintedIff(field: Field, width: Width, i: int)
    requires -0x8000_0000_0000_0000 <= i < 0x8000_0000_0000_0000
    ensures DenotedInt(SkipBlanks(IntField(field, width, i))) == i <==> 0 - Halfway(width) < i < Halfway(width)
    ensures i == 0 - Halfway(width) ==> IntField(NO_FIELD, width, i) == "-0"
  {
    hide InterpretInt, Denoted, Numeral, InField, SkipBlanks;
    IntInterpretedIff(width, i);
    var m := InterpretInt(width, i);
    NumeralDenotes(m.value, 10, false);
    FirstIsDigit(m.value);
    FieldDenotes(field, m.negative, Numeral(m.value, 10, false), 10);
    FieldNone(m.negative, Numeral(m.value, 10, false));
    ZeroShown();
  }

  lemma ZeroShown()
    ensures Sign(true) + Numeral(0, 10, false) == "-0"
  {
  }

  lemma {:induction false} FirstIsDigit(value: nat)
    ensures '0' <= Numeral(value, 10, false)[0] <= '9'
    decreases value
  {
    if 10 <= value { FirstIsDigit(value / 10); }
  }

  method PrintInt(stream: Stream, field: Field, width: Width, i: int)
    requires stream.Valid() && -0x8000_0000_0000_0000 <= i < 0x8000_0000_0000_0000 && FieldFits(field)
    modifies stream, stream.buffer
    ensures stream.Valid()
    ensures stream.Text() ==
      Shown(old(stream.Text()), IntField(field, width, i), stream.buffer.Length, stream.hasDescriptor)
  {
    hide InterpretInt, Shown, Numeral, InField;
    IntInterpretedIff(width, i);
    var m := InterpretInt(width, i);
    PrintUint(stream, field, m.value, 10, false, m.negative);
  }

  // ---- scanning an unsigned integer ----

  predicate IsNumber(c: char) {
    '0' <= c <= '9'
  }

  function DigitsOnly(s: Text): Text {
    if s == [] then []
    else DigitsOnly(s[..|s| - 1]) + (if IsNumber(s[|s| - 1]) then [s[|s| - 1]] else [])
  }

  /** The scan of %u reads the whole rest of the string and passes over what is not a digit. */
  method ScanUint(str: Text) returns (value: nat)
    ensures value == Denoted(DigitsOnly(str), 10) % UINT32
  {
    hide Denoted, DigitsOnly;
    value := 0;
    DenotedNothing(10);
    DigitsNone(str[..0]);
    for readIndex := 0 to |str|
      invariant value == Denoted(DigitsOnly(str[..readIndex]), 10) % UINT32
    {
      var chr := str[readIndex];
      ScanStep(str, readIndex);
      if IsNumber(chr) {
        ScanWraps(Denoted(DigitsOnly(str[..readIndex]), 10), DigitValue(chr));
        value := (value * 10) % UINT32;
        value := (value + DigitValue(chr)) % UINT32;
      }
    }
    assert str[..|str|] == str;
  }

  lemma DigitsNone(s: Text)
    requires s == []
    ensures DigitsOnly(s) == []
  {
  }

  lemma ScanStep(str: Text, i: nat)
    requires i < |str|
    ensures Denoted(DigitsOnly(str[..i + 1]), 10) ==
      if IsNumber(str[i]) then Denoted(DigitsOnly(str[..i]), 10) * 10 + DigitValue(str[i])
      else Denoted(DigitsOnly(str[..i]), 10)
  {
    hide Denoted;
    assert str[..i + 1][..i] == str[..i];
    DenotedMore(DigitsOnly(str[..i]), str[i], 10);
    assert DigitsOnly(str[..i]) + [] == DigitsOnly(str[..i]);
  }

  /** Wrapping after every digit is wrapping once at the end. */
  lemma ScanWraps(v: nat, d: nat)
    ensures ((v % UINT32 * 10) % UINT32 + d) % UINT32 == (v * 10 + d) % UINT32
  {
    var r := v % UINT32 * 10;
    var sum := r % UINT32 + d;
    ModOf(v * 10 + d, UINT32, v / UINT32 * 10 + r / UINT32 + sum / UINT32, sum % UINT32);
  }

  /** avStringScanf with the format "%u": it fills nothing from an empty string. */
  method ScanfUint(str: Text) returns (elementsFilled: nat, value: nat)
    ensures elementsFilled == (if str == [] then 0 else 1)
    ensures str != [] ==> value == Denoted(DigitsOnly(str), 10) % UINT32
  {
    if str == [] { return 0, 0; }
    value := ScanUint(str);
    elementsFilled := 1;
  }

  // ---- there and back ----

  ghost predicate AllNumbers(s: Text) {
    forall i | 0 <= i < |s| :: IsNumber(s[i])
  }

  lemma {:induction false} NumeralNumbers(value: nat)
    ensures AllNumbers(Numeral(value, 10, false))
    decreases value
  {
    if 10 <= value { NumeralNumbers(value / 10); }
  }

  lemma {:induction false} DigitsOnlyNumbers(s: Text)
    requires AllNumbers(s)
    ensures DigitsOnly(s) == s
    decreases |s|
  {
    if s != [] {
      DigitsOnlyNumbers(s[..|s| - 1]);
      assert s[..|s| - 1] + [s[|s| - 1]] == s;
    }
  }

  /** A row of digits is scanned as the number it denotes exactly if that fits a 32-bit word. */
  lemma ScanExactIff(s: Text)
    requires AllNumbers(s)
    ensures Denoted(DigitsOnly(s), 10) % UINT32 == Denoted(s, 10) <==> Denoted(s, 10) < UINT32
  {
    hide Denoted, DigitsOnly;
    DigitsOnlyNumbers(s);
  }

  /** The digits that a text starts with: the number that stands there. */
  function Leading(s: Text): (d: Text)
    ensures d <= s && AllNumbers(d) && (|d| == |s| || !IsNumber(s[|d|]))
  {
    if s == [] || !IsNumber(s[0]) then [] else [s[0]] + Leading(s[1..])
  }

  predicate AllZeros(s: Text) {
    forall i | 0 <= i < |s| :: s[i] == '0'
  }

  lemma {:induction false} DigitsOnlyConcat(a: Text, b: Text)
    ensures DigitsOnly(a + b) == DigitsOnly(a) + DigitsOnly(b)
    decreases |b|
  {
    if b == [] {
      assert a + b == a;
    } else {
      assert (a + b)[..|a + b| - 1] == a + b[..|b| - 1];
      DigitsOnlyConcat(a, b[..|b| - 1]);
    }
  }

  /** A character is kept exactly if it is one of the ten digits. */
  lemma DigitsOnlyOne(c: char)
    ensures DigitsOnly([c]) == if '0' <= c <= '9' then [c] else []
  {
    assert [c][..0] == [];
  }

  lemma {:induction false} DigitsAreNumbers(s: Text)
    ensures AllNumbers(DigitsOnly(s))
    decreases |s|
  {
    if s != [] { DigitsAreNumbers(s[..|s| - 1]); }
  }

  lemma {:induction false} ZeroIff(s: Text)
    requires AllNumbers(s)
    ensures Denoted(s, 10) == 0 <==> AllZeros(s)
    decreases |s|
  {
    if s != [] {
      ZeroIff(s[..|s| - 1]);
      assert s == s[..|s| - 1] + [s[|s| - 1]];
    }
  }

  /** What a text is scanned as, digit by digit: its first number and then the digits behind it. */
  lemma ScanParts(s: Text)
    ensures var d := Leading(s); DigitsOnly(s) == d + DigitsOnly(s[|d|..]) && AllNumbers(DigitsOnly(s))
  {
    hide DigitsOnly, Leading;
    var d := Leading(s);
    assert s == d + s[|d|..];
    DigitsOnlyConcat(d, s[|d|..]);
    DigitsOnlyNumbers(d);
    DigitsAreNumbers(s);
  }

  /**
   As long as nothing wraps, a text is scanned as the number it starts with exactly if no digit
   stands behind that number, or every digit is a zero.
   */
  lemma ScanLeadingIff(s: Text)
    requires Denoted(DigitsOnly(s), 10) < UINT32
    ensures Denoted(DigitsOnly(s), 10) % UINT32 == Denoted(Leading(s), 10) <==>
      DigitsOnly(s[|Leading(s)|..]) == [] || AllZeros(DigitsOnly(s))
  {
    hide Denoted, DigitsOnly, Leading;
    var d := Leading(s);
    var digits := DigitsOnly(s);
    ScanParts(s);
    assert digits[..|d|] == d;
    ZeroIff(digits);
    ZeroIff(d);
    if |d| == |digits| {
      assert digits == d;
    } else if 0 < Denoted(d, 10) {
      PrefixDenotesLess(digits, |d|, 10);
      assert !AllZeros(d);
    }
  }

  lemma {:induction false} DenotedConcat(a: Text, b: Text)
    ensures Denoted(a + b, 10) == Denoted(a, 10) * Pow10(|b|) + Denoted(b, 10)
    decreases |b|
  {
    hide Denoted;
    DenotedNothing(10);
    if b == [] {
      assert a + b == a;
    } else {
      var front, c := b[..|b| - 1], b[|b| - 1];
      assert b == front + [c] && a + b == (a + front) + [c];
      DenotedConcat(a, front);
      DenotedMore(a + front, c, 10);
      DenotedMore(front, c, 10);
      TimesTen(Denoted(a, 10), Pow10(|front|));
    }
  }

  lemma TimesTen(a: nat, b: nat)
    ensures (a * b) * 10 == a * (10 * b)
  {
  }

  /** One digit in front of the tail: its share of the value. */
  lemma ScanOneDigit(c: char, t: Text)
    requires IsNumber(c)
    ensures Denoted(DigitsOnly([c] + t), 10) ==
      DigitValue(c) * Pow10(|DigitsOnly(t)|) + Denoted(DigitsOnly(t), 10)
    ensures Denoted([c], 10) == DigitValue(c)
  {
    hide Denoted, DigitsOnly, DigitValue, Pow10;
    DigitsOnlyConcat([c], t);
    DigitsOnlyNumbers([c]);
    DenotedConcat([c], DigitsOnly(t));
    DenotedNothing(10);
    DenotedMore([], c, 10);
    assert [] + [c] == [c];
  }

  /** Every number is scanned rightly in front of a tail, wrapping or not, exactly if the tail has no digit. */
  lemma TailHarmlessIff(t: Text)
    ensures (forall d: Text | AllNumbers(d) && Denoted(d, 10) < UINT32 ::
               Denoted(DigitsOnly(d + t), 10) % UINT32 == Denoted(d, 10)) <==> DigitsOnly(t) == []
  {
    hide Denoted, DigitsOnly, Pow10;
    if DigitsOnly(t) == [] {
      forall d: Text | AllNumbers(d) && Denoted(d, 10) < UINT32
        ensures Denoted(DigitsOnly(d + t), 10) % UINT32 == Denoted(d, 10)
      {
        DigitsOnlyConcat(d, t);
        DigitsOnlyNumbers(d);
        assert d + [] == d;
      }
    } else {
      // a zero and a one in front cannot both come out right, since a power of ten is even
      ScanOneDigit('0', t);
      ScanOneDigit('1', t);
      PowerEven(|DigitsOnly(t)|);
      assert AllNumbers(['0']) && AllNumbers(['1']);
    }
  }

  lemma PowerEven(n: nat)
    requires 0 < n
    ensures Pow10(n) % 2 == 0
  {
    ModOf(Pow10(n), 2, 5 * Pow10(n - 1), 0);
  }

  /** The numeral of 2^32 is scanned as zero, and a blank between two digits does not part them. */
  lemma ScanHere()
    ensures Denoted(DigitsOnly(Numeral(UINT32, 10, false)), 10) % UINT32 == 0
    ensures Denoted(DigitsOnly("1 2"), 10) % UINT32 == 12
  {
    hide Numeral, Denoted, DigitsOnly;
    NumeralNumbers(UINT32);
    DigitsOnlyNumbers(Numeral(UINT32, 10, false));
    NumeralDenotes(UINT32, 10, false);
    DigitsApart();
  }

  lemma DigitsApart()
    ensures Denoted(DigitsOnly("1 2"), 10) == 12
  {
    assert "1 2"[..2] == "1 " && "1 "[..1] == "1";
    assert DigitsOnly("1 ") == ['1'];
    assert ['1', '2'][..1] == ['1'];
  }

  /** What is left of the printed value in a buffer of this size. */
  function Printed(value: nat, size: nat): Text {
    Shown([], Numeral(value, 10, false), size, false)
  }

  /** Scanning what was printed gives the value back exactly if the whole numeral fitted the buffer. */
  lemma RoundTripIff(value: nat, size: nat)
    requires value < UINT32
    ensures Printed(value, size) != [] && Denoted(DigitsOnly(Printed(value, size)), 10) % UINT32 == value <==>
      |Numeral(value, 10, false)| <= size
    ensures 10 <= size ==> |Numeral(value, 10, false)| <= size
  {
    hide Numeral, Denoted, DigitsOnly;
    var numeral, text := Numeral(value, 10, false), Printed(value, size);
    NumeralNumbers(value);
    NumeralDenotes(value, 10, false);
    TenDigits(value);
    assert [] + numeral == numeral;
    assert AllNumbers(text);
    DigitsOnlyNumbers(text);
    if size < |numeral| && text != [] {
      assert text == numeral[..size];
      assert numeral[0] != '0' by { if value == 0 { ZeroNumeral(); } }
      LeadingDigitCounts(text, 10);
      PrefixDenotesLess(numeral, size, 10);
    }
  }

  lemma ZeroNumeral()
    ensures |Numeral(0, 10, false)| == 1
  {
  }

  lemma TenDigits(value: nat)
    requires value < UINT32
    ensures |Numeral(value, 10, false)| <= 10
  {
    assert Pow10(10) == 10_000_000_000;
    DecimalFits(value, false, 10);
  }
}
