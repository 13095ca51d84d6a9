/**
 What each conversion puts out, told from the format, the word of the argument and the characters
 shown alone: the range that counts, the base, the case of the letters and the padding.
 */
module PrintMeaning {
  import opened Bits
  import opened Common
  import opened Printf
  import opened PrintFormat

  /** The whole output for a format that is one conversion. */
  function Shown1(modifiers: Text, letter: char, arg: Arg): Text
    requires Printable(Normal, "%" + modifiers + [letter], [arg])
  {
    Output(Normal, "%" + modifiers + [letter], [arg])
  }

  lemma OneConversion(modifiers: Text, letter: char, arg: Arg)
    requires AreModifiers(modifiers) && IsConversion(letter)
    requires Converts(PropsOf(Conversion(modifiers, letter)), arg)
    ensures Printable(Normal, "%" + modifiers + [letter], [arg])
    ensures Shown1(modifiers, letter, arg) == Converted(PropsOf(Conversion(modifiers, letter)), arg)
  {
    hide Printable, Output, Converted, Converts, Modified;
    var pieces := [Conversion(modifiers, letter)];
    assert pieces[1..] == [] && [arg][1..] == [];
    assert Format([]) == "";
    assert Format(pieces) == "%" + (modifiers + [letter]) + "";
    assert "%" + (modifiers + [letter]) + "" == "%" + modifiers + [letter];
    FormatPrints(pieces, [arg]);
    assert Rendered(pieces, [arg]) == Converted(PropsOf(pieces[0]), arg) + [];
  }

  /** The length modifiers, and nothing else. */
  predicate IsLength(modifiers: Text) {
    modifiers in {"", "h", "hh", "l", "ll"}
  }

  lemma LengthProps(modifiers: Text, letter: char)
    requires IsLength(modifiers)
    ensures AreModifiers(modifiers)
    ensures PropsOf(Conversion(modifiers, letter)) == Props(KindOf(letter),
      if modifiers == "hh" then -2 else if modifiers == "h" then -1 else if modifiers == "" then 0
      else if modifiers == "l" then 1 else 2, NO_FIELD)
  {
  }

  // ---- signed integers ----

  /** Digits with at most a minus in front, and no zero in front of other digits. */
  predicate IsDecimal(text: Text) {
    var digits := if text != [] && text[0] == '-' then text[1..] else text;
    && digits != []
    && (forall k | 0 <= k < |digits| :: digits[k] in "0123456789")
    && (digits[0] == '0' ==> |digits| == 1)
  }

  /** Half the range of the values that a conversion of this length shows rightly. */
  function Half(modifiers: Text): nat {
    if modifiers == "hh" then 0x80
    else if modifiers == "h" then 0x8000
    else if modifiers == "ll" then 0x8000_0000_0000_0000
    else 0x8000_0000
  }

  /** How many values the argument of a conversion can have. */
  function Range(modifiers: Text): nat {
    if modifiers == "ll" then 0x1_0000_0000_0000_0000 else 0x1_0000_0000
  }

  /**
   %i, with any length: the argument i, which lies in the word w as two's complement, is shown as it
   is if it lies strictly between the extremes of the length; otherwise a minus is shown, and what is
   left of -i in half the range.
   */
  lemma PrintsInt(modifiers: Text, w: nat, i: int)
    requires IsLength(modifiers) && w % Range(modifiers) == i % Range(modifiers)
    requires 0 - Range(modifiers) / 2 <= i < Range(modifiers) / 2
    ensures Printable(Normal, "%" + modifiers + "i", [Word(w)])
    ensures var text := Shown1(modifiers, 'i', Word(w));
      && IsDecimal(text)
      && (0 - Half(modifiers) < i < Half(modifiers) ==> DenotedInt(text) == i && (text[0] == '-' <==> i < 0))
      && (!(0 - Half(modifiers) < i < Half(modifiers)) ==>
            text[0] == '-' && DenotedInt(text) == 0 - (0 - i) % Half(modifiers))
  {
    hide Numeral, InterpretInt, Denoted, InField, Printable, Output;
    LengthProps(modifiers, 'i');
    var props := PropsOf(Conversion(modifiers, 'i'));
    OneConversion(modifiers, 'i', Word(w));
    ArgumentIs(modifiers, w, i);
    var width := WidthOf(props.length);
    assert Halfway(width) == Half(modifiers);
    IntInterpretedIff(width, i);
    var m := InterpretInt(width, i);
    FieldNone(m.negative, Numeral(m.value, 10, false));
    SignedNumeral(m.value, m.negative);
    if 0 - Half(modifiers) < i < 0 { assert m.value == 0 - i; }
  }

  lemma ArgumentIs(modifiers: Text, w: nat, i: int)
    requires IsLength(modifiers) && w % Range(modifiers) == i % Range(modifiers)
    requires 0 - Range(modifiers) / 2 <= i < Range(modifiers) / 2
    ensures IntArg(w, PropsOf(Conversion(modifiers, 'i')).length) == i
  {
    LengthProps(modifiers, 'i');
    if i < 0 { ModOf(i, Range(modifiers), -1, i + Range(modifiers)); } else { ModOf(i, Range(modifiers), 0, i); }
  }

  lemma SignedNumeral(value: nat, negative: bool)
    ensures var text := Sign(negative) + Numeral(value, 10, false);
      && IsDecimal(text) && DenotedInt(text) == (if negative then 0 - value else value)
      && (text[0] == '-' <==> negative)
  {
    hide Numeral, Denoted, Table;
    var numeral := Numeral(value, 10, false);
    DecimalNumeral(value);
    NumeralDenotes(value, 10, false);
    if negative { assert ("-" + numeral)[1..] == numeral; } else { assert "" + numeral == numeral; }
  }

  lemma DecimalNumeral(value: nat)
    ensures var numeral := Numeral(value, 10, false);
      && (forall k | 0 <= k < |numeral| :: numeral[k] in "0123456789")
      && (numeral[0] == '0' ==> |numeral| == 1)
  {
    hide Numeral, Denoted;
    NumeralDigits(value, 10, false);
    assert Table(false)[..10] == "0123456789";
    NumeralDenotes(value, 10, false);
    ZeroNumeral();
  }

  // ---- unsigned integers and pointers ----

  function Base(letter: char): nat {
    if letter == 'u' then 10 else if letter == 'b' then 2 else 16
  }

  function Digits(letter: char): Text {
    if letter == 'u' then "0123456789"
    else if letter == 'b' then "01"
    else if letter == 'x' then "0123456789abcdef"
    else "0123456789ABCDEF"
  }

  lemma DigitsOfBase(letter: char)
    requires letter in {'u', 'b', 'x', 'X', 'p'}
    ensures Table(letter != 'x')[..Base(letter)] == Digits(letter)
    ensures letter in {'u', 'b'} ==> Table(false)[..Base(letter)] == Digits(letter)
  {
    var lower, upper := Table(false), Table(true);
    LowerStart();
    UpperStart();
    assert lower[..10] == lower[..16][..10] && upper[..10] == upper[..16][..10];
    assert lower[..2] == lower[..16][..2] && upper[..2] == upper[..16][..2];
    hide Table;
    SixteenStart();
  }

  lemma LowerStart()
    ensures |Table(false)| == 36 && Table(false)[..16] == "0123456789abcdef"
  {
    assert Table(false) == "0123456789abcdef" + "ghijklmnopqrstuvwxyz";
  }

  lemma UpperStart()
    ensures |Table(true)| == 36 && Table(true)[..16] == "0123456789ABCDEF"
  {
    assert Table(true) == "0123456789ABCDEF" + "GHIJKLMNOPQRSTUVWXYZ";
  }

  lemma SixteenStart()
    ensures "0123456789abcdef"[..10] == "0123456789" && "0123456789ABCDEF"[..10] == "0123456789"
    ensures "0123456789abcdef"[..2] == "01" && "0123456789ABCDEF"[..2] == "01"
  {
  }

  /** %u, %x, %X and %b show the word in their base and case, cut to the length of the argument. */
  lemma PrintsUnsigned(modifiers: Text, letter: char, w: nat)
    requires IsLength(modifiers) && letter in {'u', 'x', 'X', 'b'}
    ensures Printable(Normal, "%" + modifiers + [letter], [Word(w)])
    ensures var text := Shown1(modifiers, letter, Word(w));
      && text != [] && Denoted(text, Base(letter)) == w % Range(modifiers)
      && (forall k | 0 <= k < |text| :: text[k] in Digits(letter))
      && (text[0] == '0' ==> w % Range(modifiers) == 0)
  {
    hide Numeral, Denoted, InField, Printable, Output, Table;
    LengthProps(modifiers, letter);
    OneConversion(modifiers, letter, Word(w));
    var value := w % Range(modifiers);
    var upperCase := letter == 'X';
    var numeral := Numeral(value, Base(letter), upperCase);
    FieldNone(false, numeral);
    assert "" + numeral == numeral;
    NumeralDigits(value, Base(letter), upperCase);
    NumeralDenotes(value, Base(letter), upperCase);
    DigitsOfBase(letter);
  }

  /** %p shows a pointer as sixteen digits of base sixteen, whatever modifiers it has. */
  lemma PrintsPointer(modifiers: Text, w: nat)
    requires IsLength(modifiers)
    ensures Printable(Normal, "%" + modifiers + "p", [Word(w)])
    ensures var text := Shown1(modifiers, 'p', Word(w));
      && |text| == 16 && Denoted(text, 16) == w % 0x1_0000_0000_0000_0000
      && (forall k | 0 <= k < 16 :: text[k] in "0123456789ABCDEF")
  {
    hide Numeral, Denoted, InField, Printable, Output, Table;
    LengthProps(modifiers, 'p');
    OneConversion(modifiers, 'p', Word(w));
    var props := PropsOf(Conversion(modifiers, 'p'));
    PointerDenotes(props, Word(w));
    var numeral := Numeral(w % UINT64, 16, true);
    NumeralDigits(w % UINT64, 16, true);
    DigitsOfBase('p');
    FieldMeans(POINTER_FIELD, false, numeral);
    var text := Converted(props, Word(w));
    forall k | 0 <= k < 16 ensures text[k] in "0123456789ABCDEF" {
      if 16 - |numeral| <= k { assert text[k] == numeral[k - (16 - |numeral|)]; }
    }
  }

  // ---- characters and strings ----

  /** %c shows one character, the low byte of its argument. */
  lemma PrintsChar(w: nat)
    ensures Printable(Normal, "%c", [Word(w)]) && Output(Normal, "%c", [Word(w)]) == [(w % 256) as char]
  {
    hide Printable, Output;
    LengthProps("", 'c');
    assert "%" + "" + ['c'] == "%c";
    OneConversion("", 'c', Word(w));
  }

  /** %S shows a string as it is. */
  lemma PrintsString(s: Text)
    ensures Printable(Normal, "%S", [Chars(s)]) && Output(Normal, "%S", [Chars(s)]) == s
  {
    hide Printable, Output;
    LengthProps("", 'S');
    assert "%" + "" + ['S'] == "%S";
    OneConversion("", 'S', Chars(s));
  }

  /** %s shows what stands in front of the first NUL. */
  lemma PrintsCString(s: Text, t: Text)
    requires '\0' !in s
    ensures var arg := Chars(s + ['\0'] + t);
      Printable(Normal, "%s", [arg]) && Output(Normal, "%s", [arg]) == s
  {
    hide Printable, Output, UpToNul;
    LengthProps("", 's');
    assert "%" + "" + ['s'] == "%s";
    OneConversion("", 's', Chars(s + ['\0'] + t));
    FirstNul(s, t);
  }

  lemma {:induction false} FirstNul(s: Text, t: Text)
    requires '\0' !in s
    ensures UpToNul(s + ['\0'] + t) == s
    decreases |s|
  {
    if s != [] {
      assert (s + ['\0'] + t)[1..] == s[1..] + ['\0'] + t;
      FirstNul(s[1..], t);
    }
  }

  /** A second percent sign is shown, and then the conversion takes its argument as %i would. */
  lemma PrintsPercent(w: nat, i: int)
    requires w % 0x1_0000_0000 == i % 0x1_0000_0000 && 0 - 0x8000_0000 < i < 0x8000_0000
    ensures Printable(Normal, "%%", [Word(w)])
    ensures var text := Output(Normal, "%%", [Word(w)]);
      text != [] && text[0] == '%' && IsDecimal(text[1..]) && DenotedInt(text[1..]) == i
  {
    hide Converted, Converts, IsDecimal, DenotedInt;
    LengthProps("", 'i');
    PrintsInt("", w, i);
    OneConversion("", 'i', Word(w));
    assert "%%"[1..] == "%" && "%"[1..] == "" && [Word(w)][1..] == [];
    var shown := Converted(NO_PROPS, Word(w));
    assert Output(Normal, "%%", [Word(w)]) == "%" + (shown + []);
    assert ("%" + (shown + []))[1..] == shown;
  }

  // ---- one after the other ----

  /** A character that is no percent sign is shown as it is. */
  lemma PlainGoesOn(c: char, rest: Text, args: seq<Arg>)
    requires c != '%' && Printable(Normal, rest, args)
    ensures Printable(Normal, [c] + rest, args) && Output(Normal, [c] + rest, args) == [c] + Output(Normal, rest, args)
  {
    assert ([c] + rest)[1..] == rest;
  }

  /** A conversion shows its own argument, and the rest of the format the other arguments. */
  lemma ConversionGoesOn(modifiers: Text, letter: char, arg: Arg, rest: Text, args: seq<Arg>)
    requires AreModifiers(modifiers) && IsConversion(letter) && Printable(Normal, rest, args)
    requires Converts(PropsOf(Conversion(modifiers, letter)), arg)
    ensures Printable(Normal, "%" + modifiers + [letter], [arg])
    ensures Printable(Normal, "%" + modifiers + [letter] + rest, [arg] + args)
    ensures Output(Normal, "%" + modifiers + [letter] + rest, [arg] + args) ==
      Shown1(modifiers, letter, arg) + Output(Normal, rest, args)
  {
    hide Printable, Output, Converted, Converts, Modified;
    OneConversion(modifiers, letter, arg);
    assert ([arg] + args)[1..] == args;
    ConversionPrints(NO_PROPS, modifiers, letter, rest, [arg] + args);
    PercentPrints(modifiers + [letter] + rest, [arg] + args);
    assert ['%'] + (modifiers + [letter] + rest) == "%" + modifiers + [letter] + rest;
  }

  /** A character that means nothing behind a percent sign is passed over. */
  lemma UnknownPassed(c: char, w: nat)
    requires c !in {'%', 'i', 'u', 'x', 'X', 'b', 'c', 's', 'S', 'p', 'h', 'l'} && !('0' <= c <= '9')
    ensures Printable(Normal, "%" + [c] + "i", [Word(w)]) && Printable(Normal, "%i", [Word(w)])
    ensures Output(Normal, "%" + [c] + "i", [Word(w)]) == Output(Normal, "%i", [Word(w)])
  {
    hide Converted;
    LengthProps("", 'i');
    OneConversion("", 'i', Word(w));
    assert "%" + "" + ['i'] == "%i" && "%i"[1..] == "i" && ([c] + "i")[1..] == "i";
    assert Printable(Value(NO_PROPS), "i", [Word(w)]);
    assert ProcessValue(NO_PROPS, c) == More(NO_PROPS);
    assert Printable(Value(NO_PROPS), [c] + "i", [Word(w)]);
    PercentPrints([c] + "i", [Word(w)]);
    assert ['%'] + ([c] + "i") == "%" + [c] + "i";
  }

  // ---- widths ----

  /** A width: a zero in front or not, and then digits that do not start with one. */
  lemma PrintsPadded(zero: bool, digits: Text, letter: char, w: nat)
    requires AllNumbers(digits) && digits != [] && digits[0] != '0' && letter in {'u', 'i'}
    requires Denoted(digits, 10) <= if zero then 64 else 0xFFFF_FFFF
    ensures var modifiers := (if zero then "0" else "") + digits;
      && Printable(Normal, "%" + modifiers + [letter], [Word(w)]) && Printable(Normal, "%" + [letter], [Word(w)])
      && var plain, text := Output(Normal, "%" + [letter], [Word(w)]), Shown1(modifiers, letter, Word(w));
      && var width := Denoted(digits, 10);
      && plain != [] && |text| == (if width < |plain| then |plain| else width)
      && var sign := if zero && plain[0] == '-' then "-" else "";
      && text[..|sign|] == sign && text[|text| - |plain[|sign|..]|..] == plain[|sign|..]
      && (forall k | |sign| <= k < |text| - |plain[|sign|..]| :: text[k] == if zero then '0' else ' ')
  {
    hide Numeral, Denoted, InField, Printable, Output, InterpretInt, Modified, Sign, Converted, Converts;
    var modifiers := (if zero then "0" else "") + digits;
    var field := Field(Denoted(digits, 10), zero);
    WidthProps(zero, digits, letter, w);
    OneConversion("", letter, Word(w));
    OneConversion(modifiers, letter, Word(w));
    assert "%" + "" + [letter] == "%" + [letter];
    var (negative, value) := PaddedValue(letter, w);
    DecimalNumeral(value);
    FieldNone(negative, Numeral(value, 10, false));
    PaddedParts(field, negative, Numeral(value, 10, false));
  }

  lemma WidthProps(zero: bool, digits: Text, letter: char, w: nat)
    requires AllNumbers(digits) && digits != [] && digits[0] != '0' && letter in {'u', 'i'}
    requires Denoted(digits, 10) <= if zero then 64 else 0xFFFF_FFFF
    ensures var modifiers := (if zero then "0" else "") + digits;
      && AreModifiers(modifiers)
      && PropsOf(Conversion(modifiers, letter)) == Props(KindOf(letter), 0, Field(Denoted(digits, 10), zero))
      && PropsOf(Conversion("", letter)) == Props(KindOf(letter), 0, NO_FIELD)
      && Converts(PropsOf(Conversion(modifiers, letter)), Word(w)) && Converts(PropsOf(Conversion("", letter)), Word(w))
  {
    hide Denoted;
    LengthProps("", letter);
    WidthDenotes(KindInt, 0, if zero then 1 else 0, digits);
    assert Repeat('0', if zero then 1 else 0) + digits == (if zero then "0" else "") + digits;
  }

  lemma PaddedParts(field: Field, negative: bool, numeral: Text)
    requires numeral != [] && numeral[0] != '-'
    ensures var plain, text := Sign(negative) + numeral, InField(field, negative, numeral);
      && |text| == (if field.width < |plain| then |plain| else field.width)
      && plain != [] && var sign := if field.zeroPad && plain[0] == '-' then "-" else "";
      && |plain[|sign|..]| <= |text| && |sign| <= |text|
      && text[..|sign|] == sign && text[|text| - |plain[|sign|..]|..] == plain[|sign|..]
      && (forall k | |sign| <= k < |text| - |plain[|sign|..]| :: text[k] == if field.zeroPad then '0' else ' ')
  {
    hide InField;
    FieldMeans(field, negative, numeral);
    FieldWidth(field, negative, numeral);
    if negative {
      assert ("-" + numeral)[1..] == numeral && "-" + numeral == Sign(true) + numeral;
    } else {
      assert "" + numeral == numeral && Sign(false) + numeral == numeral;
    }
  }

  /** Sign and magnitude that a decimal conversion of the default length works on. */
  ghost function PaddedValue(letter: char, w: nat): (r: (bool, nat))
    requires letter in {'u', 'i'}
    ensures forall field: Field | FieldFits(field) ::
      Converted(Props(KindOf(letter), 0, field), Word(w)) == InField(field, r.0, Numeral(r.1, 10, false))
  {
    if letter == 'u' then (false, w % UINT32)
    else var m := InterpretInt(WidthDefault, IntArg(w, 0)); (m.negative, m.value)
  }

  /** A negative number, letters of both cases, and a field with blanks and with zeros. */
  lemma PrintsHere()
    ensures Printable(Normal, "%i", [Word(0xFFFF_FFFB)])
    ensures DenotedInt(Output(Normal, "%i", [Word(0xFFFF_FFFB)])) == -5
  {
    hide DenotedInt, Printable, Output;
    ModOf(-5, 0x1_0000_0000, -1, 0xFFFF_FFFB);
    PrintsInt("", 0xFFFF_FFFB, -5);
    assert "%" + "" + ['i'] == "%i" && "%" + "" + "i" == "%i";
  }
}
