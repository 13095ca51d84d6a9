/**
 avStringPrintTo: a two-state machine over the format string that takes its arguments off a list,
 with its conversions of integers, pointers, characters and strings, their widths and zero padding.
 */
module PrintFormat {
  import opened Common
  import opened Printf
  import opened Streams

  // ---- conversions ----

  datatype Kind =
    | KindInt | KindUint | KindHexLower | KindHexUpper | KindBin | KindPointer
    | KindChar | KindCstr | KindString

  /** `length` counts the modifiers: -2 for hh up to 2 for ll. */
  datatype Props = Props(kind: Kind, length: int, field: Field)

  const NO_PROPS: Props := Props(KindInt, 0, NO_FIELD)

  /** An argument: a word, the way it lies in a register, or the characters of a string. */
  datatype Arg = Word(word: nat) | Chars(chars: Text)

  /** The kinds that take a string. */
  predicate TakesChars(kind: Kind) {
    kind == KindCstr || kind == KindString
  }

  /** An argument that the conversion can take, and zeros that stay inside the buffer. */
  predicate Converts(props: Props, arg: Arg) {
    && (TakesChars(props.kind) <==> arg.Chars?)
    && (IsInteger(props.kind) ==> FieldFits(props.field))
  }

  predicate IsInteger(kind: Kind) {
    kind in {KindInt, KindUint, KindHexLower, KindHexUpper, KindBin}
  }

  datatype State = Normal | Value(props: Props)

  function Clamped(length: int): int {
    if length < -2 then -2 else if length > 2 then 2 else length
  }

  function WidthOf(length: int): Width {
    if length <= -2 then Width8
    else if length == -1 then Width16
    else if length == 0 then WidthDefault
    else if length == 1 then Width32
    else Width64
  }

  /** va_arg of an unsigned integer. */
  function UintArg(word: nat, length: int): nat {
    if WidthOf(length) == Width64 then word % UINT64 else word % UINT32
  }

  /** va_arg of a signed integer, widened to 64 bits. */
  function IntArg(word: nat, length: int): (i: int)
    ensures -0x8000_0000_0000_0000 <= i < 0x8000_0000_0000_0000
  {
    var raw := UintArg(word, length);
    if WidthOf(length) == Width64 then (if raw < 0x8000_0000_0000_0000 then raw else raw - UINT64)
    else if raw < 0x8000_0000 then raw
    else raw - UINT32
  }

  /** A pointer takes sixteen places with zeros in front, whatever the format says. */
  const POINTER_FIELD: Field := Field(16, true)

  /** What a C string comes to: the characters in front of its NUL. */
  function UpToNul(s: Text): (t: Text)
    ensures t <= s && '\0' !in t && (|t| == |s| || s[|t|] == '\0')
  {
    if s == [] || s[0] == '\0' then [] else [s[0]] + UpToNul(s[1..])
  }

  /** Blanks in front of a character or a string, which zero padding does not apply to. */
  function Blanked(width: nat, s: Text): (t: Text)
    ensures |t| == if width < |s| then |s| else width
    ensures |s| <= |t| && t[|t| - |s|..] == s && forall k | 0 <= k < |t| - |s| :: t[k] == ' '
  {
    Repeat(' ', Padding(width, |s|)) + s
  }

  function Unsigned(field: Field, value: nat, base: nat, upperCase: bool): Text
    requires 2 <= base <= 36
  {
    InField(field, false, Numeral(value, base, upperCase))
  }

  function Converted(props: Props, arg: Arg): Text
    requires Converts(props, arg)
  {
    match props.kind
    case KindInt => IntField(props.field, WidthOf(props.length), IntArg(arg.word, props.length))
    case KindUint => Unsigned(props.field, UintArg(arg.word, props.length), 10, false)
    case KindHexLower => Unsigned(props.field, UintArg(arg.word, props.length), 16, false)
    case KindHexUpper => Unsigned(props.field, UintArg(arg.word, props.length), 16, true)
    case KindBin => Unsigned(props.field, UintArg(arg.word, props.length), 2, false)
    case KindPointer => Unsigned(POINTER_FIELD, arg.word % UINT64, 16, true)
    case KindChar => Blanked(props.field.width, [(arg.word % 256) as char])
    case KindCstr => Blanked(props.field.width, UpToNul(arg.chars))
    case KindString => Blanked(props.field.width, arg.chars)
  }

  // ---- the machine ----

  datatype Reading = Done(props: Props) | More(props: Props)

  predicate IsConversion(c: char) {
    c in {'i', 'u', 'x', 'X', 'b', 'c', 's', 'S', 'p'}
  }

  /** A digit of the width, which wraps in 32 bits; a zero in front of it asks for zero padding. */
  function Widened(field: Field, c: char): Field {
    if field.width == 0 && c == '0' then field.(zeroPad := true)
    else field.(width := (field.width * 10 % UINT32 + DigitValue(c)) % UINT32)
  }

  /** processValue. */
  function ProcessValue(props: Props, c: char): Reading {
    if IsNumber(c) then More(props.(field := Widened(props.field, c)))
    else
    match c
    case '%' => Done(props)
    case 'i' => Done(props.(kind := KindInt))
    case 'u' => Done(props.(kind := KindUint))
    case 'x' => Done(props.(kind := KindHexLower))
    case 'X' => Done(props.(kind := KindHexUpper))
    case 'b' => Done(props.(kind := KindBin))
    case 'c' => Done(props.(kind := KindChar))
    case 's' => Done(props.(kind := KindCstr))
    case 'S' => Done(props.(kind := KindString))
    case 'p' => Done(props.(kind := KindPointer))
    case 'h' => More(props.(length := Clamped(props.length - 1)))
    case 'l' => More(props.(length := Clamped(props.length + 1)))
    case _ => More(props)
  }

  /** An argument for each conversion that it can take. */
  predicate Printable(state: State, format: Text, args: seq<Arg>)
    decreases |format|
  {
    if format == [] then true
    else
      var c, rest := format[0], format[1..];
      match state
      case Normal => Printable(if c == '%' then Value(NO_PROPS) else Normal, rest, args)
      case Value(props) =>
        match ProcessValue(props, c)
        case More(next) => Printable(Value(next), rest, args)
        case Done(next) => args != [] && Converts(next, args[0]) && Printable(Normal, rest, args[1..])
  }

  /** What the machine puts out from this state on. */
  function Output(state: State, format: Text, args: seq<Arg>): Text
    requires Printable(state, format, args)
    decreases |format|
  {
    if format == [] then []
    else
      var c, rest := format[0], format[1..];
      match state
      case Normal =>
        if c == '%' then Output(Value(NO_PROPS), rest, args) else [c] + Output(Normal, rest, args)
      case Value(props) =>
        match ProcessValue(props, c)
        case More(next) => Output(Value(next), rest, args)
        case Done(next) =>
          (if c == '%' then "%" else "") + (Converted(next, args[0]) + Output(Normal, rest, args[1..]))
  }

  /** printfValue. */
  method PrintValue(stream: Stream, props: Props, arg: Arg)
    requires stream.Valid() && Converts(props, arg)
    modifies stream, stream.buffer
    ensures stream.Valid()
    ensures stream.Text() ==
      Shown(old(stream.Text()), Converted(props, arg), stream.buffer.Length, stream.hasDescriptor)
  {
    hide Numeral, Shown, InterpretInt, InField, IntField, UpToNul;
    match props.kind
    case KindInt => PrintInt(stream, props.field, WidthOf(props.length), IntArg(arg.word, props.length));
    case KindUint => PrintUint(stream, props.field, UintArg(arg.word, props.length), 10, false, false);
    case KindHexLower => PrintUint(stream, props.field, UintArg(arg.word, props.length), 16, false, false);
    case KindHexUpper => PrintUint(stream, props.field, UintArg(arg.word, props.length), 16, true, false);
    case KindBin => PrintUint(stream, props.field, UintArg(arg.word, props.length), 2, false, false);
    case KindPointer => PrintUint(stream, POINTER_FIELD, arg.word % UINT64, 16, true, false);
    case KindChar => PrintText(stream, props.field.width, [(arg.word % 256) as char]);
    case KindCstr => PrintText(stream, props.field.width, UpToNul(arg.chars));
    case KindString => PrintText(stream, props.field.width, arg.chars);
  }

  /** Blanks, and then the characters one by one. */
  method PrintText(stream: Stream, width: nat, s: Text)
    requires stream.Valid()
    modifies stream, stream.buffer
    ensures stream.Valid()
    ensures stream.Text() ==
      Shown(old(stream.Text()), Blanked(width, s), stream.buffer.Length, stream.hasDescriptor)
  {
    hide Shown;
    ghost var text, size, endless := stream.Text(), stream.buffer.Length, stream.hasDescriptor;
    ghost var blanks := Repeat(' ', Padding(width, |s|));
    Fitted(stream);
    Pad(stream, Padding(width, |s|));
    assert blanks + s[..0] == blanks;
    for i := 0 to |s|
      invariant stream.Valid() && stream.Text() == Shown(text, blanks + s[..i], size, endless)
    {
      ShownSome(text, blanks + s[..i], [s[i]], size, endless);
      assert blanks + s[..i] + [s[i]] == blanks + s[..i + 1];
      stream.PutC(s[i]);
    }
    assert s[..|s|] == s;
  }

  /** What has been shown, and then the output still to come, is the whole output. */
  ghost predicate Printing(text: Text, format: Text, args: seq<Arg>, size: nat, endless: bool,
                           now: Text, state: State, rest: Text, left: seq<Arg>)
    requires Printable(Normal, format, args)
  {
    && Printable(state, rest, left)
    && (endless || |now| <= size)
    && Shown(now, Output(state, rest, left), size, endless) ==
       Shown(text, Output(Normal, format, args), size, endless)
  }

  method PrintTo(stream: Stream, format: Text, args: seq<Arg>)
    requires stream.Valid() && Printable(Normal, format, args)
    modifies stream, stream.buffer
    ensures stream.Valid()
    ensures stream.Text() ==
      Shown(old(stream.Text()), Output(Normal, format, args), stream.buffer.Length, stream.hasDescriptor)
  {
    hide Printable, Output, Converted, Shown, Printing, ProcessValue;
    ghost var text, size, endless := stream.Text(), stream.buffer.Length, stream.hasDescriptor;
    var state, left := Normal, args;
    PrintStart(text, format, args, size, endless);
    for i := 0 to |format|
      invariant stream.Valid()
      invariant Printing(text, format, args, size, endless, stream.Text(), state, format[i..], left)
    {
      var c := format[i];
      ghost var now := stream.Text();
      assert format[i..] == [c] + format[i + 1..];
      match state
      case Normal =>
        if c == '%' {
          PrintOpens(text, format, args, size, endless, now, c, format[i + 1..], left);
          state := Value(NO_PROPS);
        } else {
          PrintLiteral(text, format, args, size, endless, now, c, format[i + 1..], left);
          stream.PutC(c);
        }
      case Value(props) =>
        var reading := ProcessValue(props, c);
        PrintReads(text, format, args, size, endless, now, props, c, format[i + 1..], left);
        if c == '%' {
          stream.PutC('%');
        }
        match reading {
          case More(next) => state := Value(next);
          case Done(next) =>
            PrintValue(stream, next, left[0]);
            left := left[1..];
            state := Normal;
        }
    }
    assert format[|format|..] == [];
    PrintEnd(text, format, args, size, endless, stream.Text(), state, left);
  }

  lemma PrintStart(text: Text, format: Text, args: seq<Arg>, size: nat, endless: bool)
    requires Printable(Normal, format, args) && (endless || |text| <= size)
    ensures Printing(text, format, args, size, endless, text, Normal, format[0..], args)
  {
  }

  lemma PrintEnd(text: Text, format: Text, args: seq<Arg>, size: nat, endless: bool,
                 now: Text, state: State, left: seq<Arg>)
    requires Printable(Normal, format, args) && Printing(text, format, args, size, endless, now, state, [], left)
    ensures now == Shown(text, Output(Normal, format, args), size, endless)
  {
  }

  lemma PrintOpens(text: Text, format: Text, args: seq<Arg>, size: nat, endless: bool,
                   now: Text, c: char, rest: Text, left: seq<Arg>)
    requires Printable(Normal, format, args) && c == '%'
    requires Printing(text, format, args, size, endless, now, Normal, [c] + rest, left)
    ensures Printing(text, format, args, size, endless, now, Value(NO_PROPS), rest, left)
  {
  }

  lemma PrintLiteral(text: Text, format: Text, args: seq<Arg>, size: nat, endless: bool,
                     now: Text, c: char, rest: Text, left: seq<Arg>)
    requires Printable(Normal, format, args) && c != '%'
    requires Printing(text, format, args, size, endless, now, Normal, [c] + rest, left)
    ensures Printing(text, format, args, size, endless, Shown(now, [c], size, endless), Normal, rest, left)
  {
    hide Shown, Converted, Converts, ProcessValue;
    assert ([c] + rest)[1..] == rest;
    ShownOne(now, c, Output(Normal, rest, left), size, endless);
  }

  function AfterPercent(now: Text, c: char, size: nat, endless: bool): Text {
    if c == '%' then Shown(now, "%", size, endless) else now
  }

  lemma PrintReads(text: Text, format: Text, args: seq<Arg>, size: nat, endless: bool,
                   now: Text, props: Props, c: char, rest: Text, left: seq<Arg>)
    requires Printable(Normal, format, args)
    requires Printing(text, format, args, size, endless, now, Value(props), [c] + rest, left)
    ensures ProcessValue(props, c).More? ==> c != '%'
    ensures ProcessValue(props, c).More? ==>
      Printing(text, format, args, size, endless, now, Value(ProcessValue(props, c).props), rest, left)
    ensures ProcessValue(props, c).Done? ==> left != [] && Converts(ProcessValue(props, c).props, left[0])
    ensures ProcessValue(props, c).Done? ==>
      Printing(text, format, args, size, endless,
        Shown(AfterPercent(now, c, size, endless), Converted(ProcessValue(props, c).props, left[0]), size, endless),
        Normal, rest, left[1..])
  {
    hide Shown, Converted;
    assert ([c] + rest)[1..] == rest;
    var reading := ProcessValue(props, c);
    if reading.Done? {
      var tail := Output(Normal, rest, left[1..]);
      var shown := Converted(reading.props, left[0]);
      if c == '%' {
        ShownOne(now, c, shown + tail, size, endless);
        ShownSome(Shown(now, [c], size, endless), shown, tail, size, endless);
      } else {
        assert "" + (shown + tail) == shown + tail;
        ShownSome(now, shown, tail, size, endless);
      }
    }
  }

  // ---- what formats mean ----

  datatype Piece = Plain(c: char) | Conversion(modifiers: Text, letter: char)

  predicate SoundPiece(p: Piece) {
    match p
    case Plain(c) => c != '%'
    case Conversion(modifiers, letter) => IsConversion(letter) && AreModifiers(modifiers)
  }

  predicate AreModifiers(s: Text) {
    forall i | 0 <= i < |s| :: s[i] in {'h', 'l'} || IsNumber(s[i])
  }

  function Written(p: Piece): Text {
    match p
    case Plain(c) => [c]
    case Conversion(modifiers, letter) => "%" + (modifiers + [letter])
  }

  function Format(pieces: seq<Piece>): Text {
    if pieces == [] then [] else Written(pieces[0]) + Format(pieces[1..])
  }

  /** After the modifiers: the length, each one step and never past the extremes, and the field. */
  function Modified(props: Props, modifiers: Text): Props
    decreases |modifiers|
  {
    if modifiers == [] then props
    else if IsNumber(modifiers[0]) then
      Modified(props.(field := Widened(props.field, modifiers[0])), modifiers[1..])
    else
      Modified(props.(length := Clamped(if modifiers[0] == 'h' then props.length - 1 else props.length + 1)),
        modifiers[1..])
  }

  /** Digits in a row denote the width, in 32 bits; zeros in front of them ask for zero padding. */
  lemma {:induction false} WidthDenotes(kind: Kind, length: int, zeros: nat, digits: Text)
    requires AllNumbers(digits) && (digits != [] ==> digits[0] != '0') && Denoted(digits, 10) < UINT32
    ensures Modified(Props(kind, length, NO_FIELD), Repeat('0', zeros) + digits) ==
      Props(kind, length, Field(Denoted(digits, 10), 0 < zeros))
  {
    hide Modified, Denoted, Widened;
    DenotedNothing(10);
    assert [] + digits == digits;
    ZerosRead(Props(kind, length, NO_FIELD), zeros, digits);
    DigitsRead(Props(kind, length, Field(0, 0 < zeros)), [], digits);
  }

  /** The format "%065u" asks for 65 characters in the buffer of 64. */
  lemma ZerosRunOver()
    ensures Modified(NO_PROPS, "065") == Props(KindInt, 0, Field(65, true))
    ensures !Converts(Props(KindUint, 0, Field(65, true)), Word(7))
    ensures |InField(Field(65, true), false, Numeral(7, 10, false))| == BUFFER_SIZE + 1
  {
    hide Numeral, InField, Modified, Denoted;
    DenotedMore("6", '5', 10);
    DenotedMore([], '6', 10);
    DenotedNothing(10);
    assert "6" + ['5'] == "65" && [] + ['6'] == "6";
    WidthDenotes(KindInt, 0, 1, "65");
    assert Repeat('0', 1) + "65" == "065";
    FieldWidth(Field(65, true), false, Numeral(7, 10, false));
    OneDigit();
  }

  lemma OneDigit()
    ensures |Numeral(7, 10, false)| == 1
  {
  }

  lemma {:induction false} ZerosRead(props: Props, zeros: nat, digits: Text)
    requires props.field.width == 0
    ensures Modified(props, Repeat('0', zeros) + digits) ==
      Modified(props.(field := Field(0, props.field.zeroPad || 0 < zeros)), digits)
    decreases zeros
  {
    var s := Repeat('0', zeros) + digits;
    if zeros == 0 {
      assert s == digits;
    } else {
      assert s[0] == '0' && s[1..] == Repeat('0', zeros - 1) + digits;
      ZerosRead(props.(field := Field(0, true)), zeros - 1, digits);
    }
  }

  /** With the digits of `front` read, the width is what they denote, and so it goes on. */
  lemma {:induction false} DigitsRead(props: Props, front: Text, digits: Text)
    requires AllNumbers(front) && AllNumbers(digits) && props.field.width == Denoted(front, 10)
    requires front == [] ==> digits != [] ==> digits[0] != '0'
    requires front != [] ==> 0 < Denoted(front, 10)
    requires Denoted(front + digits, 10) < UINT32
    ensures Modified(props, digits) == props.(field := Field(Denoted(front + digits, 10), props.field.zeroPad))
    decreases |digits|
  {
    hide Denoted;
    if digits == [] {
      assert front + digits == front;
    } else {
      var more := front + [digits[0]];
      assert more + digits[1..] == front + digits;
      DenotedMore(front, digits[0], 10);
      PrefixDenoted(more, digits[1..]);
      if front == [] {
        DenotedNothing(10);
        DigitNotZero(digits[0]);
      }
      DigitsRead(props.(field := Widened(props.field, digits[0])), more, digits[1..]);
    }
  }

  lemma DigitNotZero(c: char)
    requires IsNumber(c) && c != '0'
    ensures 0 < DigitValue(c)
  {
  }

  lemma PrefixDenoted(a: Text, b: Text)
    requires AllNumbers(a)
    ensures Denoted(a, 10) <= Denoted(a + b, 10)
  {
    hide Denoted;
    assert (a + b)[..|a|] == a;
    if b != [] && 0 < Denoted(a, 10) {
      PrefixDenotesLess(a + b, |a|, 10);
    } else if b == [] {
      assert a + b == a;
    }
  }

  function KindOf(letter: char): Kind {
    match letter
    case 'i' => KindInt
    case 'u' => KindUint
    case 'x' => KindHexLower
    case 'X' => KindHexUpper
    case 'c' => KindChar
    case 's' => KindCstr
    case 'S' => KindString
    case 'p' => KindPointer
    case _ => KindBin
  }

  function PropsOf(p: Piece): Props
    requires p.Conversion?
  {
    Modified(NO_PROPS, p.modifiers).(kind := KindOf(p.letter))
  }

  predicate Supplied(pieces: seq<Piece>, args: seq<Arg>) {
    if pieces == [] then true
    else if pieces[0].Plain? then Supplied(pieces[1..], args)
    else args != [] && Converts(PropsOf(pieces[0]), args[0]) && Supplied(pieces[1..], args[1..])
  }

  /** The plain characters as they are, and each conversion's own argument where it stands. */
  function Rendered(pieces: seq<Piece>, args: seq<Arg>): Text
    requires Supplied(pieces, args)
  {
    if pieces == [] then []
    else
      match pieces[0]
      case Plain(c) => [c] + Rendered(pieces[1..], args)
      case Conversion(modifiers, letter) =>
        Converted(PropsOf(pieces[0]), args[0]) + Rendered(pieces[1..], args[1..])
  }

  ghost predicate PrintsAs(pieces: seq<Piece>, args: seq<Arg>) {
    && Supplied(pieces, args)
    && Printable(Normal, Format(pieces), args)
    && Output(Normal, Format(pieces), args) == Rendered(pieces, args)
  }

  /** The machine prints every format piece by piece. */
  lemma {:induction false} FormatPrints(pieces: seq<Piece>, args: seq<Arg>)
    requires Supplied(pieces, args) && forall i | 0 <= i < |pieces| :: SoundPiece(pieces[i])
    ensures PrintsAs(pieces, args)
    decreases |pieces|
  {
    hide PrintsAs, Format;
    if pieces == [] {
      NothingPrints(args);
    } else if pieces[0].Plain? {
      FormatPrints(pieces[1..], args);
      PlainPiecePrints(pieces, args);
    } else {
      FormatPrints(pieces[1..], args[1..]);
      ConversionPiecePrints(pieces, args);
    }
  }

  lemma PlainPiecePrints(pieces: seq<Piece>, args: seq<Arg>)
    requires pieces != [] && SoundPiece(pieces[0]) && pieces[0].Plain? && PrintsAs(pieces[1..], args)
    ensures PrintsAs(pieces, args)
  {
  }

  lemma ConversionPiecePrints(pieces: seq<Piece>, args: seq<Arg>)
    requires pieces != [] && SoundPiece(pieces[0]) && pieces[0].Conversion? && args != []
    requires Converts(PropsOf(pieces[0]), args[0])
    requires PrintsAs(pieces[1..], args[1..])
    ensures PrintsAs(pieces, args)
  {
    hide Output, Printable, Converted, Converts, Modified, AreModifiers;
    var rest := Format(pieces[1..]);
    var s := pieces[0].modifiers + [pieces[0].letter];
    ConversionPrints(NO_PROPS, pieces[0].modifiers, pieces[0].letter, rest, args);
    PercentPrints(s + rest, args);
    assert "%" + s + rest == ['%'] + (s + rest);
  }

  lemma NothingPrints(args: seq<Arg>)
    ensures PrintsAs([], args)
  {
  }

  lemma PercentPrints(rest: Text, args: seq<Arg>)
    requires Printable(Value(NO_PROPS), rest, args)
    ensures Printable(Normal, ['%'] + rest, args)
    ensures Output(Normal, ['%'] + rest, args) == Output(Value(NO_PROPS), rest, args)
  {
  }

  lemma {:induction false} ConversionPrints(props: Props, modifiers: Text, letter: char, rest: Text, args: seq<Arg>)
    requires IsConversion(letter) && AreModifiers(modifiers) && args != [] && Printable(Normal, rest, args[1..])
    requires Converts(Modified(props, modifiers).(kind := KindOf(letter)), args[0])
    ensures var s := modifiers + [letter] + rest;
      && Printable(Value(props), s, args)
      && Output(Value(props), s, args) ==
         Converted(Modified(props, modifiers).(kind := KindOf(letter)), args[0]) + Output(Normal, rest, args[1..])
    decreases |modifiers|
  {
    hide Converted, Converts, Widened;
    var s := modifiers + [letter] + rest;
    if modifiers == [] {
      assert s == [letter] + rest && s[1..] == rest;
      var shown := Converted(props.(kind := KindOf(letter)), args[0]) + Output(Normal, rest, args[1..]);
      assert "" + shown == shown;
    } else {
      assert s[1..] == modifiers[1..] + [letter] + rest && s[0] == modifiers[0];
      var next := ProcessValue(props, modifiers[0]).props;
      assert Modified(props, modifiers) == Modified(next, modifiers[1..]);
      ConversionPrints(next, modifiers[1..], letter, rest, args);
    }
  }

  /** An unsigned conversion denotes its word cut to the length, in its base, behind its blanks or zeros. */
  lemma UintDenotes(props: Props, arg: Arg)
    requires IsInteger(props.kind) && props.kind != KindInt && Converts(props, arg)
    ensures var base := if props.kind == KindUint then 10 else if props.kind == KindBin then 2 else 16;
      var text := Converted(props, arg);
      && Denoted(SkipBlanks(text), base) == UintArg(arg.word, props.length)
      && props.field.width <= |text|
  {
    hide Numeral, Denoted, InField, SkipBlanks;
    var value := UintArg(arg.word, props.length);
    UnsignedDenotes(props.field, value, 10, false);
    UnsignedDenotes(props.field, value, 16, false);
    UnsignedDenotes(props.field, value, 16, true);
    UnsignedDenotes(props.field, value, 2, false);
  }

  lemma UnsignedDenotes(field: Field, value: nat, base: nat, upperCase: bool)
    requires 2 <= base <= 36
    ensures Denoted(SkipBlanks(Unsigned(field, value, base, upperCase)), base) == value
    ensures field.width <= |Unsigned(field, value, base, upperCase)|
  {
    hide Denoted, InField, Numeral, SkipBlanks;
    NumeralDenotes(value, base, upperCase);
    NumeralNotBlank(value, base, upperCase);
    FieldDenotes(field, false, Numeral(value, base, upperCase), base);
    FieldWidth(field, false, Numeral(value, base, upperCase));
  }

  /** A pointer shows all its sixteen digits. */
  lemma PointerDenotes(props: Props, arg: Arg)
    requires props.kind == KindPointer && Converts(props, arg)
    ensures var text := Converted(props, arg); |text| == 16 && Denoted(text, 16) == arg.word % UINT64
  {
    hide Numeral, Denoted;
    var value := arg.word % UINT64;
    NumeralDenotes(value, 16, true);
    SixteenDigits(value);
    FieldWidth(POINTER_FIELD, false, Numeral(value, 16, true));
    FrontCountsNothing('0', Padding(16, |Numeral(value, 16, true)|), Numeral(value, 16, true), 16);
    assert Sign(false) + (Repeat('0', Padding(16, |Numeral(value, 16, true)|)) + Numeral(value, 16, true))
      == Repeat('0', Padding(16, |Numeral(value, 16, true)|)) + Numeral(value, 16, true);
  }

  lemma SixteenDigits(value: nat)
    requires value < UINT64
    ensures |Numeral(value, 16, true)| <= 16
  {
    hide Numeral, NumberOfCharacters, Power;
    NumeralLength(value, 16, true);
    if 0 < value {
      CharactersIsLog(value, 16);
      if 16 < NumberOfCharacters(value, 16) {
        PowerGrows(16, 16, NumberOfCharacters(value, 16) - 1);
        SixteenthPower();
      }
    } else {
      NothingShort();
    }
  }

  lemma NothingShort()
    ensures NumberOfCharacters(0, 16) == 1
  {
  }

  lemma SixteenthPower()
    ensures Power(16, 16) == UINT64
  {
    assert Power(16, 4) == 0x1_0000;
    assert Power(16, 8) == 0x1_0000_0000;
    assert Power(16, 12) == 0x1_0000_0000_0000;
  }

  lemma {:induction false} PowerGrows(base: nat, m: nat, n: nat)
    requires 0 < base && m <= n
    ensures Power(base, m) <= Power(base, n)
    decreases n
  {
    hide Power;
    if m < n {
      PowerGrows(base, m, n - 1);
      PowerStep(base, n);
      MulGrows(base, Power(base, n - 1));
    }
  }

  lemma MulGrows(base: nat, p: nat)
    requires 0 < base
    ensures p <= base * p
  {
  }

  lemma {:induction false} NumeralNotBlank(value: nat, base: nat, upperCase: bool)
    requires 2 <= base <= 36
    ensures Numeral(value, base, upperCase)[0] !in {' ', '-'}
    decreases value
  {
    if base <= value {
      Quotient(value, base);
      NumeralNotBlank(value / base, base, upperCase);
    }
  }

  // ---- there and back ----

  lemma PrintsUint(value: nat)
    requires value < UINT32
    ensures Printable(Normal, "%u", [Word(value)])
    ensures Output(Normal, "%u", [Word(value)]) == Numeral(value, 10, false)
  {
    hide Numeral, InField, Printable, Output;
    var pieces := [Conversion("", 'u')];
    assert pieces[1..] == [] && [Word(value)][1..] == [];
    assert Format([]) == "";
    assert Format(pieces) == "%u";
    FormatPrints(pieces, [Word(value)]);
    FieldNone(false, Numeral(value, 10, false));
    assert Sign(false) + Numeral(value, 10, false) == Numeral(value, 10, false);
    assert Rendered(pieces, [Word(value)]) == Numeral(value, 10, false) + [];
  }

  /** avStringPrintfToBuffer and then avStringScanf, both with the format "%u". */
  method PrintThenScan(value: nat, size: nat) returns (elementsFilled: nat, scanned: nat)
    requires value < UINT32
    ensures elementsFilled == 1 && scanned == value <==> |Numeral(value, 10, false)| <= size
    ensures 10 <= size ==> elementsFilled == 1 && scanned == value
  {
    hide Numeral, Denoted, DigitsOnly, Shown, Output, Printable;
    var buffer := new char[size];
    var stream := new Stream(buffer, false);
    PrintsUint(value);
    PrintTo(stream, "%u", [Word(value)]);
    var str := buffer[..stream.totalSize];
    assert str == stream.Text();
    RoundTripIff(value, size);
    elementsFilled, scanned := ScanfUint(str);
  }
}
