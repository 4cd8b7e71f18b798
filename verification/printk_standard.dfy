/** What the standard asks of a format, written down on its own (ISO C11, section 7.21.6.1, paragraphs 4 to 8), and what
    the kernel printf makes of a format of any number of conversions (kernel/src/printk/printk.c). */
module Standard {
  import opened Words
  import opened Division
  import opened PrintkText
  import opened AlternativeForm
  import opened Formats

  function Many(c: char, n: int): string {
    if n <= 0 then "" else seq(n, _ => c)
  }

  function DecimalNumber(digits: string): nat {
    if digits == "" then 0
    else
      var c := digits[|digits| - 1];
      DecimalNumber(digits[..|digits| - 1]) * 10 + if '0' <= c <= '9' then c as int - 0x30 else 0
  }

  /** The first argument, if it is a word. */
  function FirstWord(va: seq<Arg>): u64 {
    if va != [] && va[0].Word? then va[0].bits else 0
  }

  /** The arguments behind the first n. */
  function Behind(va: seq<Arg>, n: nat): seq<Arg> {
    if n <= |va| then va[n..] else []
  }

  /** The low part of a word as a signed number of this size. */
  function Signed(word: nat, size: nat): int
    requires size > 0
  {
    if word % size * 2 < size then word % size else word % size - size
  }

  function Counted(c: Count, va: seq<Arg>): int {
    match c
    case Omitted => 0
    case Number(digits) => DecimalNumber(digits)
    case FromArgument => Signed(FirstWord(va), 0x1_0000_0000)
  }

  function Stars(c: Count): nat {
    if c == FromArgument then 1 else 0
  }

  /** hh: char, h: short, none: int, any other length modifier: 64 bits. */
  function ArgumentSize(length: string): (size: nat)
    ensures size > 0
  {
    if length == "hh" then 0x100
    else if length == "h" then 0x1_0000
    else if length == "" then 0x1_0000_0000
    else 0x1_0000_0000_0000_0000
  }

  function IntegerArgument(length: string, c: char, word: u64): int {
    if c in "di" then Signed(word, ArgumentSize(length)) else word % ArgumentSize(length)
  }

  function NumberBase(c: char): (base: nat)
    ensures 2 <= base <= 16
  {
    match c
    case 'x' => 16
    case 'X' => 16
    case 'o' => 8
    case 'b' => 2
    case _ => 10
  }

  function Numeral(v: nat, base: nat, upper: bool): string
    requires 2 <= base <= 16
  {
    var digit := (if upper then "0123456789ABCDEF" else "0123456789abcdef")[v % base];
    if v < base then [digit] else Numeral(v / base, base, upper) + [digit]
  }

  /** At least `precision` digits, and none for 0 with precision 0; '#' lets an octal number begin with a zero.  A
      negative precision is an omitted one. */
  function StandardDigits(m: nat, flags: string, c: char, precision: int): string {
    var digits := if m == 0 && precision == 0 then "" else Numeral(m, NumberBase(c), c == 'X');
    var number := Many('0', precision - |digits|) + digits;
    if '#' in flags && c == 'o' && (number == "" || number[0] != '0') then "0" + number else number
  }

  /** The sign of a signed conversion, or the prefix of a non-zero hexadecimal number with '#'. */
  function StandardLead(v: int, flags: string, c: char): string {
    if c in "di" then if v < 0 then "-" else if '+' in flags then "+" else if ' ' in flags then " " else ""
    else if '#' in flags && v != 0 && c == 'x' then "0x"
    else if '#' in flags && v != 0 && c == 'X' then "0X"
    else ""
  }

  /** Left justified with '-' or a negative width; '0' fills with zeros unless there is a precision. */
  function StandardField(lead: string, number: string, flags: string, width: int, precision: int): string {
    var fill := (if width < 0 then -width else width) - |lead| - |number|;
    if '-' in flags || width < 0 then lead + number + Many(' ', fill)
    else if '0' in flags && precision < 0 then lead + Many('0', fill) + number
    else Many(' ', fill) + lead + number
  }

  /** An integer conversion of the standard: what is printed for these arguments. */
  function StandardInteger(sp: Spelling, c: char, va: seq<Arg>): string {
    var width, va1 := Counted(sp.width, va), Behind(va, Stars(sp.width));
    var precision, va2 :=
      if sp.precision.None? then -1 else Counted(sp.precision.value, va1),
      if sp.precision.None? then va1 else Behind(va1, Stars(sp.precision.value));
    var v := IntegerArgument(sp.length, c, FirstWord(va2));
    StandardField(StandardLead(v, sp.flags, c), StandardDigits(if v < 0 then -v else v, sp.flags, c, precision),
                  sp.flags, width, precision)
  }

  // ---------- the parts ----------

  lemma FollowingIsBehind(va: seq<Arg>)
    ensures Following(va) == Behind(va, 1) && Behind(va, 0) == va
  {
  }

  lemma {:induction false} DecimalIsFold(s: string)
    requires forall k :: 0 <= k < |s| ==> IsDigit(s[k])
    ensures DecimalNumber(s) == Fold(s, 0, 10)
    decreases |s|
  {
    if s != "" {
      var init, c := s[..|s| - 1], s[|s| - 1];
      DecimalIsFold(init);
      FoldAppend(init, [c], 0, 10);
      assert s == init + [c];
      assert [c][1..] == "";
      assert Fold([c], Fold(init, 0, 10), 10) == Fold("", Fold(init, 0, 10) * 10 + DigitValue(c), 10);
    }
  }

  lemma SignedIsInt(va: seq<Arg>)
    ensures Signed(FirstWord(va), 0x1_0000_0000) == NextInt(va) && FirstWord(va) == NextWord(va)
  {
  }

  lemma CountedIsMeant(c: Count, va: seq<Arg>)
    requires c.Number? ==> AreDecimal(c.digits)
    ensures Counted(c, va) == CountMeant(c, va) && ArgsAfter(c, va) == Behind(va, Stars(c))
  {
    hide Signed, NextInt;
    SignedIsInt(va);
    FollowingIsBehind(va);
    if c.Number? {
      DecimalIsFold(c.digits);
    }
  }

  lemma NarrowIsSigned(word: u64, size: nat)
    requires size == 0x100 || size == 0x1_0000 || size == 0x1_0000_0000 || size == 0x1_0000_0000_0000_0000
    ensures Narrow(word, size) == Signed(word, size)
  {
  }

  lemma WholeWord(word: u64)
    ensures word % 0x1_0000_0000_0000_0000 == word
  {
  }

  /** The length modifier selects the size of the argument. */
  lemma ArgumentBySize(sp: Spelling, c: char, negative: bool, precision: bool, word: u64)
    requires IsSpelling(sp)
    ensures var flags := SpelledFlags(sp, negative, precision);
      IntegerArgument(sp.length, c, word)
      == if c == 'd' || c == 'i' then SignedArg(flags, word) else UnsignedArg(flags, word)
  {
    hide Narrow, Signed, IsFlag, AreDecimal;
    NarrowIsSigned(word, ArgumentSize(sp.length));
    WholeWord(word);
  }

  lemma DigitIs(d: nat, upper: bool)
    requires d < 16
    ensures Digit(d, upper) == (if upper then "0123456789ABCDEF" else "0123456789abcdef")[d]
  {
  }

  lemma SmallHasNoRest(v: nat, base: nat)
    requires base >= 2
    ensures v / base == 0 <==> v < base
  {
    QuotientAndRemainder(v, base);
    if v < base {
      DivisionIsUnique(v, base, 0, v);
    }
  }

  /** The digits in the buffer, turned around, are the numeral. */
  lemma {:induction false} DigitsAreNumeral(v: nat, base: nat, upper: bool, room: nat)
    requires 2 <= base <= 16 && room >= 1 && v < Pow(base, room)
    ensures Reverse(Digits(v, base, upper, room)) == Numeral(v, base, upper)
    decreases room
  {
    hide Pow, Digit, Reverse;
    var rest, last := Rest(v, base), Last(v, base);
    QuotientAndRemainder(v, base);
    DigitIs(last, upper);
    RestBelowPow(v, base, room);
    SmallHasNoRest(v, base);
    ReverseOne(Digit(last, upper));
    if rest > 0 {
      if room == 1 {
        PowZero(base);
      }
      DigitsAreNumeral(rest, base, upper, room - 1);
      ReverseAppend([Digit(last, upper)], Digits(rest, base, upper, room - 1));
    } else {
      assert Digits(v, base, upper, room) == [Digit(last, upper)];
    }
  }

  lemma ManyIsRepeat(c: char, n: nat)
    ensures Many(c, n) == Repeat(c, n) && |Many(c, n)| == n
  {
  }

  lemma ManyIsPad(c: char, have: nat, want: nat)
    ensures Many(c, want - have) == PadTo(c, have, want)
  {
    if have < want {
      ManyIsRepeat(c, want - have);
    }
  }

  /** What the conversion goes on with, in terms of the spelling. */
  lemma FlagsOfSpelling(sp: Spelling, c: char, width: int, precision: int)
    requires IsInteger(c) && c != 'b'
    ensures var flags := IntegerFlags(SpelledFlags(sp, width < 0, precision >= 0), c);
      && flags.left == ('-' in sp.flags || width < 0) && flags.zeropad == ('0' in sp.flags && precision < 0)
      && flags.hash == ('#' in sp.flags && (c == 'o' || c == 'x' || c == 'X')) && flags.uppercase == (c == 'X')
      && flags.plus == ('+' in sp.flags && (c == 'd' || c == 'i'))
      && flags.space == (' ' in sp.flags && (c == 'd' || c == 'i')) && flags.precision == (precision >= 0)
    ensures BaseOf(c) == NumberBase(c) == if c == 'x' || c == 'X' then 16 else if c == 'o' then 8 else 10
  {
  }

  lemma FitsBufferOf(m: u64, base: nat)
    requires base == 8 || base == 10 || base == 16
    ensures m < Pow(base, NTOA_BUFFER_SIZE)
  {
    PowMonotone(8, base, NTOA_BUFFER_SIZE);
    PowEight();
  }

  lemma StartIsNumeral(m: u64, c: char, flags: Flags)
    requires IsInteger(c) && c != 'b' && flags.uppercase == (c == 'X')
    ensures Reverse(StartDigits(m, NumberBase(c), flags))
         == if flags.precision && m == 0 then "" else Numeral(m, NumberBase(c), c == 'X')
  {
    hide Digits, Numeral, Pow;
    FitsBufferOf(m, NumberBase(c));
    DigitsAreNumeral(m, NumberBase(c), c == 'X', NTOA_BUFFER_SIZE);
    ReverseNothing();
  }

  lemma NumeralOfZero(base: nat, upper: bool)
    requires 2 <= base <= 16
    ensures Numeral(0, base, upper) == "0"
  {
  }

  lemma NothingNegative(n: int)
    ensures n <= 0 ==> Many('0', n) == ""
  {
  }

  lemma ZerosForZero(n: nat)
    requires n > 0
    ensures Many('0', n - 1) + "0" == Many('0', n)
  {
  }

  lemma DigitsAreStandard(m: u64, fs: string, c: char, precision: int, flags: Flags)
    requires IsInteger(c) && c != 'b' && flags.uppercase == (c == 'X') && flags.precision == (precision >= 0)
    requires flags.hash == ('#' in fs && (c == 'o' || c == 'x' || c == 'X'))
    ensures StandardDigits(m, fs, c, precision) == IsoNumber(m, NumberBase(c), Max(precision, 0), flags)
  {
    hide StartDigits, Reverse, Many, PadTo, Numeral;
    var base := NumberBase(c);
    var text := Reverse(StartDigits(m, base, flags));
    StartIsNumeral(m, c, flags);
    NumeralOfZero(base, c == 'X');
    ManyIsPad('0', |text|, Max(precision, 0));
    if m == 0 && precision > 0 {
      ZerosForZero(precision);
      ManyIsPad('0', 0, precision);
      assert PadTo('0', 0, precision) + "" == PadTo('0', 0, precision);
    }
    NothingNegative(precision - |text|);
    NothingNegative(Max(precision, 0) - |text|);
  }

  lemma LeadIsStandard(v: int, fs: string, c: char, flags: Flags)
    requires IsInteger(c) && c != 'b' && flags.uppercase == (c == 'X') && (v < 0 ==> c == 'd' || c == 'i')
    requires flags.hash == ('#' in fs && (c == 'o' || c == 'x' || c == 'X'))
    requires flags.plus == ('+' in fs && (c == 'd' || c == 'i'))
    requires flags.space == (' ' in fs && (c == 'd' || c == 'i'))
    ensures StandardLead(v, fs, c)
         == SignText(v < 0, flags) + IsoPrefix(if v < 0 then -v else v, NumberBase(c), flags)
  {
    var sign, prefix := SignText(v < 0, flags), IsoPrefix(if v < 0 then -v else v, NumberBase(c), flags);
    assert sign + "" == sign && "" + prefix == prefix;
  }

  lemma FieldIsStandard(lead: string, number: string, fs: string, width: int, precision: int, flags: Flags)
    requires flags.left == ('-' in fs || width < 0) && flags.zeropad == ('0' in fs && precision < 0)
    ensures StandardField(lead, number, fs, width, precision)
         == Layout(lead, number, if width < 0 then -width else width, flags)
  {
    hide Many, PadTo;
    var w := if width < 0 then -width else width;
    ManyIsPad(' ', |lead| + |number|, w);
    ManyIsPad('0', |lead| + |number|, w);
    assert w - |lead| - |number| == w - (|lead| + |number|);
  }

  lemma OmittedIsZero(va: seq<Arg>)
    ensures CountMeant(Omitted, va) == 0 && ArgsAfter(Omitted, va) == va && Behind(va, 0) == va
  {
  }

  /** The text that `IsoConversion` asks for, from the meaning of the spelling, is the standard's. */
  lemma IsoIsStandard(sp: Spelling, c: char, va: seq<Arg>)
    requires IsSpelling(sp) && IsInteger(c) && c != 'b'
    ensures IsoConversion(Meaning(sp, va), c) == StandardInteger(sp, c, va)
  {
    hide IsFlag, AreDecimal, SpelledFlags, Signed, SignedArg, UnsignedArg, IntegerFlags, Counted, CountMeant, Layout,
         StandardField, StandardLead, StandardDigits, IsoNumber, IsoPrefix, SignText, BaseOf, NumberBase,
         IntegerArgument;
    var width, va1 := CountMeant(sp.width, va), ArgsAfter(sp.width, va);
    var p := if sp.precision.Some? then CountMeant(sp.precision.value, va1) else -1;
    CountedIsMeant(sp.width, va);
    CountedIsMeant(PrecisionCount(sp), va1);
    var m := Meaning(sp, va);
    assert m.flags == SpelledFlags(sp, width < 0, p >= 0);
    SignedIsInt(m.va);
    ArgumentBySize(sp, c, width < 0, p >= 0, NextWord(m.va));
    ArgumentIsWord(m, c);
    FlagsOfSpelling(sp, c, width, p);
    var flags, v := IntegerFlags(m.flags, c), Argument(m, c);
    DigitsAreStandard(Magnitude(v), sp.flags, c, p, flags);
    LeadIsStandard(v, sp.flags, c, flags);
    FieldIsStandard(StandardLead(v, sp.flags, c), StandardDigits(Magnitude(v), sp.flags, c, p), sp.flags, width, p,
                    flags);
    assert m.precision == Max(p, 0) by {
      OmittedIsZero(va1);
    }
    IsoConversionOf(m, c);
  }

  lemma SpellingStands(fmt: CString, i: nat, sp: Spelling)
    requires Stands(fmt, i, sp)
    ensures IsSpelling(sp)
  {
  }

  /** Wherever an integer conversion of the standard is spelled out in a format, its text is the standard's exactly
      under
      this condition. */
  lemma PrintedIsStandard(fmt: CString, i: nat, sp: Spelling, va: seq<Arg>, c: char)
    requires Stands(fmt, i, sp) && fmt[i + |SpellingText(sp)|] == c && IsInteger(c) && c != 'b'
    ensures IntegerText(ParseSpec(fmt, i, va), c) == StandardInteger(sp, c, va) <==> PrintsStandard(sp, va, c)
  {
    hide ParseSpec, IntegerText, StandardInteger, PrintsStandard, IsoConversion, SpellingText, IsInteger;
    SpelledConversionIsIso(fmt, i, sp, va, c);
    SpellingStands(fmt, i, sp);
    IsoIsStandard(sp, c, va);
  }

  // ---------- the other conversions ----------

  /** Filled up with spaces, on the right with '-' or a negative width. */
  function StandardJustified(text: string, flags: string, width: int): string {
    var fill := (if width < 0 then -width else width) - |text|;
    if '-' in flags || width < 0 then text + Many(' ', fill) else Many(' ', fill) + text
  }

  /** The arguments behind those of width and precision. */
  function BehindCounts(sp: Spelling, va: seq<Arg>): seq<Arg> {
    var va1 := Behind(va, Stars(sp.width));
    if sp.precision.None? then va1 else Behind(va1, Stars(sp.precision.value))
  }

  /** The argument as an unsigned char. */
  function StandardChar(sp: Spelling, va: seq<Arg>): string {
    StandardJustified([(FirstWord(BehindCounts(sp, va)) % 0x100) as char], sp.flags, Counted(sp.width, va))
  }

  /** The string, or as many characters of it as a precision that is not negative says. */
  function StandardString(sp: Spelling, va: seq<Arg>): string {
    var left := BehindCounts(sp, va);
    var text := if left != [] && left[0].Text? then left[0].chars else "";
    var precision :=
      if sp.precision.None? then -1 else Counted(sp.precision.value, Behind(va, Stars(sp.width)));
    StandardJustified(if 0 <= precision < |text| then text[..precision] else text, sp.flags, Counted(sp.width, va))
  }

  lemma FieldIsJustified(text: string, flags: Flags, fs: string, width: int)
    requires flags.left == ('-' in fs || width < 0)
    ensures Field(text, if width < 0 then -width else width, flags) == StandardJustified(text, fs, width)
  {
    hide Many, PadTo;
    ManyIsPad(' ', |text|, if width < 0 then -width else width);
  }

  lemma CountsAreMeant(sp: Spelling, va: seq<Arg>)
    requires IsSpelling(sp)
    ensures Meaning(sp, va).va == BehindCounts(sp, va) && Counted(sp.width, va) == CountMeant(sp.width, va)
    ensures var rest := ArgsAfter(sp.width, va);
      rest == Behind(va, Stars(sp.width)) && Counted(PrecisionCount(sp), rest) == CountMeant(PrecisionCount(sp), rest)
  {
    hide IsFlag, AreDecimal, Counted, CountMeant, SpelledFlags;
    CountedIsMeant(sp.width, va);
    CountedIsMeant(PrecisionCount(sp), ArgsAfter(sp.width, va));
    FollowingIsBehind(ArgsAfter(sp.width, va));
  }

  /** With counts that fit, what is parsed and what is meant differ in a negative precision only. */
  lemma ParsedIsMeant(sp: Spelling, va: seq<Arg>)
    requires IsSpelling(sp) && CountsFit(sp)
    ensures var s, m := Parsed(sp, 0, va), Meaning(sp, va);
      s.va == m.va && s.width == m.width && s.flags.left == m.flags.left
      && (!NegativePrecision(sp, va) ==> MeantBy(s) == m)
  {
    hide IsFlag, AreDecimal, Fold, NextInt;
  }

  lemma CharIsStandard(sp: Spelling, va: seq<Arg>)
    requires IsSpelling(sp) && CountsFit(sp)
    ensures ConversionOf('c', Parsed(sp, 0, va)) == StandardChar(sp, va)
  {
    hide IsSpelling, CountsFit, Parsed, Field, StandardJustified, Counted, CountMeant, BehindCounts;
    ParsedIsMeant(sp, va);
    CountsAreMeant(sp, va);
    SignedIsInt(BehindCounts(sp, va));
    var s := Parsed(sp, 0, va);
    FieldIsJustified([(NextWord(s.va) % 0x100) as char], s.flags, sp.flags, Counted(sp.width, va));
  }

  lemma StringIsStandard(sp: Spelling, va: seq<Arg>)
    requires IsSpelling(sp) && CountsFit(sp) && !NegativePrecision(sp, va)
    ensures ConversionOf('s', Parsed(sp, 0, va)) == StandardString(sp, va)
  {
    hide IsSpelling, CountsFit, Parsed, Field, StandardJustified, Counted, CountMeant, BehindCounts, NegativePrecision;
    ParsedIsMeant(sp, va);
    CountsAreMeant(sp, va);
    OmittedIsZero(ArgsAfter(sp.width, va));
    var s := Parsed(sp, 0, va);
    FieldIsJustified(StringPart(s), s.flags, sp.flags, Counted(sp.width, va));
  }

  lemma PlainPointer(v: u64, flags: Flags)
    requires flags == PointerFlags(NO_FLAGS) && Reverse(StartDigits(v, 16, flags)) == Numeral(v, 16, true)
    ensures PlainText(v, false, 16, 0, 16, flags)
         == Many('0', 16 - |Numeral(v, 16, true)|) + Numeral(v, 16, true)
  {
    hide Numeral, StartDigits, Reverse, Many, PadTo;
    var digits := Numeral(v, 16, true);
    ManyIsPad('0', |digits|, 16);
    ManyIsPad('0', |digits|, 0);
    NothingNegative(0 - |digits|);
    assert "" + digits == digits && "" + Many('0', 16 - |digits|) + digits == Many('0', 16 - |digits|) + digits;
  }

  /** `%p` prints 16 upper-case hexadecimal digits. */
  lemma PointerText(va: seq<Arg>)
    ensures var digits := Numeral(FirstWord(va), 16, true);
      ConversionOf('p', Parsed(Spelling("", Omitted, None, ""), 0, va)) == Many('0', 16 - |digits|) + digits
  {
    hide Numeral, NumberText, PlainText, StartDigits, Reverse, Many;
    var flags, v := PointerFlags(NO_FLAGS), FirstWord(va);
    SignedIsInt(va);
    FollowingIsBehind(va);
    StartIsNumeral(v, 'X', flags);
    NumberTextIsPlain(v, false, 16, 0, 16, flags);
    DigitCounts(v, 16, flags);
    PlainPointer(v, flags);
  }

  lemma PlainBinary(v: nat)
    ensures PlainText(v, false, 2, 0, 0, NO_FLAGS) == Reverse(Digits(v, 2, false, NTOA_BUFFER_SIZE))
  {
    hide Reverse, Digits;
    var digits := Reverse(Digits(v, 2, false, NTOA_BUFFER_SIZE));
    assert "" + digits == digits && "" + "" + digits == digits;
  }

  /** `%b`, which the standard does not have, prints the binary digits of an int. */
  lemma BinaryText(va: seq<Arg>)
    ensures ConversionOf('b', Parsed(Spelling("", Omitted, None, ""), 0, va))
         == Numeral(FirstWord(va) % 0x1_0000_0000, 2, false)
  {
    hide Numeral, NumberText, PlainText, StartDigits, Reverse, Digits, Pow;
    var v := FirstWord(va) % 0x1_0000_0000;
    SignedIsInt(va);
    BufferHolds(v, 2);
    DigitsAreNumeral(v, 2, false, NTOA_BUFFER_SIZE);
    NumberTextIsPlain(v, false, 2, 0, 0, NO_FLAGS);
    PlainBinary(v);
  }

  /** Any other character, '%' among them, prints itself. */
  lemma OtherText(sp: Spelling, c: char, va: seq<Arg>)
    requires c !in "diuxXobcsp"
    ensures ConversionOf(c, Parsed(sp, 0, va)) == [c]
  {
  }
}

/** Formats of any number of pieces. */
module WholeFormats {
  import opened Words
  import opened PrintkText
  import opened Formats
  import opened Standard

  /** A format is put together from literal text and spelled-out conversions; `%%` is the conversion '%'. */
  datatype Piece = Literal(text: string) | Conversion(sp: Spelling, c: char)

  predicate IsPiece(p: Piece) {
    match p
    case Literal(text) => '%' !in text && '\0' !in text
    case Conversion(sp, c) => IsSpelling(sp) && EndsSpecification(c) && c != '\0'
  }

  predicate ArePieces(ps: seq<Piece>) {
    forall k :: 0 <= k < |ps| ==> IsPiece(ps[k])
  }

  function PieceText(p: Piece): string {
    match p
    case Literal(text) => text
    case Conversion(sp, c) => "%" + SpellingText(sp) + [c]
  }

  function FormatText(ps: seq<Piece>): string {
    if ps == [] then "" else PieceText(ps[0]) + FormatText(ps[1..])
  }

  /** Arguments that a conversion takes: one for each '*', and one for itself unless it only prints its character. */
  function ArgumentCount(sp: Spelling, c: char): nat {
    Stars(sp.width) + (if sp.precision.Some? then Stars(sp.precision.value) else 0) + if c in "diuxXobcsp" then 1 else 0
  }

  /** The text of each piece, printed from the arguments that the pieces before it have left. */
  function Output(ps: seq<Piece>, va: seq<Arg>): string {
    if ps == [] then ""
    else
      match ps[0]
      case Literal(text) => text + Output(ps[1..], va)
      case Conversion(sp, c) =>
        ConversionOf(c, Parsed(sp, 0, va)) + Output(ps[1..], Behind(va, ArgumentCount(sp, c)))
  }

  lemma BehindTwice(va: seq<Arg>, m: nat, n: nat)
    ensures Behind(Behind(va, m), n) == Behind(va, m + n)
  {
  }

  /** What a conversion leaves behind, in the parser's terms. */
  lemma ArgumentsTaken(fmt: CString, sp: Spelling, at: nat, va: seq<Arg>)
    requires at < |fmt| && IsSpelling(sp)
    ensures ArgsBehind(fmt, Parsed(sp, at, va)) == Behind(va, ArgumentCount(sp, fmt[at]))
  {
    hide IsSpelling, SpelledFlags, CountValue, Behind;
    var s := Parsed(sp, at, va);
    var w, p := Stars(sp.width), if sp.precision.Some? then Stars(sp.precision.value) else 0;
    FollowingIsBehind(va);
    FollowingIsBehind(Behind(va, w));
    FollowingIsBehind(s.va);
    BehindTwice(va, w, p);
    BehindTwice(va, w + p, 1);
    BehindTwice(va, w, 0);
    assert s.va == Behind(va, w + p);
  }

  lemma SameConversion(sp: Spelling, c: char, at: nat, va: seq<Arg>)
    ensures ConversionOf(c, Parsed(sp, at, va)) == ConversionOf(c, Parsed(sp, 0, va))
  {
    hide NumberText, Narrow, SpelledFlags;
  }

  /** From position i on the format prints this text. */
  ghost predicate PrintsFrom(fmt: CString, i: nat, va: seq<Arg>, text: string) {
    i <= |fmt| && Complete(fmt, i, va) && Render(fmt, i, va) == text
  }

  lemma CharacterIsCopied(fmt: CString, i: nat, va: seq<Arg>, text: string)
    requires i < |fmt| && fmt[i] != '%' && PrintsFrom(fmt, i + 1, va, text)
    ensures PrintsFrom(fmt, i, va, [fmt[i]] + text)
  {
    hide ParseSpec, ConversionText, ArgsBehind;
  }

  lemma SpecificationIsPrinted(fmt: CString, i: nat, va: seq<Arg>, s: Spec, text: string)
    requires i < |fmt| && fmt[i] == '%' && s == ParseSpec(fmt, i + 1, va) && s.at < |fmt|
    requires PrintsFrom(fmt, s.at + 1, ArgsBehind(fmt, s), text)
    ensures PrintsFrom(fmt, i, va, ConversionText(fmt, s) + text)
  {
    hide ParseSpec, ConversionText, ArgsBehind;
  }

  /** Literal text is copied. */
  lemma {:induction false} LiteralIsCopied(fmt: CString, i: nat, text: string, va: seq<Arg>, rest: string)
    requires i + |text| <= |fmt| && fmt[i..i + |text|] == text && '%' !in text
    requires PrintsFrom(fmt, i + |text|, va, rest)
    ensures PrintsFrom(fmt, i, va, text + rest)
    decreases |text|
  {
    hide PrintsFrom;
    if text == "" {
      assert text + rest == rest;
    } else {
      assert fmt[i] == fmt[i..i + |text|][0] == text[0];
      assert fmt[i + 1..i + 1 + |text[1..]|] == text[1..];
      LiteralIsCopied(fmt, i + 1, text[1..], va, rest);
      CharacterIsCopied(fmt, i, va, text[1..] + rest);
      assert [text[0]] + (text[1..] + rest) == text + rest;
    }
  }

  lemma LiteralStands(fmt: CString, i: nat, text: string, rest: string)
    requires i <= |fmt| && fmt[i..] == text + rest
    ensures i + |text| <= |fmt| && fmt[i..i + |text|] == text && fmt[i + |text|..] == rest
  {
    assert fmt[i..i + |text|] == fmt[i..][..|text|] && fmt[i + |text|..] == fmt[i..][|text|..];
  }

  lemma NoPieces(va: seq<Arg>)
    ensures FormatText([]) == "" && Output([], va) == ""
  {
  }

  lemma FirstIsLiteral(ps: seq<Piece>, text: string, va: seq<Arg>)
    requires ArePieces(ps) && ps != [] && ps[0] == Literal(text)
    ensures ArePieces(ps[1..]) && '%' !in text
    ensures FormatText(ps) == text + FormatText(ps[1..]) && Output(ps, va) == text + Output(ps[1..], va)
  {
    hide SpellingText, IsSpelling;
  }

  lemma FirstIsConversion(ps: seq<Piece>, sp: Spelling, c: char, va: seq<Arg>)
    requires ArePieces(ps) && ps != [] && ps[0] == Conversion(sp, c)
    ensures ArePieces(ps[1..]) && IsPiece(Conversion(sp, c))
    ensures FormatText(ps) == "%" + SpellingText(sp) + [c] + FormatText(ps[1..])
    ensures Output(ps, va)
         == ConversionOf(c, Parsed(sp, 0, va)) + Output(ps[1..], Behind(va, ArgumentCount(sp, c)))
  {
    hide SpellingText, IsSpelling, ConversionOf, Parsed, Behind, ArgumentCount;
  }

  lemma ConversionStands(fmt: CString, i: nat, sp: Spelling, c: char, rest: string)
    requires IsPiece(Conversion(sp, c)) && i <= |fmt| && fmt[i..] == "%" + SpellingText(sp) + [c] + rest
    ensures var at := i + 1 + |SpellingText(sp)|;
      && at < |fmt| && fmt[i] == '%' && Stands(fmt, i + 1, sp) && fmt[at] == c && fmt[at + 1..] == rest
  {
    hide IsSpelling, SpellingText, EndsSpecification;
    var t, n := fmt[i..], |SpellingText(sp)|;
    assert t[0] == '%' && t[1..1 + n] == SpellingText(sp) && t[1 + n] == c && t[n + 2..] == rest;
    assert fmt[i + 1..i + 1 + n] == t[1..1 + n];
    assert fmt[i + 1 + n] == t[1 + n];
    assert fmt[i + 2 + n..] == t[n + 2..];
  }

  lemma SpellingOfPiece(sp: Spelling, c: char)
    requires IsPiece(Conversion(sp, c))
    ensures IsSpelling(sp)
  {
  }

  lemma ParsedPlace(sp: Spelling, at: nat, va: seq<Arg>)
    ensures Parsed(sp, at, va).at == at
  {
  }

  /** One conversion prints its text and hands on what it leaves of the arguments. */
  lemma ConversionIsPrinted(fmt: CString, i: nat, sp: Spelling, c: char, rest: string, va: seq<Arg>, text: string)
    requires IsPiece(Conversion(sp, c)) && i <= |fmt| && fmt[i..] == "%" + SpellingText(sp) + [c] + rest
    requires PrintsFrom(fmt, i + 2 + |SpellingText(sp)|, Behind(va, ArgumentCount(sp, c)), text)
    ensures PrintsFrom(fmt, i, va, ConversionOf(c, Parsed(sp, 0, va)) + text)
  {
    hide IsSpelling, SpellingText, EndsSpecification, ParseSpec, ConversionOf, ArgsBehind, Parsed, Behind,
         ArgumentCount,
         PrintsFrom, Stands;
    var at := i + 1 + |SpellingText(sp)|;
    ConversionStands(fmt, i, sp, c, rest);
    SpellingReadsBack(fmt, i + 1, sp, va);
    ParsedPlace(sp, at, va);
    SpellingOfPiece(sp, c);
    ArgumentsTaken(fmt, sp, at, va);
    SameConversion(sp, c, at, va);
    SpecificationIsPrinted(fmt, i, va, Parsed(sp, at, va), text);
  }

  lemma NothingLeft(fmt: CString, va: seq<Arg>)
    ensures PrintsFrom(fmt, |fmt|, va, "")
  {
  }

  lemma {:induction false} PiecesArePrinted(fmt: CString, i: nat, ps: seq<Piece>, va: seq<Arg>)
    requires ArePieces(ps) && i <= |fmt| && fmt[i..] == FormatText(ps)
    ensures PrintsFrom(fmt, i, va, Output(ps, va))
    decreases |ps|
  {
    hide SpellingText, ConversionOf, Parsed, Behind, ArgumentCount, PrintsFrom, ArePieces, FormatText, Output, IsPiece;
    if ps == [] {
      NoPieces(va);
      NothingLeft(fmt, va);
    } else {
      var rest := FormatText(ps[1..]);
      match ps[0] {
        case Literal(text) =>
          FirstIsLiteral(ps, text, va);
          LiteralStands(fmt, i, text, rest);
          PiecesArePrinted(fmt, i + |text|, ps[1..], va);
          LiteralIsCopied(fmt, i, text, va, Output(ps[1..], va));
        case Conversion(sp, c) =>
          FirstIsConversion(ps, sp, c, va);
          ConversionStands(fmt, i, sp, c, rest);
          var left := Behind(va, ArgumentCount(sp, c));
          PiecesArePrinted(fmt, i + 2 + |SpellingText(sp)|, ps[1..], left);
          ConversionIsPrinted(fmt, i, sp, c, rest, va, Output(ps[1..], left));
      }
    }
  }

  lemma SpellingHasNoNul(sp: Spelling)
    requires IsSpelling(sp)
    ensures '\0' !in SpellingText(sp)
  {
    assert forall c :: IsFlag(c) || IsDigit(c) ==> c != '\0';
  }

  lemma {:induction false} FormatIsString(ps: seq<Piece>)
    requires ArePieces(ps)
    ensures '\0' !in FormatText(ps)
  {
    hide IsSpelling, SpellingText, EndsSpecification;
    if ps != [] {
      assert ArePieces(ps[1..]);
      FormatIsString(ps[1..]);
      if ps[0].Conversion? {
        SpellingHasNoNul(ps[0].sp);
      }
    }
  }

  /** The output of a format is the text of its pieces, one after the other; each conversion prints the arguments that
      the conversions before it and their '*' have left. */
  lemma FormatPrintsItsPieces(ps: seq<Piece>, va: seq<Arg>)
    requires ArePieces(ps)
    ensures '\0' !in FormatText(ps)
    ensures Complete(FormatText(ps), 0, va) && Render(FormatText(ps), 0, va) == Output(ps, va)
  {
    FormatIsString(ps);
    var fmt: CString := FormatText(ps);
    assert fmt[0..] == fmt;
    PiecesArePrinted(fmt, 0, ps, va);
  }

  // ---------- whole formats and the standard ----------

  function StandardText(sp: Spelling, c: char, va: seq<Arg>): string {
    if c in "diuxXo" then StandardInteger(sp, c, va)
    else if c == 's' then StandardString(sp, va)
    else if c == 'c' then StandardChar(sp, va)
    else [c]
  }

  function StandardOutput(ps: seq<Piece>, va: seq<Arg>): string {
    if ps == [] then ""
    else
      match ps[0]
      case Literal(text) => text + StandardOutput(ps[1..], va)
      case Conversion(sp, c) => StandardText(sp, c, va) + StandardOutput(ps[1..], Behind(va, ArgumentCount(sp, c)))
  }

  /** A conversion of the standard, but for 'p', that prints what it should. */
  predicate MeetsStandardText(sp: Spelling, c: char, va: seq<Arg>) {
    if c in "diuxXo" then PrintsStandard(sp, va, c)
    else if c == 's' then CountsFit(sp) && !NegativePrecision(sp, va)
    else if c == 'c' then CountsFit(sp)
    else c == '%'
  }

  predicate AllMeetStandard(ps: seq<Piece>, va: seq<Arg>) {
    ps == [] ||
    match ps[0]
    case Literal(_) => AllMeetStandard(ps[1..], va)
    case Conversion(sp, c) =>
      MeetsStandardText(sp, c, va) && AllMeetStandard(ps[1..], Behind(va, ArgumentCount(sp, c)))
  }

  /** A format that is nothing but this conversion. */
  lemma AloneInFormat(sp: Spelling, c: char) returns (fmt: CString)
    requires IsPiece(Conversion(sp, c))
    ensures Stands(fmt, 1, sp) && fmt[1 + |SpellingText(sp)|] == c
  {
    hide IsSpelling, SpellingText, EndsSpecification;
    SpellingHasNoNul(sp);
    fmt := "%" + SpellingText(sp) + [c];
    assert fmt[0..] == "%" + SpellingText(sp) + [c] + "";
    ConversionStands(fmt, 0, sp, c, "");
  }

  lemma TextIsStandard(sp: Spelling, c: char, va: seq<Arg>)
    requires IsPiece(Conversion(sp, c)) && MeetsStandardText(sp, c, va)
    ensures ConversionOf(c, Parsed(sp, 0, va)) == StandardText(sp, c, va)
  {
    hide IsSpelling, SpellingText, EndsSpecification, ParseSpec, Parsed, IntegerText, StandardInteger, StandardString,
         StandardChar, PrintsStandard, CountsFit, NegativePrecision, StringPart, Field, NumberText, Stands;
    SpellingOfPiece(sp, c);
    if c in "diuxXo" {
      var fmt := AloneInFormat(sp, c);
      PrintedIsStandard(fmt, 1, sp, va, c);
      SpellingReadsBack(fmt, 1, sp, va);
      SameConversion(sp, c, 1 + |SpellingText(sp)|, va);
    } else if c == 's' {
      StringIsStandard(sp, va);
    } else if c == 'c' {
      CharIsStandard(sp, va);
    }
  }

  lemma {:induction false} PiecesAreStandard(ps: seq<Piece>, va: seq<Arg>)
    requires ArePieces(ps) && AllMeetStandard(ps, va)
    ensures Output(ps, va) == StandardOutput(ps, va)
    decreases |ps|
  {
    hide IsPiece, MeetsStandardText, StandardText, ConversionOf, Parsed, Behind, ArgumentCount;
    if ps != [] {
      assert ArePieces(ps[1..]);
      match ps[0] {
        case Literal(_) => PiecesAreStandard(ps[1..], va);
        case Conversion(sp, c) =>
          TextIsStandard(sp, c, va);
          PiecesAreStandard(ps[1..], Behind(va, ArgumentCount(sp, c)));
      }
    }
  }

  /** A whole format prints what the standard asks for when each of its conversions does, on the arguments it finds. */
  lemma FormatMeetsStandard(ps: seq<Piece>, va: seq<Arg>)
    requires ArePieces(ps) && AllMeetStandard(ps, va)
    ensures '\0' !in FormatText(ps)
    ensures Complete(FormatText(ps), 0, va) && Render(FormatText(ps), 0, va) == StandardOutput(ps, va)
  {
    hide ArePieces, AllMeetStandard, Render, Complete, Output, StandardOutput, FormatText;
    FormatPrintsItsPieces(ps, va);
    PiecesAreStandard(ps, va);
  }
}
