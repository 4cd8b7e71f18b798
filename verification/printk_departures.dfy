/** Where the kernel printf departs from the standard, at one input each (kernel/src/printk/printk.c). */
module Departures {
  import opened Words
  import opened Division
  import opened PrintkText
  import opened AlternativeForm
  import opened Formats

  /** This format of one conversion prints `printed` for these arguments, where the standard asks for `asked`. */
  ghost predicate Prints(fmt: CString, sp: Spelling, c: char, va: seq<Arg>, printed: string, asked: string) {
    && IsSpelling(sp) && fmt == "%" + SpellingText(sp) + [c]
    && Complete(fmt, 0, va) && Render(fmt, 0, va) == printed
    && IsoConversion(Meaning(sp, va), c) == asked
  }

  lemma ParsedAt(sp: Spelling, at: nat, va: seq<Arg>)
    ensures Parsed(sp, at, va).at == at
  {
  }

  /** A format that is one conversion. */
  lemma OneConversion(fmt: CString, sp: Spelling, c: char, va: seq<Arg>)
    requires IsSpelling(sp) && EndsSpecification(c) && fmt == "%" + SpellingText(sp) + [c]
    ensures var s := Parsed(sp, |fmt| - 1, va);
      s.at < |fmt| && fmt[s.at] == c && Complete(fmt, 0, va) && Render(fmt, 0, va) == ConversionText(fmt, s)
  {
    hide ConversionText, ArgsBehind, ParseSpec, IsSpelling, EndsSpecification, SpellingText, Parsed;
    var s := Parsed(sp, |fmt| - 1, va);
    assert fmt[1..1 + |SpellingText(sp)|] == SpellingText(sp);
    SpellingReadsBack(fmt, 1, sp, va);
    ParsedAt(sp, |fmt| - 1, va);
    assert Complete(fmt, s.at + 1, ArgsBehind(fmt, s)) && Render(fmt, s.at + 1, ArgsBehind(fmt, s)) == "";
    assert ConversionText(fmt, s) + "" == ConversionText(fmt, s);
  }

  /** A format that is one integer conversion. */
  lemma OneInteger(fmt: CString, sp: Spelling, c: char, va: seq<Arg>, s: Spec, m: Meant)
    requires IsSpelling(sp) && IsInteger(c) && fmt == "%" + SpellingText(sp) + [c]
    requires s == Parsed(sp, |fmt| - 1, va) && m == Meaning(sp, va)
    ensures Prints(fmt, sp, c, va, IntegerText(s, c), IsoConversion(m, c))
  {
    hide Parsed, Meaning, SpellingText, IsSpelling, IntegerText, Complete, Render, Field;
    OneConversion(fmt, sp, c, va);
  }

  /** The specification of a decimal width or precision of one or two digits. */
  lemma DecimalValue(s: string)
    requires |s| == 1 || |s| == 2
    ensures Fold(s, 0, 10) == if |s| == 1 then DigitValue(s[0]) else DigitValue(s[0]) * 10 + DigitValue(s[1])
  {
    hide DigitValue;
    if |s| == 1 {
      assert s[1..] == "";
    } else {
      assert s[1..] == [s[1]] && s[1..][1..] == "";
      assert Fold(s, 0, 10) == Fold(s[1..], DigitValue(s[0]), 10);
      assert Fold(s[1..], DigitValue(s[0]), 10) == Fold("", DigitValue(s[0]) * 10 + DigitValue(s[1]), 10);
    }
  }

  lemma ReverseTwo(a: char, b: char)
    ensures Reverse([a, b]) == [b, a]
  {
    ReverseOne(a);
    ReverseOne(b);
    assert [a, b] == [a] + [b];
    ReverseAppend([a], [b]);
  }

  lemma DigitsStep(value: nat, base: nat, room: nat)
    requires 2 <= base <= 16 && room >= 1
    ensures Digits(value, base, false, room)
         == [Digit(value % base, false)]
            + if value / base > 0 && room > 1 then Digits(value / base, base, false, room - 1) else ""
  {
    hide Digit;
  }

  lemma NextDigit(value: nat, base: nat, room: nat, digit: nat, rest: nat)
    requires 2 <= base <= 16 && room >= 1 && digit < base && value == rest * base + digit
    ensures Digits(value, base, false, room)
         == [Digit(digit, false)] + if rest > 0 && room > 1 then Digits(rest, base, false, room - 1) else ""
  {
    hide Digit, Digits;
    DivisionIsUnique(value, base, rest, digit);
    DigitsStep(value, base, room);
  }

  // ---------- '-' and a precision ----------

  lemma FiveWithThreePlaces(flags: Flags)
    requires flags == NO_FLAGS.(left := true, precision := true)
    ensures NumberText(5, false, 10, 3, 0, flags) == "5" && IsoText(5, false, 10, 3, 0, flags) == "005"
  {
    hide Reverse, Digits;
    NextDigit(5, 10, NTOA_BUFFER_SIZE, 5, 0);
    assert StartDigits(5, 10, flags) == "5";
    ReverseOne('5');
    LeftJustifiedText(5, false, 10, 3, 0, flags);
    IsoIsPlain(5, false, 10, 3, 0, flags);
    assert PadTo('0', 1, 3) == "00";
  }

  lemma MinusDropsTheZerosParsed(sp: Spelling, va: seq<Arg>)
    requires sp == Spelling("-", Omitted, Some(Number("3")), "") && va == [Word(5)]
    ensures IsSpelling(sp) && SpellingText(sp) == "-.3"
    ensures Parsed(sp, 4, va) == Spec(NO_FLAGS.(left := true, precision := true), 0, 3, 4, [Word(5)])
    ensures Meaning(sp, va) == Meant(NO_FLAGS.(left := true, precision := true), 0, 3, [Word(5)])
  {
    hide Fold, NextInt;
    DecimalValue("3");
  }

  /** `%-.3d` of 5 prints "5", where the standard asks for "005". */
  lemma MinusDropsTheZeros()
    ensures Prints("%-.3d", Spelling("-", Omitted, Some(Number("3")), ""), 'd', [Word(5)],
                   "5", "005")
  {
    hide NumberText, IsoText, Render, Complete, Fold, Repeat, Prints, SpellingText, IsSpelling, Parsed, Meaning;
    var sp, va: seq<Arg> := Spelling("-", Omitted, Some(Number("3")), ""), [Word(5)];
    var s: Spec, m: Meant := Spec(NO_FLAGS.(left := true, precision := true), 0, 3, 4, [Word(5)]),
      Meant(NO_FLAGS.(left := true, precision := true), 0, 3, [Word(5)]);
    MinusDropsTheZerosParsed(sp, va);
    OneInteger("%-.3d", sp, 'd', va, s, m);
    FiveWithThreePlaces(s.flags);
  }

  // ---------- zeros up to the end of the buffer ----------

  lemma OneWith32Places(flags: Flags)
    requires flags == NO_FLAGS.(precision := true)
    ensures NumberText(1, true, 10, 32, 0, flags) == Repeat('0', 31) + "1"
    ensures IsoText(1, true, 10, 32, 0, flags) == "-" + (Repeat('0', 31) + "1")
  {
    hide Reverse, Digits, NumberText, Repeat;
    NextDigit(1, 10, NTOA_BUFFER_SIZE, 1, 0);
    assert StartDigits(1, 10, flags) == "1";
    ReverseOne('1');
    FullBufferText(1, true, 10, 32, 0, flags);
    IsoIsPlain(1, true, 10, 32, 0, flags);
    assert "" + (Repeat('0', 31) + "1") == Repeat('0', 31) + "1";
    assert "" + "-" + (Repeat('0', 31) + "1") == "-" + (Repeat('0', 31) + "1");
  }

  lemma ZerosPushTheSignOutParsed(sp: Spelling, va: seq<Arg>)
    requires sp == Spelling("", Omitted, Some(Number("32")), "") && va == [Word(0xFFFF_FFFF)]
    ensures IsSpelling(sp) && SpellingText(sp) == ".32"
    ensures Parsed(sp, 4, va) == Spec(NO_FLAGS.(precision := true), 0, 32, 4, [Word(0xFFFF_FFFF)])
    ensures Meaning(sp, va) == Meant(NO_FLAGS.(precision := true), 0, 32, [Word(0xFFFF_FFFF)])
  {
    hide Fold, NextInt;
    DecimalValue("32");
  }

  /** `%.32d` of -1 prints 31 zeros and a 1, without the sign. */
  lemma ZerosPushTheSignOut()
    ensures Prints("%.32d", Spelling("", Omitted, Some(Number("32")), ""), 'd', [Word(0xFFFF_FFFF)],
                   Repeat('0', 31) + "1", "-" + (Repeat('0', 31) + "1"))
  {
    hide NumberText, IsoText, Render, Complete, Fold, Repeat, Prints, SpellingText, IsSpelling, Parsed, Meaning;
    var sp, va: seq<Arg> := Spelling("", Omitted, Some(Number("32")), ""), [Word(0xFFFF_FFFF)];
    var s: Spec, m: Meant := Spec(NO_FLAGS.(precision := true), 0, 32, 4, [Word(0xFFFF_FFFF)]),
      Meant(NO_FLAGS.(precision := true), 0, 32, [Word(0xFFFF_FFFF)]);
    ZerosPushTheSignOutParsed(sp, va);
    OneInteger("%.32d", sp, 'd', va, s, m);
    OneWith32Places(s.flags);
  }

  lemma FiveWith33Places(flags: Flags)
    requires flags == NO_FLAGS.(precision := true)
    ensures NumberText(5, false, 10, 33, 0, flags) == Repeat('0', 31) + "5"
    ensures IsoText(5, false, 10, 33, 0, flags) == Repeat('0', 32) + "5"
  {
    hide Reverse, Digits, NumberText, Repeat;
    NextDigit(5, 10, NTOA_BUFFER_SIZE, 5, 0);
    assert StartDigits(5, 10, flags) == "5";
    ReverseOne('5');
    FullBufferText(5, false, 10, 33, 0, flags);
    IsoIsPlain(5, false, 10, 33, 0, flags);
    assert "" + (Repeat('0', 31) + "5") == Repeat('0', 31) + "5";
    assert "" + "" + (Repeat('0', 32) + "5") == Repeat('0', 32) + "5";
  }

  lemma PrecisionIsCutParsed(sp: Spelling, va: seq<Arg>)
    requires sp == Spelling("", Omitted, Some(Number("33")), "") && va == [Word(5)]
    ensures IsSpelling(sp) && SpellingText(sp) == ".33"
    ensures Parsed(sp, 4, va) == Spec(NO_FLAGS.(precision := true), 0, 33, 4, [Word(5)])
    ensures Meaning(sp, va) == Meant(NO_FLAGS.(precision := true), 0, 33, [Word(5)])
  {
    hide Fold, NextInt;
    DecimalValue("33");
  }

  /** `%.33d` of 5 prints 31 zeros and a 5, one zero short. */
  lemma PrecisionIsCut()
    ensures Prints("%.33d", Spelling("", Omitted, Some(Number("33")), ""), 'd', [Word(5)],
                   Repeat('0', 31) + "5", Repeat('0', 32) + "5")
  {
    hide NumberText, IsoText, Render, Complete, Fold, Repeat, Prints, SpellingText, IsSpelling, Parsed, Meaning;
    var sp, va: seq<Arg> := Spelling("", Omitted, Some(Number("33")), ""), [Word(5)];
    var s: Spec, m: Meant := Spec(NO_FLAGS.(precision := true), 0, 33, 4, [Word(5)]),
      Meant(NO_FLAGS.(precision := true), 0, 33, [Word(5)]);
    PrecisionIsCutParsed(sp, va);
    OneInteger("%.33d", sp, 'd', va, s, m);
    FiveWith33Places(s.flags);
  }

  lemma FiveIn33Places(flags: Flags)
    requires flags == NO_FLAGS.(zeropad := true)
    ensures NumberText(5, false, 10, 0, 33, flags) == Repeat('0', 31) + "5"
    ensures IsoText(5, false, 10, 0, 33, flags) == Repeat('0', 32) + "5"
  {
    hide Reverse, Digits, Repeat;
    NextDigit(5, 10, NTOA_BUFFER_SIZE, 5, 0);
    assert StartDigits(5, 10, flags) == "5";
    ReverseOne('5');
    assert Padded("5", false, 0, 33, flags) == "5" + Repeat('0', 31) by {
      assert "5" + "" == "5";
    }
    ReversedWithZeros("5", 31, "");
    ReverseNothing();
    assert "5" + Repeat('0', 31) + "" == "5" + Repeat('0', 31);
    assert "" + (Repeat('0', 31) + "5") == Repeat('0', 31) + "5";
    assert "" + (Repeat('0', 31) + "5") + "" == Repeat('0', 31) + "5";
    IsoIsPlain(5, false, 10, 0, 33, flags);
    assert "" + Repeat('0', 32) + "5" == Repeat('0', 32) + "5" && "" + "5" == "5";
  }

  lemma WidthIsCutParsed(sp: Spelling, va: seq<Arg>)
    requires sp == Spelling("0", Number("33"), None, "") && va == [Word(5)]
    ensures IsSpelling(sp) && SpellingText(sp) == "033"
    ensures Parsed(sp, 4, va) == Spec(NO_FLAGS.(zeropad := true), 33, 0, 4, [Word(5)])
    ensures Meaning(sp, va) == Meant(NO_FLAGS.(zeropad := true), 33, 0, [Word(5)])
  {
    hide Fold, NextInt;
    DecimalValue("33");
  }

  /** `%033d` of 5 prints 31 zeros and a 5, one place short. */
  lemma WidthIsCut()
    ensures Prints("%033d", Spelling("0", Number("33"), None, ""), 'd', [Word(5)],
                   Repeat('0', 31) + "5", Repeat('0', 32) + "5")
  {
    hide NumberText, IsoText, Render, Complete, Fold, Repeat, Prints, SpellingText, IsSpelling, Parsed, Meaning;
    var sp, va: seq<Arg> := Spelling("0", Number("33"), None, ""), [Word(5)];
    var s: Spec, m: Meant := Spec(NO_FLAGS.(zeropad := true), 33, 0, 4, [Word(5)]),
      Meant(NO_FLAGS.(zeropad := true), 33, 0, [Word(5)]);
    WidthIsCutParsed(sp, va);
    OneInteger("%033d", sp, 'd', va, s, m);
    FiveIn33Places(s.flags);
  }

  lemma OneHexWith31Places(flags: Flags)
    requires flags == NO_FLAGS.(hash := true, precision := true)
    ensures NumberText(1, false, 16, 31, 0, flags) == "x" + (Repeat('0', 30) + "1")
    ensures IsoText(1, false, 16, 31, 0, flags) == "0x" + (Repeat('0', 30) + "1")
  {
    hide Reverse, Digits, NumberText, IsoText, Padded, Repeat;
    NextDigit(1, 16, NTOA_BUFFER_SIZE, 1, 0);
    assert StartDigits(1, 16, flags) == "1";
    ReverseOne('1');
    ReverseOne('x');
    AlternativeText(1, 16, 31, 0, flags);
    PaddedIsZeros("1", 31, 0, flags);
    var p := "1" + Repeat('0', 30);
    assert Hashed(p, 16, 31, 0, flags) == p + "x" by {
      assert p[..31] == p;
    }
    ReversedWithZeros("1", 30, "x");
    var number := "x" + (Repeat('0', 30) + "1");
    assert "" + number + "" == number;
    IsoAlternative(1, 16, 31, 0, flags);
    assert "" + "0x" + (Repeat('0', 30) + "1") == "0x" + (Repeat('0', 30) + "1");
  }

  lemma PrefixFindsNoRoomParsed(sp: Spelling, va: seq<Arg>)
    requires sp == Spelling("#", Omitted, Some(Number("31")), "") && va == [Word(1)]
    ensures IsSpelling(sp) && SpellingText(sp) == "#.31"
    ensures Parsed(sp, 5, va) == Spec(NO_FLAGS.(hash := true, precision := true), 0, 31, 5, [Word(1)])
    ensures Meaning(sp, va) == Meant(NO_FLAGS.(hash := true, precision := true), 0, 31, [Word(1)])
  {
    hide Fold, NextInt;
    DecimalValue("31");
  }

  /** `%#.31x` of 1 prints the 'x' of the prefix without its '0'. */
  lemma PrefixFindsNoRoom()
    ensures Prints("%#.31x", Spelling("#", Omitted, Some(Number("31")), ""), 'x', [Word(1)],
                   "x" + (Repeat('0', 30) + "1"), "0x" + (Repeat('0', 30) + "1"))
  {
    hide NumberText, IsoText, Render, Complete, Fold, Repeat, Prints, SpellingText, IsSpelling, Parsed, Meaning;
    var sp, va: seq<Arg> := Spelling("#", Omitted, Some(Number("31")), ""), [Word(1)];
    var s: Spec, m: Meant := Spec(NO_FLAGS.(hash := true, precision := true), 0, 31, 5, [Word(1)]),
      Meant(NO_FLAGS.(hash := true, precision := true), 0, 31, [Word(1)]);
    PrefixFindsNoRoomParsed(sp, va);
    OneInteger("%#.31x", sp, 'x', va, s, m);
    OneHexWith31Places(s.flags);
  }

  // ---------- '#' and a width that the digits fill ----------

  lemma FourHexDigits()
    ensures Digits(0x1234, 16, false, NTOA_BUFFER_SIZE) == "4321" && Reverse("4321") == "1234"
  {
    hide Digits;
    NextDigit(0x1234, 16, 32, 4, 0x123);
    NextDigit(0x123, 16, 31, 3, 0x12);
    NextDigit(0x12, 16, 30, 2, 1);
    NextDigit(1, 16, 29, 1, 0);
    ReverseTwo('4', '3');
    ReverseTwo('2', '1');
    assert "4321" == "43" + "21";
    ReverseAppend("43", "21");
  }

  lemma HexInFourPlaces(flags: Flags)
    requires flags == NO_FLAGS.(hash := true)
    ensures NumberText(0x1234, false, 16, 0, 4, flags) == "0x34" && IsoText(0x1234, false, 16, 0, 4, flags) == "0x1234"
  {
    hide Reverse, Digits, NumberText, IsoText, Padded, Hashed;
    FourHexDigits();
    var d := "4321";
    assert StartDigits(0x1234, 16, flags) == d;
    AlternativeText(0x1234, 16, 0, 4, flags);
    PaddedIsZeros(d, 0, 4, flags);
    assert d + "" == d;
    PrefixOverwrites(d, 16, 4, flags);
    assert d[..2] == "43";
    ReverseAppend("43", "x0");
    SuffixReversed(16, flags);
    ReverseTwo('4', '3');
    assert "0x" + "34" == "0x34" && "" + "0x34" + "" == "0x34";
    IsoAlternative(0x1234, 16, 0, 4, flags);
    assert PadTo('0', 4, 0) + "1234" == "1234";
    assert "" + "0x" + "1234" == "0x1234";
  }

  lemma PrefixOverwritesDigitsParsed(sp: Spelling, va: seq<Arg>)
    requires sp == Spelling("#", Number("4"), None, "") && va == [Word(0x1234)]
    ensures IsSpelling(sp) && SpellingText(sp) == "#4"
    ensures Parsed(sp, 3, va) == Spec(NO_FLAGS.(hash := true), 4, 0, 3, [Word(0x1234)])
    ensures Meaning(sp, va) == Meant(NO_FLAGS.(hash := true), 4, 0, [Word(0x1234)])
  {
    hide Fold, NextInt;
    DecimalValue("4");
  }

  /** `%#4x` of 0x1234 prints "0x34": the prefix takes the place of two digits. */
  lemma PrefixOverwritesDigits()
    ensures Prints("%#4x", Spelling("#", Number("4"), None, ""), 'x', [Word(0x1234)],
                   "0x34", "0x1234")
  {
    hide NumberText, IsoText, Render, Complete, Fold, Repeat, Prints, SpellingText, IsSpelling, Parsed, Meaning;
    var sp, va: seq<Arg> := Spelling("#", Number("4"), None, ""), [Word(0x1234)];
    var s: Spec, m: Meant := Spec(NO_FLAGS.(hash := true), 4, 0, 3, [Word(0x1234)]),
      Meant(NO_FLAGS.(hash := true), 4, 0, [Word(0x1234)]);
    PrefixOverwritesDigitsParsed(sp, va);
    OneInteger("%#4x", sp, 'x', va, s, m);
    HexInFourPlaces(s.flags);
  }

  // ---------- '#' and an octal precision ----------

  lemma EightWithThreePlaces(flags: Flags)
    requires flags == NO_FLAGS.(hash := true, precision := true)
    ensures NumberText(8, false, 8, 3, 0, flags) == "0010" && IsoText(8, false, 8, 3, 0, flags) == "010"
  {
    hide Reverse, Digits, NumberText, IsoText;
    NextDigit(8, 8, 32, 0, 1);
    NextDigit(1, 8, 31, 1, 0);
    assert StartDigits(8, 8, flags) == "01";
    ReverseTwo('0', '1');
    assert Repeat('0', 1) == "0" == PadTo('0', 2, 3);
    ZerosText(8, 8, 3, 0, flags);
    IsoAlternative(8, 8, 3, 0, flags);
  }

  lemma OctalGetsAZeroTooManyParsed(sp: Spelling, va: seq<Arg>)
    requires sp == Spelling("#", Omitted, Some(Number("3")), "") && va == [Word(8)]
    ensures IsSpelling(sp) && SpellingText(sp) == "#.3"
    ensures Parsed(sp, 4, va) == Spec(NO_FLAGS.(hash := true, precision := true), 0, 3, 4, [Word(8)])
    ensures Meaning(sp, va) == Meant(NO_FLAGS.(hash := true, precision := true), 0, 3, [Word(8)])
  {
    hide Fold, NextInt;
    DecimalValue("3");
  }

  /** `%#.3o` of 8 prints "0010", where the standard asks for "010". */
  lemma OctalGetsAZeroTooMany()
    ensures Prints("%#.3o", Spelling("#", Omitted, Some(Number("3")), ""), 'o', [Word(8)],
                   "0010", "010")
  {
    hide NumberText, IsoText, Render, Complete, Fold, Repeat, Prints, SpellingText, IsSpelling, Parsed, Meaning;
    var sp, va: seq<Arg> := Spelling("#", Omitted, Some(Number("3")), ""), [Word(8)];
    var s: Spec, m: Meant := Spec(NO_FLAGS.(hash := true, precision := true), 0, 3, 4, [Word(8)]),
      Meant(NO_FLAGS.(hash := true, precision := true), 0, 3, [Word(8)]);
    OctalGetsAZeroTooManyParsed(sp, va);
    OneInteger("%#.3o", sp, 'o', va, s, m);
    EightWithThreePlaces(s.flags);
  }

  lemma NothingForZero(flags: Flags)
    requires flags == NO_FLAGS.(hash := true, precision := true)
    ensures NumberText(0, false, 8, 0, 0, flags) == "" && IsoText(0, false, 8, 0, 0, flags) == "0"
  {
    assert PlainNumber(0, 8, 0, flags) == "";
    assert ReversedNumber("", false, 8, 0, 0, flags.(hash := false)) == "";
  }

  lemma OctalZeroIsLostParsed(sp: Spelling, va: seq<Arg>)
    requires sp == Spelling("#", Omitted, Some(Number("0")), "") && va == [Word(0)]
    ensures IsSpelling(sp) && SpellingText(sp) == "#.0"
    ensures Parsed(sp, 4, va) == Spec(NO_FLAGS.(hash := true, precision := true), 0, 0, 4, [Word(0)])
    ensures Meaning(sp, va) == Meant(NO_FLAGS.(hash := true, precision := true), 0, 0, [Word(0)])
  {
    hide Fold, NextInt;
    DecimalValue("0");
  }

  /** `%#.0o` of 0 prints nothing, where the standard asks for "0". */
  lemma OctalZeroIsLost()
    ensures Prints("%#.0o", Spelling("#", Omitted, Some(Number("0")), ""), 'o', [Word(0)],
                   "", "0")
  {
    hide NumberText, IsoText, Render, Complete, Fold, Repeat, Prints, SpellingText, IsSpelling, Parsed, Meaning;
    var sp, va: seq<Arg> := Spelling("#", Omitted, Some(Number("0")), ""), [Word(0)];
    var s: Spec, m: Meant := Spec(NO_FLAGS.(hash := true, precision := true), 0, 0, 4, [Word(0)]),
      Meant(NO_FLAGS.(hash := true, precision := true), 0, 0, [Word(0)]);
    OctalZeroIsLostParsed(sp, va);
    OneInteger("%#.0o", sp, 'o', va, s, m);
    NothingForZero(s.flags);
  }

  // ---------- a negative precision ----------

  lemma ZeroWithoutDigits()
    ensures NumberText(0, false, 10, 0, 0, NO_FLAGS.(precision := true)) == ""
    ensures IsoText(0, false, 10, 0, 0, NO_FLAGS) == "0"
  {
    ZeroDigit(10, NO_FLAGS);
    IsoIsPlain(0, false, 10, 0, 0, NO_FLAGS);
    NoDigitForZero(10, NO_FLAGS.(precision := true));
    assert ReversedNumber("", false, 10, 0, 0, NO_FLAGS.(precision := true)) == "";
  }

  lemma NegativePrecisionLosesZeroParsed(sp: Spelling, va: seq<Arg>)
    requires sp == Spelling("", Omitted, Some(FromArgument), "") && va == [Word(0xFFFF_FFFF), Word(0)]
    ensures IsSpelling(sp) && SpellingText(sp) == ".*"
    ensures Parsed(sp, 3, va) == Spec(NO_FLAGS.(precision := true), 0, 0, 3, [Word(0)])
    ensures Meaning(sp, va) == Meant(NO_FLAGS, 0, 0, [Word(0)])
  {
    hide Fold;
  }

  /** `%.*d` of -1 and 0 prints nothing, where the standard asks for "0": the precision counts as omitted. */
  lemma NegativePrecisionLosesZero()
    ensures Prints("%.*d", Spelling("", Omitted, Some(FromArgument), ""), 'd', [Word(0xFFFF_FFFF), Word(0)],
                   "", "0")
  {
    hide NumberText, IsoText, Render, Complete, Fold, Repeat, Prints, SpellingText, IsSpelling, Parsed, Meaning;
    var sp, va: seq<Arg> := Spelling("", Omitted, Some(FromArgument), ""), [Word(0xFFFF_FFFF), Word(0)];
    var s: Spec, m: Meant := Spec(NO_FLAGS.(precision := true), 0, 0, 3, [Word(0)]),
      Meant(NO_FLAGS, 0, 0, [Word(0)]);
    NegativePrecisionLosesZeroParsed(sp, va);
    OneInteger("%.*d", sp, 'd', va, s, m);
    ZeroWithoutDigits();
  }

  lemma FiveInThreePlaces(flags: Flags)
    requires flags == NO_FLAGS.(zeropad := true)
    ensures NumberText(5, false, 10, 0, 3, WithPrecision(flags)) == "  5" && IsoText(5, false, 10, 0, 3, flags) == "005"
  {
    hide Reverse, Digits;
    NextDigit(5, 10, NTOA_BUFFER_SIZE, 5, 0);
    assert StartDigits(5, 10, WithPrecision(flags)) == "5" == StartDigits(5, 10, flags);
    ReverseOne('5');
    assert PadTo(' ', 1, 3) == "  " && PadTo('0', 1, 3) == "00";
    assert ReversedNumber("5", false, 10, 0, 3, WithPrecision(flags)) == "5";
    IsoIsPlain(5, false, 10, 0, 3, flags);
  }

  lemma NegativePrecisionLosesZerosParsed(sp: Spelling, va: seq<Arg>)
    requires sp == Spelling("0", FromArgument, Some(FromArgument), "") && va == [Word(3), Word(0xFFFF_FFFF), Word(5)]
    ensures IsSpelling(sp) && SpellingText(sp) == "0*.*"
    ensures Parsed(sp, 5, va) == Spec(NO_FLAGS.(zeropad := true, precision := true), 3, 0, 5, [Word(5)])
    ensures Meaning(sp, va) == Meant(NO_FLAGS.(zeropad := true), 3, 0, [Word(5)])
  {
    hide Fold;
  }

  /** `%0*.*d` of 3, -1 and 5 prints "  5", where the standard asks for "005". */
  lemma NegativePrecisionLosesZeros()
    ensures Prints("%0*.*d", Spelling("0", FromArgument, Some(FromArgument), ""), 'd',
      [Word(3), Word(0xFFFF_FFFF), Word(5)],
                   "  5", "005")
  {
    hide NumberText, IsoText, Render, Complete, Fold, Repeat, Prints, SpellingText, IsSpelling, Parsed, Meaning;
    var sp, va: seq<Arg> := Spelling("0", FromArgument, Some(FromArgument), ""), [Word(3), Word(0xFFFF_FFFF), Word(5)];
    var s: Spec, m: Meant := Spec(NO_FLAGS.(zeropad := true, precision := true), 3, 0, 5, [Word(5)]),
      Meant(NO_FLAGS.(zeropad := true), 3, 0, [Word(5)]);
    NegativePrecisionLosesZerosParsed(sp, va);
    OneInteger("%0*.*d", sp, 'd', va, s, m);
    FiveInThreePlaces(m.flags);
  }

  // ---------- a count from 2^32 on ----------

  lemma PairValue(a: char, b: char, acc: nat)
    ensures Fold([a, b], acc, 10) == acc * 100 + DigitValue(a) * 10 + DigitValue(b)
  {
    hide DigitValue;
    assert [a, b][1..] == [b] && [b][1..] == "";
    assert Fold([a, b], acc, 10) == Fold([b], acc * 10 + DigitValue(a), 10);
    assert Fold([b], acc * 10 + DigitValue(a), 10) == Fold("", (acc * 10 + DigitValue(a)) * 10 + DigitValue(b), 10);
  }

  lemma TwoTo32()
    ensures Fold("4294967296", 0, 10) == 0x1_0000_0000
  {
    hide Fold;
    assert "4294967296" == "42" + "94967296" && "94967296" == "94" + "967296" && "967296" == "96" + "7296";
    assert "7296" == "72" + "96";
    FoldAppend("42", "94967296", 0, 10);
    FoldAppend("94", "967296", 42, 10);
    FoldAppend("96", "7296", 4294, 10);
    FoldAppend("72", "96", 429496, 10);
    PairValue('4', '2', 0);
    PairValue('9', '4', 42);
    PairValue('9', '6', 4294);
    PairValue('7', '2', 429496);
    PairValue('9', '6', 42949672);
  }

  lemma FiveWithoutWidth()
    ensures NumberText(5, false, 10, 0, 0, NO_FLAGS) == "5"
    ensures IsoText(5, false, 10, 0, 0x1_0000_0000, NO_FLAGS) == Repeat(' ', 0xFFFF_FFFF) + "5"
  {
    hide Reverse, Digits, Repeat;
    NextDigit(5, 10, NTOA_BUFFER_SIZE, 5, 0);
    assert StartDigits(5, 10, NO_FLAGS) == "5";
    ReverseOne('5');
    assert ReversedNumber("5", false, 10, 0, 0, NO_FLAGS) == "5";
    IsoIsPlain(5, false, 10, 0, 0x1_0000_0000, NO_FLAGS);
    assert Repeat(' ', 0xFFFF_FFFF) + "" + "5" == Repeat(' ', 0xFFFF_FFFF) + "5";
  }

  lemma CountWrapsParsed(sp: Spelling, va: seq<Arg>)
    requires sp == Spelling("", Number("4294967296"), None, "") && va == [Word(5)]
    ensures IsSpelling(sp) && SpellingText(sp) == "4294967296"
    ensures Parsed(sp, 11, va) == Spec(NO_FLAGS, 0, 0, 11, va)
    ensures Meaning(sp, va) == Meant(NO_FLAGS, 0x1_0000_0000, 0, va)
  {
    hide Fold, NextInt;
    TwoTo32();
  }

  /** `%4294967296d` of 5 prints "5" alone: the width is taken modulo 2^32. */
  lemma CountWraps()
    ensures Prints("%4294967296d", Spelling("", Number("4294967296"), None, ""), 'd', [Word(5)],
                   "5", Repeat(' ', 0xFFFF_FFFF) + "5")
  {
    hide NumberText, IsoText, Render, Complete, Fold, Repeat, Prints, SpellingText, IsSpelling, Parsed, Meaning;
    var sp, va: seq<Arg> := Spelling("", Number("4294967296"), None, ""), [Word(5)];
    var s: Spec, m: Meant := Spec(NO_FLAGS, 0, 0, 11, va), Meant(NO_FLAGS, 0x1_0000_0000, 0, va);
    CountWrapsParsed(sp, va);
    OneInteger("%4294967296d", sp, 'd', va, s, m);
    FiveWithoutWidth();
  }
}
