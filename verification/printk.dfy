/** The kernel printf family (kernel/src/printk/printk.c; ISO C11, sections 7.21.6.1 and 7.21.6.5).

    `Formats.Render` is the whole output of a format and its arguments.  The methods of `Printk`
    parse and print character by character into a bounded buffer, as the source does. */
module Formats {
  import opened Words
  import opened PrintkText
  import opened AlternativeForm

  /** A C string without its terminator. */
  type CString = s: string | '\0' !in s

  /** An argument as va_arg finds it: a machine word or the address of a string. */
  datatype Arg = Word(bits: u64) | Text(chars: CString)

  function NextWord(va: seq<Arg>): u64 {
    if va != [] && va[0].Word? then va[0].bits else 0
  }

  function NextText(va: seq<Arg>): CString {
    if va != [] && va[0].Text? then va[0].chars else ""
  }

  function Following(va: seq<Arg>): seq<Arg> {
    if va == [] then [] else va[1..]
  }

  function NextInt(va: seq<Arg>): int {
    AsInt32(NextWord(va) % 0x1_0000_0000)
  }

  /** The character at position i; the terminator behind the end. */
  function At(fmt: CString, i: nat): char {
    if i < |fmt| then fmt[i] else '\0'
  }

  predicate IsDigit(c: char) {
    '0' <= c <= '9'
  }

  function WithFlag(flags: Flags, c: char): Flags {
    if c == '0' then flags.(zeropad := true)
    else if c == '-' then flags.(left := true)
    else if c == '+' then flags.(plus := true)
    else if c == ' ' then flags.(space := true)
    else flags.(hash := true)
  }

  predicate IsFlag(c: char) {
    c == '0' || c == '-' || c == '+' || c == ' ' || c == '#'
  }

  function ParseFlags(fmt: CString, i: nat, flags: Flags): (r: (Flags, nat))
    ensures i <= r.1
    decreases |fmt| - i
  {
    if i < |fmt| && IsFlag(fmt[i]) then ParseFlags(fmt, i + 1, WithFlag(flags, fmt[i])) else (flags, i)
  }

  /** Digits accumulate in an unsigned int. */
  function ParseNumber(fmt: CString, i: nat, acc: u32): (r: (u32, nat))
    ensures i <= r.1
    decreases |fmt| - i
  {
    if i < |fmt| && IsDigit(fmt[i])
    then ParseNumber(fmt, i + 1, (acc * 10 + (fmt[i] - '0') as int) % 0x1_0000_0000)
    else (acc, i)
  }

  /** A parsed specification up to its conversion character at `at`. */
  datatype Spec = Spec(flags: Flags, width: u32, precision: u32, at: nat, va: seq<Arg>)

  function ParseWidth(fmt: CString, s: Spec): (r: Spec)
    ensures s.at <= r.at
  {
    if IsDigit(At(fmt, s.at)) then
      var (w, j) := ParseNumber(fmt, s.at, 0);
      s.(width := w, at := j)
    else if At(fmt, s.at) == '*' then
      var w := NextInt(s.va);
      if w < 0 then s.(flags := s.flags.(left := true), width := -w, at := s.at + 1, va := Following(s.va))
      else s.(width := w, at := s.at + 1, va := Following(s.va))
    else s
  }

  function ParsePrecision(fmt: CString, s: Spec): (r: Spec)
    ensures s.at <= r.at
  {
    if At(fmt, s.at) != '.' then s
    else
      var t := s.(flags := s.flags.(precision := true), at := s.at + 1);
      if IsDigit(At(fmt, t.at)) then
        var (p, j) := ParseNumber(fmt, t.at, 0);
        t.(precision := p, at := j)
      else if At(fmt, t.at) == '*' then
        var p := NextInt(t.va);
        t.(precision := if p > 0 then p else 0, at := t.at + 1, va := Following(t.va))
      else t
  }

  function ParseLength(fmt: CString, s: Spec): (r: Spec)
    ensures s.at <= r.at
  {
    var c := At(fmt, s.at);
    if c == 'l' then
      var t := s.(flags := s.flags.(isLong := true), at := s.at + 1);
      if At(fmt, t.at) == 'l' then t.(flags := t.flags.(isLongLong := true), at := t.at + 1) else t
    else if c == 'h' then
      var t := s.(flags := s.flags.(isShort := true), at := s.at + 1);
      if At(fmt, t.at) == 'h' then t.(flags := t.flags.(isChar := true), at := t.at + 1) else t
    else if c == 't' || c == 'j' || c == 'z' then s.(flags := s.flags.(isLong := true), at := s.at + 1)
    else s
  }

  /** The specification that starts behind a '%' at i - 1. */
  function ParseSpec(fmt: CString, i: nat, va: seq<Arg>): (r: Spec)
    ensures i <= r.at
  {
    var (flags, j) := ParseFlags(fmt, i, NO_FLAGS);
    ParseLength(fmt, ParsePrecision(fmt, ParseWidth(fmt, Spec(flags, 0, 0, j, va))))
  }

  // ---------- conversions ----------

  function Narrow(bits: u64, size: nat): int
    requires size > 0
  {
    var low := bits % size;
    if low < size / 2 then low else low - size
  }

  function SignedArg(flags: Flags, bits: u64): int {
    if flags.isLongLong || flags.isLong then Narrow(bits, 0x1_0000_0000_0000_0000)
    else if flags.isChar then Narrow(bits, 0x100)
    else if flags.isShort then Narrow(bits, 0x1_0000)
    else Narrow(bits, 0x1_0000_0000)
  }

  function UnsignedArg(flags: Flags, bits: u64): u64 {
    if flags.isLongLong || flags.isLong then bits
    else if flags.isChar then bits % 0x100
    else if flags.isShort then bits % 0x1_0000
    else bits % 0x1_0000_0000
  }

  predicate IsInteger(c: char) {
    c == 'd' || c == 'i' || c == 'u' || c == 'x' || c == 'X' || c == 'o' || c == 'b'
  }

  function BaseOf(c: char): (b: nat)
    ensures 2 <= b <= 16
  {
    if c == 'x' || c == 'X' then 16 else if c == 'o' then 8 else if c == 'b' then 2 else 10
  }

  function IntegerFlags(flags: Flags, c: char): Flags {
    var signed := c == 'd' || c == 'i';
    flags.(hash := flags.hash && BaseOf(c) != 10,
           uppercase := flags.uppercase || c == 'X',
           plus := flags.plus && signed,
           space := flags.space && signed,
           zeropad := flags.zeropad && !flags.precision)
  }

  function IntegerText(s: Spec, c: char): string {
    var flags := IntegerFlags(s.flags, c);
    if c == 'd' || c == 'i' then
      var v := SignedArg(flags, NextWord(s.va));
      NumberText(if v > 0 then v else 0 - v, v < 0, BaseOf(c), s.precision, s.width, flags)
    else
      NumberText(UnsignedArg(flags, NextWord(s.va)), false, BaseOf(c), s.precision, s.width, flags)
  }

  function Field(text: string, width: nat, flags: Flags): string {
    var pad := PadTo(' ', |text|, width);
    if flags.left then text + pad else pad + text
  }

  function StringPart(s: Spec): string {
    var text := NextText(s.va);
    if s.flags.precision && s.precision < |text| then text[..s.precision] else text
  }

  function PointerFlags(flags: Flags): Flags {
    flags.(zeropad := true, uppercase := true)
  }

  /** What the conversion character c prints. */
  function ConversionOf(c: char, s: Spec): string {
    if IsInteger(c) then IntegerText(s, c)
    else if c == 'c' then Field([(NextWord(s.va) % 0x100) as char], s.width, s.flags)
    else if c == 's' then Field(StringPart(s), s.width, s.flags)
    else if c == 'p' then NumberText(NextWord(s.va), false, 16, s.precision, 16, PointerFlags(s.flags))
    else [c]
  }

  function ConversionText(fmt: CString, s: Spec): string
    requires s.at < |fmt|
  {
    ConversionOf(fmt[s.at], s)
  }

  function ArgsBehind(fmt: CString, s: Spec): seq<Arg>
    requires s.at < |fmt|
  {
    var c := fmt[s.at];
    if IsInteger(c) || c == 'c' || c == 's' || c == 'p' then Following(s.va) else s.va
  }

  /** Every specification from position i on has its conversion character. */
  predicate Complete(fmt: CString, i: nat, va: seq<Arg>)
    decreases |fmt| - i
  {
    if i >= |fmt| then true
    else if fmt[i] != '%' then Complete(fmt, i + 1, va)
    else
      var s := ParseSpec(fmt, i + 1, va);
      s.at < |fmt| && Complete(fmt, s.at + 1, ArgsBehind(fmt, s))
  }

  /** The whole output of the format from position i on. */
  function Render(fmt: CString, i: nat, va: seq<Arg>): string
    requires Complete(fmt, i, va)
    decreases |fmt| - i
  {
    if i >= |fmt| then ""
    else if fmt[i] != '%' then [fmt[i]] + Render(fmt, i + 1, va)
    else
      var s := ParseSpec(fmt, i + 1, va);
      ConversionText(fmt, s) + Render(fmt, s.at + 1, ArgsBehind(fmt, s))
  }

  // ---------- the numbers in a format ----------

  lemma SameRemainder(x: nat, y: nat, q: int)
    requires y == x + 0x1_0000_0000 * q
    ensures y % 0x1_0000_0000 == x % 0x1_0000_0000
  {
  }

  /** Equal remainders stay equal when a digit is appended. */
  lemma DigitAppended(a: nat, b: nat, d: nat)
    requires a % 0x1_0000_0000 == b % 0x1_0000_0000
    ensures (a * 10 + d) % 0x1_0000_0000 == (b * 10 + d) % 0x1_0000_0000
  {
    var q := a / 0x1_0000_0000 - b / 0x1_0000_0000;
    assert a * 10 + d == (b * 10 + d) + 0x1_0000_0000 * (10 * q);
    SameRemainder(b * 10 + d, a * 10 + d, 10 * q);
  }

  lemma {:induction false} FoldModulo(s: string, a: nat, b: nat)
    requires a % 0x1_0000_0000 == b % 0x1_0000_0000
    ensures Fold(s, a, 10) % 0x1_0000_0000 == Fold(s, b, 10) % 0x1_0000_0000
    decreases |s|
  {
    hide DigitValue;
    if s != "" {
      DigitAppended(a, b, DigitValue(s[0]));
      FoldModulo(s[1..], a * 10 + DigitValue(s[0]), b * 10 + DigitValue(s[0]));
    }
  }

  /** The digits of a format from i on, up to the first other character, give their decimal value, modulo 2^32. */
  lemma {:induction false} NumberIsRead(fmt: CString, i: nat, acc: u32)
    requires i <= |fmt|
    ensures var (v, j) := ParseNumber(fmt, i, acc);
      && i <= j <= |fmt| && (forall k :: i <= k < j ==> IsDigit(fmt[k])) && !IsDigit(At(fmt, j))
      && v == Fold(fmt[i..j], acc, 10) % 0x1_0000_0000
    decreases |fmt| - i
  {
    var (v, j) := ParseNumber(fmt, i, acc);
    if i < |fmt| && IsDigit(fmt[i]) {
      var next := acc * 10 + (fmt[i] - '0') as int;
      NumberIsRead(fmt, i + 1, next % 0x1_0000_0000);
      assert fmt[i..j][0] == fmt[i] && fmt[i..j][1..] == fmt[i + 1..j];
      FoldModulo(fmt[i + 1..j], next % 0x1_0000_0000, next);
    } else {
      assert fmt[i..j] == "";
    }
  }

  /** Digits followed by another character are read whole. */
  lemma DigitsAreRead(fmt: CString, i: nat, digits: string)
    requires i + |digits| <= |fmt| && fmt[i..i + |digits|] == digits && !IsDigit(At(fmt, i + |digits|))
    requires forall k :: 0 <= k < |digits| ==> IsDigit(digits[k])
    ensures ParseNumber(fmt, i, 0) == (Fold(digits, 0, 10) % 0x1_0000_0000, i + |digits|)
  {
    NumberIsRead(fmt, i, 0);
    forall k | i <= k < i + |digits|
      ensures IsDigit(fmt[k])
    {
      assert fmt[i..i + |digits|][k - i] == fmt[k];
    }
  }

  // ---------- spelling a specification ----------

  datatype Count = Omitted | Number(digits: string) | FromArgument

  /** A specification as it is written between '%' and its conversion character. */
  datatype Spelling = Spelling(flags: string, width: Count, precision: Option<Count>, length: string)

  predicate AreDecimal(s: string) {
    s != "" && forall k :: 0 <= k < |s| ==> IsDigit(s[k])
  }

  /** Flags in any order and number, a width that does not begin with the flag '0', a length modifier. */
  predicate IsSpelling(sp: Spelling) {
    && (forall k :: 0 <= k < |sp.flags| ==> IsFlag(sp.flags[k]))
    && (sp.width.Number? ==> AreDecimal(sp.width.digits) && sp.width.digits[0] != '0')
    && (sp.precision.Some? && sp.precision.value.Number? ==> AreDecimal(sp.precision.value.digits))
    && (sp.length == "" || sp.length == "l" || sp.length == "ll" || sp.length == "h" || sp.length == "hh"
        || sp.length == "t" || sp.length == "j" || sp.length == "z")
  }

  function CountText(c: Count): string {
    match c
    case Omitted => ""
    case Number(digits) => digits
    case FromArgument => "*"
  }

  function PrecisionText(p: Option<Count>): string {
    if p.Some? then "." + CountText(p.value) else ""
  }

  function SpellingText(sp: Spelling): string {
    sp.flags + (CountText(sp.width) + (PrecisionText(sp.precision) + sp.length))
  }

  /** A character that cannot go on a specification. */
  predicate EndsSpecification(c: char) {
    !IsFlag(c) && !IsDigit(c) && c !in "*.lhtjz"
  }

  /** The spelling at this place of the format ends at its conversion character. */
  predicate Stands(fmt: CString, i: nat, sp: Spelling) {
    && IsSpelling(sp) && i + |SpellingText(sp)| < |fmt|
    && fmt[i..i + |SpellingText(sp)|] == SpellingText(sp) && EndsSpecification(fmt[i + |SpellingText(sp)|])
  }

  function ArgsAfter(c: Count, va: seq<Arg>): seq<Arg> {
    if c.FromArgument? then Following(va) else va
  }

  /** A count as the standard means it; an int argument may be negative. */
  function CountMeant(c: Count, va: seq<Arg>): int {
    match c
    case Omitted => 0
    case Number(digits) => Fold(digits, 0, 10)
    case FromArgument => NextInt(va)
  }

  /** A count as the source computes it. */
  function CountValue(c: Count, va: seq<Arg>): int {
    if c.Number? then CountMeant(c, va) % 0x1_0000_0000 else CountMeant(c, va)
  }

  function PrecisionCount(sp: Spelling): Count {
    if sp.precision.Some? then sp.precision.value else Omitted
  }

  /** The flags and the length modifier of a spelling. */
  function SpelledFlags(sp: Spelling, negativeWidth: bool, precision: bool): Flags {
    NO_FLAGS.(zeropad := '0' in sp.flags, left := '-' in sp.flags || negativeWidth, plus := '+' in sp.flags,
              space := ' ' in sp.flags, hash := '#' in sp.flags, precision := precision,
              isShort := 'h' in sp.length, isChar := sp.length == "hh",
              isLong := sp.length != "" && sp.length[0] != 'h', isLongLong := sp.length == "ll")
  }

  /** A specification as the standard understands it. */
  datatype Meant = Meant(flags: Flags, width: nat, precision: nat, va: seq<Arg>)

  function MeantBy(s: Spec): Meant {
    Meant(s.flags, s.width, s.precision, s.va)
  }

  /** What a spelling means (paragraphs 4 and 5): a negative width stands for '-' and its magnitude, a negative
      precision counts as omitted. */
  function Meaning(sp: Spelling, va: seq<Arg>): Meant {
    var width, rest := CountMeant(sp.width, va), ArgsAfter(sp.width, va);
    var precision := CountMeant(PrecisionCount(sp), rest);
    Meant(SpelledFlags(sp, width < 0, sp.precision.Some? && precision >= 0),
          if width < 0 then -width else width, Max(precision, 0), ArgsAfter(PrecisionCount(sp), rest))
  }

  lemma NarrowRange(bits: u64)
    ensures -0x8000_0000 <= AsInt32(bits % 0x1_0000_0000) < 0x8000_0000
  {
  }

  /** What the source makes of a spelling: counts modulo 2^32, and 0 of a negative precision. */
  function Parsed(sp: Spelling, at: nat, va: seq<Arg>): (s: Spec) {
    var width, rest := CountValue(sp.width, va), ArgsAfter(sp.width, va);
    NarrowRange(NextWord(va));
    NarrowRange(NextWord(rest));
    Spec(SpelledFlags(sp, width < 0, sp.precision.Some?), if width < 0 then -width else width,
         Max(CountValue(PrecisionCount(sp), rest), 0), at, ArgsAfter(PrecisionCount(sp), rest))
  }

  function Adding(flags: Flags, zero: bool, minus: bool, plus: bool, space: bool, hash: bool): Flags {
    flags.(zeropad := flags.zeropad || zero, left := flags.left || minus, plus := flags.plus || plus,
           space := flags.space || space, hash := flags.hash || hash)
  }

  function WithFlags(flags: Flags, fs: string): Flags {
    Adding(flags, '0' in fs, '-' in fs, '+' in fs, ' ' in fs, '#' in fs)
  }

  lemma AddingOne(flags: Flags, c: char)
    requires IsFlag(c)
    ensures WithFlag(flags, c) == Adding(flags, c == '0', c == '-', c == '+', c == ' ', c == '#')
  {
  }

  lemma AddingTwice(flags: Flags, a: bool, b: bool, c: bool, d: bool, e: bool, v: bool, w: bool, x: bool, y: bool,
                    z: bool)
    ensures Adding(Adding(flags, a, b, c, d, e), v, w, x, y, z) == Adding(flags, a || v, b || w, c || x, d || y, e || z)
  {
  }

  lemma InCons(x: char, c: char, fs: string)
    ensures x in [c] + fs <==> x == c || x in fs
  {
  }

  lemma FirstFlag(flags: Flags, c: char, fs: string)
    requires IsFlag(c)
    ensures WithFlags(WithFlag(flags, c), fs) == WithFlags(flags, [c] + fs)
  {
    hide Adding, WithFlag;
    InCons('0', c, fs);
    InCons('-', c, fs);
    InCons('+', c, fs);
    InCons(' ', c, fs);
    InCons('#', c, fs);
    AddingOne(flags, c);
    AddingTwice(flags, c == '0', c == '-', c == '+', c == ' ', c == '#', '0' in fs, '-' in fs, '+' in fs, ' ' in fs,
                '#' in fs);
  }

  lemma {:induction false} FlagsAreRead(fmt: CString, i: nat, fs: string, flags: Flags)
    requires i + |fs| <= |fmt| && fmt[i..i + |fs|] == fs && !IsFlag(At(fmt, i + |fs|))
    requires forall k :: 0 <= k < |fs| ==> IsFlag(fs[k])
    ensures ParseFlags(fmt, i, flags) == (WithFlags(flags, fs), i + |fs|)
    decreases |fs|
  {
    if fs != "" {
      assert fmt[i] == fs[0] && fmt[i + 1..i + |fs|] == fs[1..];
      FlagsAreRead(fmt, i + 1, fs[1..], WithFlag(flags, fs[0]));
      assert fs == [fs[0]] + fs[1..];
      FirstFlag(flags, fs[0], fs[1..]);
    }
  }

  lemma Piece(fmt: string, i: nat, t: string, from: nat, to: nat)
    requires i + |t| <= |fmt| && fmt[i..i + |t|] == t && from <= to <= |t|
    ensures fmt[i + from..i + to] == t[from..to]
  {
    forall k | 0 <= k < to - from
      ensures fmt[i + from..i + to][k] == t[from..to][k]
    {
      assert fmt[i..i + |t|][from + k] == fmt[i + from + k];
    }
  }

  lemma PiecesOf(fmt: string, i: nat, a: string, b: string, c: string, d: string)
    requires i + |a + (b + (c + d))| <= |fmt| && fmt[i..i + |a + (b + (c + d))|] == a + (b + (c + d))
    ensures var j := i + |a|; var k := j + |b|; var l := k + |c|;
      fmt[i..j] == a && fmt[j..k] == b && fmt[k..l] == c && fmt[l..l + |d|] == d
  {
    var t := a + (b + (c + d));
    Piece(fmt, i, t, 0, |a|);
    Piece(fmt, i, t, |a|, |a| + |b|);
    Piece(fmt, i, t, |a| + |b|, |a| + |b| + |c|);
    Piece(fmt, i, t, |a| + |b| + |c|, |t|);
    assert t == a + b + c + d;
    assert t[0..|a|] == a;
    assert t[|a|..|a| + |b|] == b;
    assert t[|a| + |b|..|a| + |b| + |c|] == c;
    assert t[|a| + |b| + |c|..|t|] == d;
  }

  lemma WidthIsRead(fmt: CString, s: Spec, width: Count)
    requires s.at + |CountText(width)| <= |fmt| && fmt[s.at..s.at + |CountText(width)|] == CountText(width)
    requires !IsDigit(At(fmt, s.at + |CountText(width)|)) && (width.Omitted? ==> At(fmt, s.at) != '*')
    requires s.width == 0 && (width.Number? ==> AreDecimal(width.digits))
    ensures var w := CountValue(width, s.va);
      -0x8000_0000 <= w < 0x1_0000_0000 &&
      ParseWidth(fmt, s) == s.(flags := s.flags.(left := s.flags.left || w < 0), width := if w < 0 then -w else w,
                               at := s.at + |CountText(width)|, va := ArgsAfter(width, s.va))
  {
    NarrowRange(NextWord(s.va));
    match width {
      case Omitted =>
      case Number(digits) =>
        assert fmt[s.at] == digits[0];
        DigitsAreRead(fmt, s.at, digits);
      case FromArgument =>
        assert fmt[s.at] == '*';
    }
  }

  /** A precision behind its point. */
  lemma PointIsRead(fmt: CString, s: Spec, c: Count)
    requires s.at + 1 + |CountText(c)| <= |fmt| && fmt[s.at] == '.'
    requires fmt[s.at + 1..s.at + 1 + |CountText(c)|] == CountText(c)
    requires var x := At(fmt, s.at + 1 + |CountText(c)|); !IsDigit(x) && x != '*'
    requires s.precision == 0 && (c.Number? ==> AreDecimal(c.digits))
    ensures var n := CountValue(c, s.va);
      n < 0x1_0000_0000 &&
      ParsePrecision(fmt, s) == s.(flags := s.flags.(precision := true), precision := Max(n, 0),
                                   at := s.at + 1 + |CountText(c)|, va := ArgsAfter(c, s.va))
  {
    NarrowRange(NextWord(s.va));
    match c {
      case Omitted =>
      case Number(digits) =>
        assert fmt[s.at + 1] == digits[0];
        DigitsAreRead(fmt, s.at + 1, digits);
      case FromArgument =>
        assert fmt[s.at + 1] == '*';
    }
  }

  lemma PrecisionIsRead(fmt: CString, s: Spec, p: Option<Count>)
    requires s.at + |PrecisionText(p)| <= |fmt| && fmt[s.at..s.at + |PrecisionText(p)|] == PrecisionText(p)
    requires var c := At(fmt, s.at + |PrecisionText(p)|); !IsDigit(c) && c != '*' && c != '.'
    requires s.precision == 0 && !s.flags.precision
    requires p.Some? && p.value.Number? ==> AreDecimal(p.value.digits)
    ensures var c := if p.Some? then p.value else Omitted; var n := CountValue(c, s.va);
      n < 0x1_0000_0000 &&
      ParsePrecision(fmt, s) == s.(flags := s.flags.(precision := p.Some?), precision := Max(n, 0),
                                   at := s.at + |PrecisionText(p)|, va := ArgsAfter(c, s.va))
  {
    if p.Some? {
      assert fmt[s.at] == PrecisionText(p)[0] == '.';
      var text := CountText(p.value);
      assert PrecisionText(p)[1..] == text;
      Piece(fmt, s.at, PrecisionText(p), 1, 1 + |text|);
      assert fmt[s.at + 1..s.at + 1 + |text|] == text;
      PointIsRead(fmt, s, p.value);
    }
  }

  lemma LengthIsRead(fmt: CString, s: Spec, length: string)
    requires s.at + |length| <= |fmt| && fmt[s.at..s.at + |length|] == length
    requires At(fmt, s.at + |length|) !in "lhtjz"
    requires !s.flags.isLong && !s.flags.isLongLong && !s.flags.isShort && !s.flags.isChar
    requires length == "" || length == "l" || length == "ll" || length == "h" || length == "hh"
             || length == "t" || length == "j" || length == "z"
    ensures ParseLength(fmt, s)
         == s.(flags := s.flags.(isShort := 'h' in length, isChar := length == "hh",
                                 isLong := length != "" && length[0] != 'h', isLongLong := length == "ll"),
               at := s.at + |length|)
  {
    if length != "" {
      assert fmt[s.at] == length[0];
    }
    if |length| == 2 {
      assert fmt[s.at + 1] == length[1];
    }
  }

  // What has been read after each part is what a spelling without the later parts parses to.

  lemma FlagsParsed(fs: string, at: nat, va: seq<Arg>)
    ensures Spec(WithFlags(NO_FLAGS, fs), 0, 0, at, va) == Parsed(Spelling(fs, Omitted, None, ""), at, va)
  {
  }

  lemma WidthParsed(fmt: CString, j: nat, fs: string, width: Count, va: seq<Arg>)
    requires j + |CountText(width)| <= |fmt| && fmt[j..j + |CountText(width)|] == CountText(width)
    requires !IsDigit(At(fmt, j + |CountText(width)|)) && (width.Omitted? ==> At(fmt, j) != '*')
    requires width.Number? ==> AreDecimal(width.digits)
    ensures ParseWidth(fmt, Parsed(Spelling(fs, Omitted, None, ""), j, va))
         == Parsed(Spelling(fs, width, None, ""), j + |CountText(width)|, va)
  {
    hide ParseWidth, CountText, At, AreDecimal, IsDigit, NextInt, Fold;
    WidthIsRead(fmt, Parsed(Spelling(fs, Omitted, None, ""), j, va), width);
  }

  lemma PrecisionParsed(fmt: CString, k: nat, fs: string, width: Count, p: Option<Count>, va: seq<Arg>)
    requires k + |PrecisionText(p)| <= |fmt| && fmt[k..k + |PrecisionText(p)|] == PrecisionText(p)
    requires var c := At(fmt, k + |PrecisionText(p)|); !IsDigit(c) && c != '*' && c != '.'
    requires p.Some? && p.value.Number? ==> AreDecimal(p.value.digits)
    ensures ParsePrecision(fmt, Parsed(Spelling(fs, width, None, ""), k, va))
         == Parsed(Spelling(fs, width, p, ""), k + |PrecisionText(p)|, va)
  {
    hide ParsePrecision, PrecisionText, At, AreDecimal, IsDigit, NextInt, Fold;
    PrecisionIsRead(fmt, Parsed(Spelling(fs, width, None, ""), k, va), p);
  }

  lemma LengthParsed(fmt: CString, l: nat, sp: Spelling, va: seq<Arg>)
    requires IsSpelling(sp) && l + |sp.length| <= |fmt| && fmt[l..l + |sp.length|] == sp.length
    requires At(fmt, l + |sp.length|) !in "lhtjz"
    ensures ParseLength(fmt, Parsed(sp.(length := ""), l, va)) == Parsed(sp, l + |sp.length|, va)
  {
    hide ParseLength, At, CountValue, IsFlag, AreDecimal;
    LengthIsRead(fmt, Parsed(sp.(length := ""), l, va), sp.length);
  }

  lemma PartsReadBack(fmt: CString, i: nat, sp: Spelling, va: seq<Arg>)
    requires IsSpelling(sp)
    requires var w, p := CountText(sp.width), PrecisionText(sp.precision);
      var j := i + |sp.flags|; var k := j + |w|; var l := k + |p|; var m := l + |sp.length|;
      && m <= |fmt| && fmt[i..j] == sp.flags && fmt[j..k] == w && fmt[k..l] == p && fmt[l..m] == sp.length
      && !IsFlag(At(fmt, j)) && (sp.width.Omitted? ==> At(fmt, j) != '*')
      && !IsDigit(At(fmt, k))
      && !IsDigit(At(fmt, l)) && At(fmt, l) != '*' && At(fmt, l) != '.'
      && At(fmt, m) !in "lhtjz"
    ensures ParseSpec(fmt, i, va) == Parsed(sp, i + |SpellingText(sp)|, va)
  {
    hide ParseFlags, ParseWidth, ParsePrecision, ParseLength, IsFlag, IsDigit, CountText, PrecisionText, AreDecimal, At,
         Parsed, WithFlags;
    var j := i + |sp.flags|;
    var k := j + |CountText(sp.width)|;
    var l := k + |PrecisionText(sp.precision)|;
    FlagsAreRead(fmt, i, sp.flags, NO_FLAGS);
    FlagsParsed(sp.flags, j, va);
    WidthParsed(fmt, j, sp.flags, sp.width, va);
    PrecisionParsed(fmt, k, sp.flags, sp.width, sp.precision, va);
    assert Spelling(sp.flags, sp.width, sp.precision, "") == sp.(length := "");
    LengthParsed(fmt, l, sp, va);
  }

  /** The character behind each part cannot belong to it. */
  lemma NextAfter(fmt: CString, i: nat, sp: Spelling)
    requires Stands(fmt, i, sp)
    ensures var j := i + |sp.flags|; var k := j + |CountText(sp.width)|; var l := k + |PrecisionText(sp.precision)|;
      && !IsFlag(At(fmt, j)) && (sp.width.Omitted? ==> At(fmt, j) != '*')
      && !IsDigit(At(fmt, k))
      && !IsDigit(At(fmt, l)) && At(fmt, l) != '*' && At(fmt, l) != '.'
      && At(fmt, l + |sp.length|) !in "lhtjz"
  {
    var text := SpellingText(sp);
    var w, p := CountText(sp.width), PrecisionText(sp.precision);
    var j, k, l := i + |sp.flags|, i + |sp.flags| + |w|, i + |sp.flags| + |w| + |p|;
    PiecesOf(fmt, i, sp.flags, w, p, sp.length);
    var c := fmt[l + |sp.length|];
    assert fmt[l] == if sp.length != "" then sp.length[0] else c;
    assert fmt[k] == if p != "" then '.' else fmt[l];
    assert fmt[j] == if w != "" then w[0] else fmt[k];
  }

  /** What is read where a spelled-out specification stands in a format, followed by a conversion character. */
  lemma SpellingReadsBack(fmt: CString, i: nat, sp: Spelling, va: seq<Arg>)
    requires Stands(fmt, i, sp)
    ensures ParseSpec(fmt, i, va) == Parsed(sp, i + |SpellingText(sp)|, va)
  {
    hide ParseSpec, Parsed, IsFlag, IsDigit;
    PiecesOf(fmt, i, sp.flags, CountText(sp.width), PrecisionText(sp.precision), sp.length);
    NextAfter(fmt, i, sp);
    PartsReadBack(fmt, i, sp, va);
  }

  predicate NegativePrecision(sp: Spelling, va: seq<Arg>) {
    sp.precision.Some? && sp.precision.value.FromArgument? && NextInt(ArgsAfter(sp.width, va)) < 0
  }

  predicate CountsFit(sp: Spelling) {
    && (sp.width.Number? ==> Fold(sp.width.digits, 0, 10) < 0x1_0000_0000)
    && (PrecisionCount(sp).Number? ==> Fold(PrecisionCount(sp).digits, 0, 10) < 0x1_0000_0000)
  }

  /** A specification is read as what the standard means by it exactly if no precision argument is negative and every
      decimal count is below 2^32. */
  lemma ReadAsMeant(fmt: CString, i: nat, sp: Spelling, va: seq<Arg>)
    requires Stands(fmt, i, sp)
    ensures MeantBy(ParseSpec(fmt, i, va)) == Meaning(sp, va) <==> !NegativePrecision(sp, va) && CountsFit(sp)
  {
    hide ParseSpec, Fold, IsFlag, IsDigit, NextInt;
    SpellingReadsBack(fmt, i, sp, va);
  }

  // ---------- conversions and the standard ----------

  /** The argument of an integer conversion. */
  function Argument(m: Meant, c: char): int {
    if c == 'd' || c == 'i' then SignedArg(m.flags, NextWord(m.va)) else UnsignedArg(m.flags, NextWord(m.va))
  }

  function Magnitude(v: int): nat {
    if v > 0 then v else 0 - v
  }

  /** What the standard asks of an integer conversion: '0' yields to a precision, signs are for signed ones. */
  function IsoConversion(m: Meant, c: char): string {
    IsoText(Magnitude(Argument(m, c)), Argument(m, c) < 0, BaseOf(c), m.precision, m.width, IntegerFlags(m.flags, c))
  }

  predicate ConversionMeetsStandard(m: Meant, c: char) {
    var flags := IntegerFlags(m.flags, c);
    MeetsStandard(Magnitude(Argument(m, c)), SignText(Argument(m, c) < 0, flags), BaseOf(c), m.precision, m.width,
                  flags)
  }

  lemma SignedArgInRange(flags: Flags, bits: u64)
    ensures -0x8000_0000_0000_0000 <= SignedArg(flags, bits) < 0x8000_0000_0000_0000
  {
  }

  lemma ArgumentIsWord(m: Meant, c: char)
    ensures Magnitude(Argument(m, c)) < 0x1_0000_0000_0000_0000
    ensures Argument(m, c) < 0 ==> c == 'd' || c == 'i'
  {
    hide SignedArg;
    SignedArgInRange(m.flags, NextWord(m.va));
  }

  lemma SameArg(a: Flags, b: Flags, bits: u64)
    requires a.isLongLong == b.isLongLong && a.isLong == b.isLong && a.isChar == b.isChar && a.isShort == b.isShort
    ensures SignedArg(a, bits) == SignedArg(b, bits) && UnsignedArg(a, bits) == UnsignedArg(b, bits)
  {
    hide Narrow;
  }

  /** The printed text of a parsed specification. */
  lemma IntegerTextOf(s: Spec, c: char)
    ensures var v := Argument(MeantBy(s), c);
      IntegerText(s, c) == NumberText(Magnitude(v), v < 0, BaseOf(c), s.precision, s.width, IntegerFlags(s.flags, c))
  {
    hide NumberText, SignedArg, UnsignedArg, BaseOf;
    SameArg(s.flags, IntegerFlags(s.flags, c), NextWord(s.va));
  }

  /** Every integer conversion of the standard prints what the standard asks of the parsed specification exactly under
      this condition. */
  lemma ConversionIsIso(s: Spec, c: char)
    requires IsInteger(c) && c != 'b' && (!s.flags.precision ==> s.precision == 0)
    ensures IntegerText(s, c) == IsoConversion(MeantBy(s), c) <==> ConversionMeetsStandard(MeantBy(s), c)
  {
    hide NumberText, IsoText, MeetsStandard, Argument;
    var flags, v := IntegerFlags(s.flags, c), Argument(MeantBy(s), c);
    IntegerTextOf(s, c);
    ArgumentIsWord(MeantBy(s), c);
    NumberTextIsIso(Magnitude(v), v < 0, BaseOf(c), s.precision, s.width, flags);
  }

  /** A precision of 0 does as well as none: there are digits, and no zeros fill the width. */
  predicate NeedsNoPrecision(m: Meant, c: char) {
    && Argument(m, c) != 0
    && (m.flags.left || !m.flags.zeropad || m.width <= |IsoConversion(m.(width := 0), c)|)
  }

  /** The flags behind a negative precision, and what they were made from. */
  lemma FlagsWithPrecision(flags: Flags, c: char, value: u64)
    requires IsInteger(c) && c != 'b' && !flags.precision
    ensures var used := IntegerFlags(flags, c);
      && IntegerFlags(flags.(precision := true), c) == WithPrecision(used)
      && (used.hash ==> c != 'd' && c != 'i' && IsAlternative(value, BaseOf(c), 0, used))
      && !used.precision && used.left == flags.left && used.zeropad == flags.zeropad
    ensures BaseOf(c) == 8 || BaseOf(c) == 10 || BaseOf(c) == 16
  {
  }

  lemma IsoConversionOf(m: Meant, c: char)
    ensures var v := Argument(m, c);
      IsoConversion(m, c) == IsoText(Magnitude(v), v < 0, BaseOf(c), m.precision, m.width, IntegerFlags(m.flags, c))
  {
  }

  lemma SameArgument(a: Meant, b: Meant, c: char)
    requires a.va == b.va && a.flags.isLongLong == b.flags.isLongLong && a.flags.isLong == b.flags.isLong
    requires a.flags.isChar == b.flags.isChar && a.flags.isShort == b.flags.isShort
    ensures Argument(a, c) == Argument(b, c)
  {
    SameArg(a.flags, b.flags, NextWord(a.va));
    hide *;
  }

  /** A precision of 0 in the place of an omitted one. */
  lemma OmittedPrecisionIsIso(m: Meant, s: Spec, c: char)
    requires IsInteger(c) && c != 'b' && !m.flags.precision && m.precision == 0
    requires MeantBy(s) == m.(flags := m.flags.(precision := true))
    ensures IntegerText(s, c) == IsoConversion(m, c) <==> NeedsNoPrecision(m, c)
  {
    hide NumberText, IsoText, Argument, IntegerText, BaseOf, IsoConversion, IntegerFlags, IsInteger, IsAlternative;
    var v := Argument(m, c);
    SameArgument(m, MeantBy(s), c);
    SameArgument(m, m.(width := 0), c);
    IntegerTextOf(s, c);
    ArgumentIsWord(m, c);
    FlagsWithPrecision(m.flags, c, Magnitude(v));
    IsoConversionOf(m, c);
    IsoConversionOf(m.(width := 0), c);
    ZeroForNoPrecision(Magnitude(v), v < 0, BaseOf(c), m.width, IntegerFlags(m.flags, c));
  }

  /** A count from 2^32 on asks for a text longer than any that is printed. */
  lemma HugeCountDiffers(m: Meant, s: Spec, c: char)
    requires m.width >= 0x1_0000_0000 || m.precision >= 0x1_0000_0000
    ensures IntegerText(s, c) != IsoConversion(m, c)
  {
    hide NumberText, IsoText, Argument;
    var v := Argument(MeantBy(s), c);
    IntegerTextOf(s, c);
    NumberTextLength(Magnitude(v), v < 0, BaseOf(c), s.precision, s.width, IntegerFlags(s.flags, c));
    IsoTextLength(Magnitude(Argument(m, c)), Argument(m, c) < 0, BaseOf(c), m.precision, m.width,
                  IntegerFlags(m.flags, c));
  }

  /** When an integer conversion prints what the standard asks for. */
  predicate PrintsStandard(sp: Spelling, va: seq<Arg>, c: char) {
    var m := Meaning(sp, va);
    CountsFit(sp) && if NegativePrecision(sp, va) then NeedsNoPrecision(m, c) else ConversionMeetsStandard(m, c)
  }

  /** From the spelling on: wherever an integer conversion of the standard stands in a format, it prints what the
      standard asks of its spelling and arguments exactly under this condition. */
  lemma SpelledConversionIsIso(fmt: CString, i: nat, sp: Spelling, va: seq<Arg>, c: char)
    requires Stands(fmt, i, sp) && fmt[i + |SpellingText(sp)|] == c && IsInteger(c) && c != 'b'
    ensures IntegerText(ParseSpec(fmt, i, va), c) == IsoConversion(Meaning(sp, va), c) <==> PrintsStandard(sp, va, c)
  {
    hide ParseSpec, Fold, IsFlag, IsDigit, NextInt, IntegerText, IsoConversion, ConversionMeetsStandard,
         NeedsNoPrecision, SpellingText, IsSpelling, EndsSpecification;
    var s, m := ParseSpec(fmt, i, va), Meaning(sp, va);
    SpellingReadsBack(fmt, i, sp, va);
    ReadAsMeant(fmt, i, sp, va);
    if !CountsFit(sp) {
      HugeCountDiffers(m, s, c);
    } else if NegativePrecision(sp, va) {
      OmittedPrecisionIsIso(m, s, c);
    } else {
      ConversionIsIso(s, c);
    }
  }

  /** What the standard asks of an 's' conversion. */
  function IsoString(m: Meant): string {
    var text := NextText(m.va);
    Field(if m.flags.precision && m.precision < |text| then text[..m.precision] else text, m.width, m.flags)
  }

  lemma BlankField(text: string, width: nat, flags: Flags)
    ensures Field(text, width, flags) == Field("", width, flags)
       <==> |text| <= width && forall k :: 0 <= k < |text| ==> text[k] == ' '
  {
    hide Repeat;
    var field, blank := Field(text, width, flags), Field("", width, flags);
    assert |field| == Max(width, |text|) && |blank| == width;
    assert forall k :: 0 <= k < width ==> blank[k] == ' ';
    if field == blank {
      var from := if flags.left then 0 else width - |text|;
      forall k | 0 <= k < |text|
        ensures text[k] == ' '
      {
        assert field[from + k] == text[k];
      }
    }
  }

  lemma SameField(text: string, width: nat, a: Flags, b: Flags)
    requires a.left == b.left
    ensures Field(text, width, a) == Field(text, width, b)
  {
  }

  /** An 's' conversion prints what the standard asks for unless its precision argument is negative; then it prints
      nothing but blanks. */
  lemma SpelledStringIsIso(fmt: CString, i: nat, sp: Spelling, va: seq<Arg>)
    requires Stands(fmt, i, sp) && CountsFit(sp) && fmt[i + |SpellingText(sp)|] == 's'
    ensures var s, m := ParseSpec(fmt, i, va), Meaning(sp, va);
      Field(StringPart(s), s.width, s.flags) == IsoString(m)
      <==> !NegativePrecision(sp, va)
           || (|NextText(m.va)| <= m.width && forall k :: 0 <= k < |NextText(m.va)| ==> NextText(m.va)[k] == ' ')
  {
    hide ParseSpec, Fold, IsFlag, IsDigit, NextInt, SpellingText, IsSpelling, EndsSpecification, Field, NextText;
    var s, m := ParseSpec(fmt, i, va), Meaning(sp, va);
    SpellingReadsBack(fmt, i, sp, va);
    ReadAsMeant(fmt, i, sp, va);
    if NegativePrecision(sp, va) {
      assert StringPart(s) == "";
      BlankField(NextText(m.va), m.width, m.flags);
      SameField("", m.width, s.flags, m.flags);
    }
  }

  // ---------- reading a conversion back ----------

  /** The zeros leave a place for the sign. */
  predicate SignFits(s: Spec) {
    || s.flags.left
    || (s.precision < NTOA_BUFFER_SIZE && (s.flags.zeropad && !s.flags.precision ==> s.width <= NTOA_BUFFER_SIZE))
  }

  lemma PaddedLength(d: string, width: nat, s: Spec, flags: Flags)
    requires |d| <= 24 && flags == IntegerFlags(s.flags, 'd') && width == s.width
    ensures |Padded(d, true, s.precision, width, flags)| < NTOA_BUFFER_SIZE <==> SignFits(s)
  {
  }

  /** What a 'd' or 'i' conversion prints reads back as the argument exactly if the argument is not
      negative or the zeros leave a place for the sign. */
  lemma SignedConversionReadsBack(s: Spec, c: char)
    requires c == 'd' || c == 'i'
    ensures var v := SignedArg(s.flags, NextWord(s.va));
      ParseInt(IntegerText(s, c), 10) == v <==> v >= 0 || SignFits(s)
  {
    hide ParseInt, NumberText, LowDigits, SignedArg, Digits, Padded;
    var flags := IntegerFlags(s.flags, c);
    assert flags == IntegerFlags(s.flags, 'd');
    SameArg(s.flags, flags, NextWord(s.va));
    var v := SignedArg(s.flags, NextWord(s.va));
    SignedArgInRange(s.flags, NextWord(s.va));
    var m: u64 := if v > 0 then v else 0 - v;
    NumberReadsBack(m, v < 0, 10, s.precision, s.width, flags);
    BufferHoldsU64(m, 10);
    DecimalIsShort(m);
    DigitCount(m, 10, flags.uppercase, NTOA_BUFFER_SIZE, 24);
    PaddedLength(StartDigits(m, 10, flags), s.width, s, flags);
  }

  /** An unsigned conversion in base 8, 10 or 16 without '#' always reads back as its argument. */
  lemma UnsignedConversionReadsBack(s: Spec, c: char)
    requires c == 'u' || c == 'o' || c == 'x' || c == 'X'
    requires s.flags.hash ==> c == 'u' || UnsignedArg(s.flags, NextWord(s.va)) == 0
    ensures ParseInt(IntegerText(s, c), BaseOf(c)) == UnsignedArg(s.flags, NextWord(s.va))
  {
    hide ParseInt, NumberText, LowDigits, UnsignedArg, Digits, Padded;
    var flags := IntegerFlags(s.flags, c);
    SameArg(s.flags, flags, NextWord(s.va));
    var v := UnsignedArg(s.flags, NextWord(s.va));
    NumberReadsBack(v, false, BaseOf(c), s.precision, s.width, flags);
    BufferHoldsU64(v, BaseOf(c));
  }
}

module Printk {
  import opened Words
  import opened PrintkText
  import opened Formats
  import opened WholeFormats

  /** What a character buffer holds; nothing for a NULL buffer. */
  ghost function Chars(buffer: array?<char>): string
    reads buffer
  {
    if buffer == null then "" else buffer[..]
  }

  /** `s` with `piece` stored from idx on, as far as it lies below maxlen. */
  ghost function Put(s: string, idx: nat, maxlen: nat, piece: string): (r: string)
    ensures |r| == |s|
  {
    seq(|s|, k requires 0 <= k < |s| => if idx <= k < idx + |piece| && k < maxlen then piece[k - idx] else s[k])
  }

  lemma PutTwice(s: string, idx: nat, maxlen: nat, a: string, b: string)
    ensures Put(Put(s, idx, maxlen, a), idx + |a|, maxlen, b) == Put(s, idx, maxlen, a + b)
  {
  }

  lemma PutNothing(s: string, idx: nat, maxlen: nat)
    ensures Put(s, idx, maxlen, "") == s
  {
  }

  ghost predicate Bounded(buffer: array?<char>, maxlen: nat) {
    buffer != null ==> maxlen <= buffer.Length
  }

  lemma RoomOfBuffer(buffer: array?<char>, maxlen: nat)
    requires Bounded(buffer, maxlen)
    ensures Chars(buffer) == "" || maxlen <= |Chars(buffer)|
  {
  }

  /** _out_buffer, and _out_null for a NULL buffer. */
  method Out(c: char, buffer: array?<char>, idx: nat, maxlen: nat) returns (next: nat)
    requires Bounded(buffer, maxlen)
    modifies buffer
    ensures next == idx + 1 && Chars(buffer) == Put(old(Chars(buffer)), idx, maxlen, [c])
  {
    if buffer != null && idx < maxlen {
      buffer[idx] := c;
    }
    next := idx + 1;
  }

  /** Pads with spaces from `have` up to `want`. */
  method OutSpaces(buffer: array?<char>, idx: nat, maxlen: nat, have: nat, want: nat) returns (next: nat)
    requires Bounded(buffer, maxlen)
    modifies buffer
    ensures next == idx + |PadTo(' ', have, want)|
    ensures Chars(buffer) == Put(old(Chars(buffer)), idx, maxlen, PadTo(' ', have, want))
  {
    hide Put, Chars;
    next := idx;
    PutNothing(Chars(buffer), idx, maxlen);
    var l := have;
    while l < want
      invariant have <= l && (l <= want || l == have)
      invariant next == idx + (l - have)
      invariant Chars(buffer) == Put(old(Chars(buffer)), idx, maxlen, Repeat(' ', l - have))
    {
      PutTwice(old(Chars(buffer)), idx, maxlen, Repeat(' ', l - have), [' ']);
      next := Out(' ', buffer, next, maxlen);
      l := l + 1;
    }
  }

  lemma ReverseOfNothing()
    ensures Reverse("") == ""
  {
  }

  lemma ReverseNext(s: string, n: nat)
    requires n < |s|
    ensures Reverse(s[n..]) == Reverse(s[n + 1..]) + [s[n]]
  {
    assert s[n..][1..] == s[n + 1..];
  }

  /** Prints the buffer backwards between its padding. */
  method OutRev(buffer: array?<char>, idx: nat, maxlen: nat, buf: array<char>, len: nat, width: nat, flags: Flags)
    returns (next: nat)
    requires Bounded(buffer, maxlen) && len <= buf.Length && buf != buffer
    modifies buffer
    ensures next == idx + |Justified(buf[..len], width, flags)|
    ensures Chars(buffer) == Put(old(Chars(buffer)), idx, maxlen, Justified(buf[..len], width, flags))
  {
    hide Put, Chars, PadTo, Reverse;
    ghost var before := if !flags.left && !flags.zeropad then PadTo(' ', len, width) else "";
    ghost var c0 := Chars(buffer);
    PutNothing(c0, idx, maxlen);
    next := idx;
    if !flags.left && !flags.zeropad {
      next := OutSpaces(buffer, next, maxlen, len, width);
    }
    ghost var text := buf[..len];
    var n := len;
    assert text[n..] == "";
    assert Reverse("") == "" by {
      ReverseOfNothing();
    }
    assert before + "" == before;
    while n > 0
      invariant 0 <= n <= len && text == buf[..len]
      invariant next == idx + |before + Reverse(text[n..])|
      invariant Chars(buffer) == Put(c0, idx, maxlen, before + Reverse(text[n..]))
    {
      n := n - 1;
      ghost var done := before + Reverse(text[n + 1..]);
      PutTwice(c0, idx, maxlen, done, [text[n]]);
      ReverseNext(text, n);
      assert done + [text[n]] == before + Reverse(text[n..]);
      next := Out(buf[n], buffer, next, maxlen);
    }
    assert text[0..] == text;
    if flags.left {
      PutTwice(c0, idx, maxlen, before + Reverse(text), PadTo(' ', len, width));
      next := OutSpaces(buffer, next, maxlen, len, width);
    }
    assert before + Reverse(text) + "" == before + Reverse(text);
  }

  /** Appends zeros in the conversion buffer. */
  method FillZeros(buf: array<char>, len: nat, want: nat) returns (n: nat)
    requires buf.Length == NTOA_BUFFER_SIZE && len <= NTOA_BUFFER_SIZE
    modifies buf
    ensures n <= NTOA_BUFFER_SIZE && buf[..n] == Zeros(old(buf[..len]), want)
  {
    n := len;
    while n < want && n < NTOA_BUFFER_SIZE
      invariant len <= n <= NTOA_BUFFER_SIZE && (n <= want || n == len)
      invariant buf[..n] == old(buf[..len]) + Repeat('0', n - len)
    {
      buf[n] := '0';
      n := n + 1;
    }
  }

  method PushChar(buf: array<char>, len: nat, c: char) returns (n: nat)
    requires buf.Length == NTOA_BUFFER_SIZE && len <= NTOA_BUFFER_SIZE
    modifies buf
    ensures n <= NTOA_BUFFER_SIZE && buf[..n] == Push(old(buf[..len]), c)
  {
    n := len;
    if n < NTOA_BUFFER_SIZE {
      buf[n] := c;
      n := n + 1;
    }
  }

  /** The leading zeros of _ntoa_format; a sign takes one place of a zero-filled width. */
  method PadZeros(buf: array<char>, len0: nat, negative: bool, prec: u32, width0: u32, flags: Flags)
    returns (len: nat, width: u32)
    requires buf.Length == NTOA_BUFFER_SIZE && len0 <= NTOA_BUFFER_SIZE
    modifies buf
    ensures len <= NTOA_BUFFER_SIZE && buf[..len] == Padded(old(buf[..len0]), negative, prec, width0, flags)
    ensures width == ZeroWidth(negative, width0, flags)
  {
    hide Zeros;
    len, width := len0, width0;
    if !flags.left {
      if width > 0 && flags.zeropad && (negative || flags.plus || flags.space) {
        width := width - 1;
      }
      len := FillZeros(buf, len, prec);
      if flags.zeropad {
        len := FillZeros(buf, len, width);
      }
    }
  }

  /** The prefix of the alternative form. */
  method HashPrefix(buf: array<char>, len0: nat, base: u32, prec: u32, width: u32, flags: Flags) returns (len: nat)
    requires buf.Length == NTOA_BUFFER_SIZE && len0 <= NTOA_BUFFER_SIZE
    modifies buf
    ensures len <= NTOA_BUFFER_SIZE && buf[..len] == Hashed(old(buf[..len0]), base, prec, width, flags)
  {
    hide Push;
    len := len0;
    if flags.hash {
      if !flags.precision && len > 0 && (len == prec || len == width) {
        len := len - 1;
        if len > 0 && base == 16 {
          len := len - 1;
        }
      }
      assert buf[..len] == old(buf[..len0])[..len];
      if base == 16 && !flags.uppercase {
        len := PushChar(buf, len, 'x');
      } else if base == 16 && flags.uppercase {
        len := PushChar(buf, len, 'X');
      } else if base == 2 {
        len := PushChar(buf, len, 'b');
      }
      len := PushChar(buf, len, '0');
    }
  }

  method PushSign(buf: array<char>, len0: nat, negative: bool, flags: Flags) returns (len: nat)
    requires buf.Length == NTOA_BUFFER_SIZE && len0 <= NTOA_BUFFER_SIZE
    modifies buf
    ensures len <= NTOA_BUFFER_SIZE && buf[..len] == Signed(old(buf[..len0]), negative, flags)
  {
    hide Push;
    len := len0;
    if negative {
      len := PushChar(buf, len, '-');
    } else if flags.plus {
      len := PushChar(buf, len, '+');
    } else if flags.space {
      len := PushChar(buf, len, ' ');
    }
  }

  method NtoaFormat(buffer: array?<char>, idx: nat, maxlen: nat, buf: array<char>, len0: nat, negative: bool, base: u32,
                    prec: u32, width0: u32, flags: Flags) returns (next: nat)
    requires Bounded(buffer, maxlen) && buf != buffer && buf.Length == NTOA_BUFFER_SIZE && len0 <= NTOA_BUFFER_SIZE
    modifies buffer, buf
    ensures var text := Justified(ReversedNumber(old(buf[..len0]), negative, base, prec, width0, flags),
                                  ZeroWidth(negative, width0, flags), flags);
      next == idx + |text| && Chars(buffer) == Put(old(Chars(buffer)), idx, maxlen, text)
  {
    hide Put, Justified, Padded, Hashed, Signed, ZeroWidth;
    var len, width := PadZeros(buf, len0, negative, prec, width0, flags);
    len := HashPrefix(buf, len, base, prec, width, flags);
    len := PushSign(buf, len, negative, flags);
    next := OutRev(buffer, idx, maxlen, buf, len, width, flags);
  }

  lemma DigitsUnfold(value: nat, base: nat, uppercase: bool, room: nat)
    requires 2 <= base <= 16 && room >= 1
    ensures var s := Digits(value, base, uppercase, room);
      && s[0] == Digit(Last(value, base), uppercase)
      && s[1..] == if Rest(value, base) > 0 && room > 1
                   then Digits(Rest(value, base), base, uppercase, room - 1) else ""
  {
    hide Digit, Last, Rest;
  }

  lemma MoveOne(a: string, b: string)
    requires b != ""
    ensures a + b == a + [b[0]] + b[1..]
  {
  }

  /** The digit loop: least significant digit first, at most as many as fit. */
  method PutDigits(buf: array<char>, value0: u64, base: u32, uppercase: bool) returns (len: nat)
    requires 2 <= base <= 16 && buf.Length == NTOA_BUFFER_SIZE
    modifies buf
    ensures len <= NTOA_BUFFER_SIZE && buf[..len] == Digits(value0, base, uppercase, NTOA_BUFFER_SIZE)
  {
    hide Digit, Digits, Last, Rest;
    var value: nat := value0;
    len := 0;
    ghost var all := Digits(value, base, uppercase, NTOA_BUFFER_SIZE);
    ghost var left := all;
    var more := true;
    while more
      invariant 0 <= len <= NTOA_BUFFER_SIZE && all == buf[..len] + left
      invariant if more then len < NTOA_BUFFER_SIZE && left == Digits(value, base, uppercase, NTOA_BUFFER_SIZE - len)
                else left == ""
      decreases NTOA_BUFFER_SIZE - len
    {
      DigitsUnfold(value, base, uppercase, NTOA_BUFFER_SIZE - len);
      MoveOne(buf[..len], left);
      var digit := Digit(Last(value, base), uppercase);
      ghost var before := buf[..len];
      buf[len] := digit;
      len := len + 1;
      value := Rest(value, base);
      more := value > 0 && len < NTOA_BUFFER_SIZE;
      left := left[1..];
      assert buf[..len] == before + [digit];
    }
  }

  /** _ntoa_long and _ntoa_long_long, which do the same on a 64-bit target. */
  method NtoaLong(buffer: array?<char>, idx: nat, maxlen: nat, value: u64, negative: bool, base: u32, prec: u32,
                  width: u32, flags0: Flags) returns (next: nat)
    requires Bounded(buffer, maxlen) && 2 <= base <= 16
    modifies buffer
    ensures var text := NumberText(value, negative, base, prec, width, flags0);
      next == idx + |text| && Chars(buffer) == Put(old(Chars(buffer)), idx, maxlen, text)
  {
    hide Put, Justified, ReversedNumber, Digits, ZeroWidth;
    var buf := new char[NTOA_BUFFER_SIZE](_ => ' ');
    var flags := if value == 0 then flags0.(hash := false) else flags0;
    var len := 0;
    if !flags.precision || value != 0 {
      len := PutDigits(buf, value, base, flags.uppercase);
    }
    assert buf[..0] == "";
    assert buf[..len] == StartDigits(value, base, flags);
    next := NtoaFormat(buffer, idx, maxlen, buf, len, negative, base, prec, width, flags);
  }

  // ---------- the format ----------

  /** The decimal value, modulo 2^32, of the digits up to the first other character. */
  method Atoi(fmt: CString, f0: nat) returns (i: u32, f: nat)
    requires f0 <= |fmt|
    ensures (i, f) == ParseNumber(fmt, f0, 0)
    ensures f0 <= f <= |fmt| && (forall k :: f0 <= k < f ==> IsDigit(fmt[k])) && !IsDigit(At(fmt, f))
    ensures i == Fold(fmt[f0..f], 0, 10) % 0x1_0000_0000
  {
    NumberIsRead(fmt, f0, 0);
    i, f := 0, f0;
    while f < |fmt| && IsDigit(fmt[f])
      invariant ParseNumber(fmt, f, i) == ParseNumber(fmt, f0, 0)
      decreases |fmt| - f
    {
      i := (i * 10 + (fmt[f] - '0') as int) % 0x1_0000_0000;
      f := f + 1;
    }
  }

  method ReadFlags(fmt: CString, f0: nat) returns (flags: Flags, f: nat)
    ensures (flags, f) == ParseFlags(fmt, f0, NO_FLAGS)
  {
    flags, f := NO_FLAGS, f0;
    var n := true;
    while n
      invariant if n then ParseFlags(fmt, f, flags) == ParseFlags(fmt, f0, NO_FLAGS)
                else (flags, f) == ParseFlags(fmt, f0, NO_FLAGS)
      decreases |fmt| - f, n
    {
      if f < |fmt| && IsFlag(fmt[f]) {
        flags := WithFlag(flags, fmt[f]);
        f := f + 1;
      } else {
        n := false;
      }
    }
  }

  method ReadWidth(fmt: CString, s: Spec) returns (r: Spec)
    ensures r == ParseWidth(fmt, s)
  {
    r := s;
    if IsDigit(At(fmt, s.at)) {
      var w, f := Atoi(fmt, s.at);
      r := r.(width := w, at := f);
    } else if At(fmt, s.at) == '*' {
      var w := NextInt(s.va);
      if w < 0 {
        r := r.(flags := r.flags.(left := true), width := -w);
      } else {
        r := r.(width := w);
      }
      r := r.(at := s.at + 1, va := Following(s.va));
    }
  }

  method ReadPrecision(fmt: CString, s: Spec) returns (r: Spec)
    ensures r == ParsePrecision(fmt, s)
  {
    r := s;
    if At(fmt, s.at) == '.' {
      r := r.(flags := r.flags.(precision := true), at := s.at + 1);
      if IsDigit(At(fmt, r.at)) {
        var p, f := Atoi(fmt, r.at);
        r := r.(precision := p, at := f);
      } else if At(fmt, r.at) == '*' {
        var p := NextInt(r.va);
        r := r.(precision := if p > 0 then p else 0, at := r.at + 1, va := Following(r.va));
      }
    }
  }

  method ReadLength(fmt: CString, s: Spec) returns (r: Spec)
    ensures r == ParseLength(fmt, s)
  {
    r := s;
    var c := At(fmt, s.at);
    if c == 'l' {
      r := r.(flags := r.flags.(isLong := true), at := r.at + 1);
      if At(fmt, r.at) == 'l' {
        r := r.(flags := r.flags.(isLongLong := true), at := r.at + 1);
      }
    } else if c == 'h' {
      r := r.(flags := r.flags.(isShort := true), at := r.at + 1);
      if At(fmt, r.at) == 'h' {
        r := r.(flags := r.flags.(isChar := true), at := r.at + 1);
      }
    } else if c == 't' || c == 'j' || c == 'z' {
      r := r.(flags := r.flags.(isLong := true), at := r.at + 1);
    }
  }

  method ReadSpec(fmt: CString, f: nat, va: seq<Arg>) returns (r: Spec)
    ensures r == ParseSpec(fmt, f, va)
  {
    hide ParseFlags, ParseWidth, ParsePrecision, ParseLength;
    var flags, at := ReadFlags(fmt, f);
    r := ReadWidth(fmt, Spec(flags, 0, 0, at, va));
    r := ReadPrecision(fmt, r);
    r := ReadLength(fmt, r);
  }

  // ---------- printing ----------

  /** Padding, text, padding: the 'c' and 's' conversions.  The text ends at its end or after `len` characters. */
  method OutField(buffer: array?<char>, idx: nat, maxlen: nat, text: string, width: u32, flags: Flags)
    returns (next: nat)
    requires Bounded(buffer, maxlen)
    modifies buffer
    ensures next == idx + |Field(text, width, flags)|
    ensures Chars(buffer) == Put(old(Chars(buffer)), idx, maxlen, Field(text, width, flags))
  {
    hide Put, Chars, PadTo;
    ghost var c0 := Chars(buffer);
    ghost var before := if flags.left then "" else PadTo(' ', |text|, width);
    PutNothing(c0, idx, maxlen);
    next := idx;
    if !flags.left {
      next := OutSpaces(buffer, next, maxlen, |text|, width);
    }
    assert before + text[..0] == before;
    var p := 0;
    while p < |text|
      invariant 0 <= p <= |text| && next == idx + |before| + p
      invariant Chars(buffer) == Put(c0, idx, maxlen, before + text[..p])
    {
      PutTwice(c0, idx, maxlen, before + text[..p], [text[p]]);
      assert before + text[..p] + [text[p]] == before + text[..p + 1];
      next := Out(text[p], buffer, next, maxlen);
      p := p + 1;
    }
    assert text[..p] == text;
    assert flags.left ==> before + text == text;
    if flags.left {
      PutTwice(c0, idx, maxlen, before + text, PadTo(' ', |text|, width));
      next := OutSpaces(buffer, next, maxlen, |text|, width);
    }
  }

  lemma MagnitudeFits(flags: Flags, bits: u64)
    ensures -0x8000_0000_0000_0000 <= SignedArg(flags, bits) < 0x8000_0000_0000_0000
  {
  }

  method OutInteger(buffer: array?<char>, idx: nat, maxlen: nat, s: Spec, c: char) returns (next: nat)
    requires Bounded(buffer, maxlen) && IsInteger(c)
    modifies buffer
    ensures next == idx + |IntegerText(s, c)|
    ensures Chars(buffer) == Put(old(Chars(buffer)), idx, maxlen, IntegerText(s, c))
  {
    hide Put, Chars, NumberText, SignedArg, UnsignedArg;
    var base := BaseOf(c);
    var flags := IntegerFlags(s.flags, c);
    if c == 'd' || c == 'i' {
      var value := SignedArg(flags, NextWord(s.va));
      MagnitudeFits(flags, NextWord(s.va));
      next := NtoaLong(buffer, idx, maxlen, if value > 0 then value else 0 - value, value < 0, base,
                       s.precision, s.width, flags);
    } else {
      next := NtoaLong(buffer, idx, maxlen, UnsignedArg(flags, NextWord(s.va)), false, base, s.precision, s.width,
                       flags);
    }
  }

  method Convert(buffer: array?<char>, idx: nat, maxlen: nat, fmt: CString, s: Spec) returns (next: nat)
    requires Bounded(buffer, maxlen) && s.at < |fmt|
    modifies buffer
    ensures next == idx + |ConversionText(fmt, s)|
    ensures Chars(buffer) == Put(old(Chars(buffer)), idx, maxlen, ConversionText(fmt, s))
  {
    hide Put, Chars, NumberText, IntegerText, Field;
    var c := fmt[s.at];
    if IsInteger(c) {
      next := OutInteger(buffer, idx, maxlen, s, c);
    } else if c == 'c' {
      next := OutField(buffer, idx, maxlen, [(NextWord(s.va) % 0x100) as char], s.width, s.flags);
    } else if c == 's' {
      var p := NextText(s.va);
      var l := |p|;
      if s.flags.precision {
        l := if l < s.precision then l else s.precision;
      }
      assert p[..|p|] == p;
      next := OutField(buffer, idx, maxlen, p[..l], s.width, s.flags);
    } else if c == 'p' {
      next := NtoaLong(buffer, idx, maxlen, NextWord(s.va), false, 16, s.precision, 16, PointerFlags(s.flags));
    } else {
      next := Out(c, buffer, idx, maxlen);
    }
  }

  lemma RenderStep(fmt: CString, f: nat, va: seq<Arg>)
    requires Complete(fmt, f, va) && f < |fmt|
    ensures fmt[f] != '%' ==> Complete(fmt, f + 1, va) && Render(fmt, f, va) == [fmt[f]] + Render(fmt, f + 1, va)
    ensures fmt[f] == '%' ==>
      var s := ParseSpec(fmt, f + 1, va);
      && s.at < |fmt| && Complete(fmt, s.at + 1, ArgsBehind(fmt, s))
      && Render(fmt, f, va) == ConversionText(fmt, s) + Render(fmt, s.at + 1, ArgsBehind(fmt, s))
  {
    hide ConversionText, ParseSpec, ArgsBehind;
  }

  lemma RenderEnd(fmt: CString, f: nat, va: seq<Arg>)
    requires Complete(fmt, f, va) && f >= |fmt|
    ensures Render(fmt, f, va) == ""
  {
  }

  /** The first count - 1 characters of the output and a terminator; the rest of the buffer as it was. */
  ghost function Terminated(s: string, count: nat, text: string): (r: string)
    ensures |r| == |s|
    ensures var n := Min(|text|, count - 1);
      forall k :: 0 <= k < |s| ==>
        r[k] == if k < n then text[k] else if k == n && count > 0 then '\0' else s[k]
  {
    var n := Min(|text|, count - 1);
    seq(|s|, k requires 0 <= k < |s| => if k < n then text[k] else if k == n && count > 0 then '\0' else s[k])
  }

  lemma TerminatedIsPut(s: string, count: u64, text: string, last: nat)
    requires |s| == 0 || count <= |s|
    requires last == if |text| < count then |text| else (count - 1) % 0x1_0000_0000_0000_0000
    ensures Put(Put(s, 0, count, text), last, count, ['\0']) == Terminated(s, count, text)
  {
  }

  lemma WhateverThePieces(fmt: CString, va: seq<Arg>)
    requires Complete(fmt, 0, va)
    ensures forall ps: seq<Piece> :: ArePieces(ps) && FormatText(ps) == fmt ==> Render(fmt, 0, va) == Output(ps, va)
  {
    hide ArePieces, FormatText, Output, Render, Complete;
    forall ps: seq<Piece> | ArePieces(ps) && FormatText(ps) == fmt
      ensures Complete(fmt, 0, va) && Render(fmt, 0, va) == Output(ps, va)
    {
      FormatPrintsItsPieces(ps, va);
    }
  }

  /** _vsnprintf with the buffer output function: the return value is the length of the whole output, and the
      buffer holds as much of it as fits before the terminator. */
  method Vsnprintf(buffer: array?<char>, maxlen: u64, fmt: CString, va0: seq<Arg>) returns (length: nat)
    requires Bounded(buffer, maxlen) && Complete(fmt, 0, va0)
    modifies buffer
    ensures length == |Render(fmt, 0, va0)|
    ensures Chars(buffer) == Terminated(old(Chars(buffer)), maxlen, Render(fmt, 0, va0))
    ensures forall ps: seq<Piece> :: ArePieces(ps) && FormatText(ps) == fmt ==>
      length == |Output(ps, va0)| && Chars(buffer) == Terminated(old(Chars(buffer)), maxlen, Output(ps, va0))
  {
    hide Put, Chars, ConversionText, ParseSpec, ArgsBehind, Complete, Render, Output, FormatText, ArePieces;
    WhateverThePieces(fmt, va0);
    ghost var c0, all, done := Chars(buffer), Render(fmt, 0, va0), "";
    RoomOfBuffer(buffer, maxlen);
    PutNothing(c0, 0, maxlen);
    var f, idx, va := 0, 0, va0;
    assert done + Render(fmt, 0, va0) == all;
    while f < |fmt|
      invariant Complete(fmt, f, va) && all == done + Render(fmt, f, va)
      invariant idx == |done| && Chars(buffer) == Put(c0, 0, maxlen, done)
      decreases |fmt| - f
    {
      RenderStep(fmt, f, va);
      if fmt[f] != '%' {
        PutTwice(c0, 0, maxlen, done, [fmt[f]]);
        idx := Out(fmt[f], buffer, idx, maxlen);
        assert done + ([fmt[f]] + Render(fmt, f + 1, va)) == done + [fmt[f]] + Render(fmt, f + 1, va);
        done := done + [fmt[f]];
        f := f + 1;
      } else {
        var s := ReadSpec(fmt, f + 1, va);
        PutTwice(c0, 0, maxlen, done, ConversionText(fmt, s));
        idx := Convert(buffer, idx, maxlen, fmt, s);
        ghost var text, rest := ConversionText(fmt, s), Render(fmt, s.at + 1, ArgsBehind(fmt, s));
        assert done + (text + rest) == done + text + rest;
        done := done + text;
        va := ArgsBehind(fmt, s);
        f := s.at + 1;
      }
    }
    RenderEnd(fmt, f, va);
    assert done == all;
    length := idx;
    // termination; with a zero count the index lies beyond any buffer
    var last := if idx < maxlen then idx else (maxlen - 1) % 0x1_0000_0000_0000_0000;
    TerminatedIsPut(c0, maxlen, all, last);
    idx := Out('\0', buffer, last, maxlen);
  }

  /** snprintf_: the int it returns does not depend on the count. */
  method Snprintf(buffer: array?<char>, count: u64, fmt: CString, va: seq<Arg>) returns (result: int)
    requires Bounded(buffer, count) && Complete(fmt, 0, va)
    modifies buffer
    ensures result == AsInt32(|Render(fmt, 0, va)| % 0x1_0000_0000)
    ensures Chars(buffer) == Terminated(old(Chars(buffer)), count, Render(fmt, 0, va))
  {
    var length := Vsnprintf(buffer, count, fmt, va);
    result := AsInt32(length % 0x1_0000_0000);
  }
}
