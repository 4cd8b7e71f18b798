/** What the integer conversions of the kernel printf print (kernel/src/printk/printk.c;
    ISO C11, section 7.21.6.1).

    The conversions fill a 32-character buffer backwards, least significant digit first.
    `Reversed…` functions describe that buffer; `IsoText` is the layout the standard asks for. */
module PrintkText {
  import opened Words
  import opened Division

  const NTOA_BUFFER_SIZE: nat := 32

  datatype Flags = Flags(zeropad: bool, left: bool, plus: bool, space: bool, hash: bool, uppercase: bool,
                         isChar: bool, isShort: bool, isLong: bool, isLongLong: bool, precision: bool)

  const NO_FLAGS: Flags := Flags(false, false, false, false, false, false, false, false, false, false, false)

  function Repeat(c: char, n: nat): (s: string)
    ensures |s| == n && forall k :: 0 <= k < n ==> s[k] == c
  {
    if n == 0 then "" else Repeat(c, n - 1) + [c]
  }

  function PadTo(c: char, have: nat, want: nat): (s: string)
    ensures |s| == if have < want then want - have else 0
  {
    if have < want then Repeat(c, want - have) else ""
  }

  function Reverse(s: string): (r: string)
    ensures |r| == |s|
  {
    if s == "" then "" else Reverse(s[1..]) + [s[0]]
  }

  function Digit(d: nat, uppercase: bool): char
    requires d < 16
  {
    if d < 10 then '0' + d as char else (if uppercase then 'A' else 'a') + (d - 10) as char
  }

  function Last(value: nat, base: nat): (d: nat)
    requires base >= 2
    ensures d < base
  {
    value % base
  }

  function Rest(value: nat, base: nat): nat
    requires base >= 2
  {
    value / base
  }

  /** The digits of `value`, least significant first, at least one and at most `room` of them. */
  function Digits(value: nat, base: nat, uppercase: bool, room: nat): (s: string)
    requires 2 <= base <= 16 && room >= 1
    ensures 1 <= |s| <= room
    decreases room
  {
    [Digit(Last(value, base), uppercase)]
    + if Rest(value, base) > 0 && room > 1 then Digits(Rest(value, base), base, uppercase, room - 1) else ""
  }

  /** The digits a conversion starts from: none for 0 with a precision. */
  function StartDigits(value: nat, base: nat, flags: Flags): (s: string)
    requires 2 <= base <= 16
    ensures |s| <= NTOA_BUFFER_SIZE
  {
    if flags.precision && value == 0 then "" else Digits(value, base, flags.uppercase, NTOA_BUFFER_SIZE)
  }

  function Zeros(buf: string, want: nat): (r: string)
    requires |buf| <= NTOA_BUFFER_SIZE
    ensures |r| <= NTOA_BUFFER_SIZE && buf <= r
  {
    buf + PadTo('0', |buf|, Min(want, NTOA_BUFFER_SIZE))
  }

  /** Width left for digits when zeros fill it: a sign takes one place. */
  function ZeroWidth(negative: bool, width: nat, flags: Flags): nat {
    if !flags.left && width > 0 && flags.zeropad && (negative || flags.plus || flags.space) then width - 1 else width
  }

  function Padded(buf: string, negative: bool, prec: nat, width: nat, flags: Flags): (r: string)
    requires |buf| <= NTOA_BUFFER_SIZE
    ensures |r| <= NTOA_BUFFER_SIZE && buf <= r
  {
    if flags.left then buf
    else
      var p := Zeros(buf, prec);
      if flags.zeropad then Zeros(p, ZeroWidth(negative, width, flags)) else p
  }

  function Push(buf: string, c: char): (r: string)
    requires |buf| <= NTOA_BUFFER_SIZE
    ensures |r| <= NTOA_BUFFER_SIZE
  {
    if |buf| < NTOA_BUFFER_SIZE then buf + [c] else buf
  }

  /** The alternative form: when the digits fill the width or the precision exactly, places are
      taken back from them for the prefix. */
  function Hashed(buf: string, base: nat, prec: nat, width: nat, flags: Flags): (r: string)
    requires |buf| <= NTOA_BUFFER_SIZE
    ensures |r| <= NTOA_BUFFER_SIZE
  {
    if !flags.hash then buf
    else
      var n := |buf|;
      var takeBack := !flags.precision && n > 0 && (n == prec || n == width);
      var kept := if !takeBack then n else if n > 1 && base == 16 then n - 2 else n - 1;
      var cut := buf[..kept];
      var marked := if base == 16 then Push(cut, if flags.uppercase then 'X' else 'x')
                    else if base == 2 then Push(cut, 'b') else cut;
      Push(marked, '0')
  }

  function Signed(buf: string, negative: bool, flags: Flags): (r: string)
    requires |buf| <= NTOA_BUFFER_SIZE
    ensures |r| <= NTOA_BUFFER_SIZE
  {
    if negative then Push(buf, '-')
    else if flags.plus then Push(buf, '+')
    else if flags.space then Push(buf, ' ')
    else buf
  }

  /** The buffer after _ntoa_format. */
  function ReversedNumber(buf: string, negative: bool, base: nat, prec: nat, width: nat, flags: Flags): (r: string)
    requires |buf| <= NTOA_BUFFER_SIZE
    ensures |r| <= NTOA_BUFFER_SIZE
  {
    Signed(Hashed(Padded(buf, negative, prec, width, flags), base, prec, ZeroWidth(negative, width, flags), flags),
           negative, flags)
  }

  /** _out_rev: the buffer backwards, filled up with spaces to the width on one side. */
  function Justified(buf: string, width: nat, flags: Flags): string {
    (if !flags.left && !flags.zeropad then PadTo(' ', |buf|, width) else "")
    + Reverse(buf)
    + (if flags.left then PadTo(' ', |buf|, width) else "")
  }

  /** _ntoa_long and _ntoa_long_long. */
  function NumberText(value: nat, negative: bool, base: nat, prec: nat, width: nat, flags: Flags): string
    requires 2 <= base <= 16
  {
    var fl := if value == 0 then flags.(hash := false) else flags;
    Justified(ReversedNumber(StartDigits(value, base, fl), negative, base, prec, width, fl),
              ZeroWidth(negative, width, fl), fl)
  }

  // ---------- the layout of the standard ----------

  function SignText(negative: bool, flags: Flags): string {
    if negative then "-" else if flags.plus then "+" else if flags.space then " " else ""
  }

  /** A sign or prefix and a number, filled up to the width with leading spaces, with zeros behind the sign and the
      prefix ('0' without '-'), or with trailing spaces ('-'). */
  function Layout(lead: string, number: string, width: nat, flags: Flags): string {
    var n := |lead| + |number|;
    if flags.left then lead + number + PadTo(' ', n, width)
    else if flags.zeropad then lead + PadTo('0', n, width) + number
    else PadTo(' ', n, width) + lead + number
  }

  /** Zeros up to the precision, digits. */
  function PlainNumber(value: nat, base: nat, prec: nat, flags: Flags): string
    requires 2 <= base <= 16
  {
    var digits := Reverse(StartDigits(value, base, flags));
    PadTo('0', |digits|, prec) + digits
  }

  /** What the standard asks for without '#'. */
  function PlainText(value: nat, negative: bool, base: nat, prec: nat, width: nat, flags: Flags): string
    requires 2 <= base <= 16
  {
    Layout(SignText(negative, flags), PlainNumber(value, base, prec, flags), width, flags)
  }

  /** '#' prefixes a non-zero hexadecimal number. */
  function IsoPrefix(value: nat, base: nat, flags: Flags): string {
    if flags.hash && base == 16 && value != 0 then if flags.uppercase then "0X" else "0x" else ""
  }

  /** '#' raises the precision of an octal number, if necessary, so that it begins with a zero. */
  function IsoNumber(value: nat, base: nat, prec: nat, flags: Flags): string
    requires 2 <= base <= 16
  {
    var number := PlainNumber(value, base, prec, flags);
    if flags.hash && base == 8 && (number == "" || number[0] != '0') then "0" + number else number
  }

  /** The text the standard asks for. */
  function IsoText(value: nat, negative: bool, base: nat, prec: nat, width: nat, flags: Flags): string
    requires 2 <= base <= 16
  {
    Layout(SignText(negative, flags) + IsoPrefix(value, base, flags), IsoNumber(value, base, prec, flags), width, flags)
  }

  lemma IsoIsPlain(value: nat, negative: bool, base: nat, prec: nat, width: nat, flags: Flags)
    requires 2 <= base <= 16 && !flags.hash
    ensures IsoText(value, negative, base, prec, width, flags) == PlainText(value, negative, base, prec, width, flags)
  {
    assert SignText(negative, flags) + "" == SignText(negative, flags);
  }

  // ---------- reversal ----------

  lemma {:induction false} ReverseAppend(a: string, b: string)
    ensures Reverse(a + b) == Reverse(b) + Reverse(a)
    decreases |a|
  {
    if a == "" {
      assert a + b == b;
    } else {
      assert (a + b)[1..] == a[1..] + b;
      ReverseAppend(a[1..], b);
    }
  }

  lemma {:induction false} ReverseAt(s: string, k: nat)
    requires k < |s|
    ensures Reverse(s)[k] == s[|s| - 1 - k]
    decreases |s|
  {
    if k < |s| - 1 {
      ReverseAt(s[1..], k);
    }
  }

  lemma ReversePad(c: char, have: nat, want: nat)
    ensures Reverse(PadTo(c, have, want)) == PadTo(c, have, want)
  {
    var p := PadTo(c, have, want);
    forall k | 0 <= k < |p|
      ensures Reverse(p)[k] == p[k]
    {
      ReverseAt(p, k);
    }
  }

  lemma ReverseOne(c: char)
    ensures Reverse([c]) == [c]
  {
    assert [c][1..] == "";
  }

  // ---------- the layout ----------

  /** The digits, the zeros and the sign find room in the conversion buffer. */
  predicate FitsBuffer(n: nat, sign: nat, prec: nat, width: nat, flags: Flags) {
    && n + sign <= NTOA_BUFFER_SIZE
    && (!flags.left ==> prec + sign <= NTOA_BUFFER_SIZE)
    && (!flags.left && flags.zeropad ==> width <= NTOA_BUFFER_SIZE)
  }

  lemma SignedIsSign(buf: string, negative: bool, flags: Flags)
    requires |buf| + |SignText(negative, flags)| <= NTOA_BUFFER_SIZE
    ensures Signed(buf, negative, flags) == buf + SignText(negative, flags)
    ensures Reverse(Signed(buf, negative, flags)) == SignText(negative, flags) + Reverse(buf)
  {
    var sign := SignText(negative, flags);
    ReverseAppend(buf, sign);
    if sign != "" {
      ReverseOne(sign[0]);
    }
  }

  lemma RightJustifiedBuffer(d: string, negative: bool, base: nat, prec: nat, width: nat, flags: Flags)
    requires 2 <= base <= 16 && !flags.hash && !flags.left && !flags.zeropad && |d| <= NTOA_BUFFER_SIZE
    requires FitsBuffer(|d|, |SignText(negative, flags)|, prec, width, flags)
    ensures var p := d + PadTo('0', |d|, prec);
      && |p| + |SignText(negative, flags)| <= NTOA_BUFFER_SIZE && ZeroWidth(negative, width, flags) == width
      && ReversedNumber(d, negative, base, prec, width, flags) == Signed(p, negative, flags)
  {
    hide Signed, Reverse;
  }

  lemma RightJustifiedIsPlain(value: nat, negative: bool, base: nat, prec: nat, width: nat, flags: Flags)
    requires 2 <= base <= 16 && !flags.hash && !flags.left && !flags.zeropad
    requires FitsBuffer(|StartDigits(value, base, flags)|, |SignText(negative, flags)|, prec, width, flags)
    ensures NumberText(value, negative, base, prec, width, flags)
         == PlainText(value, negative, base, prec, width, flags)
  {
    hide StartDigits, SignText, Signed, Reverse, PadTo, ReversedNumber, ZeroWidth;
    var d := StartDigits(value, base, flags);
    var sign := SignText(negative, flags);
    var zeros := PadTo('0', |d|, prec);
    RightJustifiedBuffer(d, negative, base, prec, width, flags);
    ReverseAppend(d, zeros);
    ReversePad('0', |d|, prec);
    SignedIsSign(d + zeros, negative, flags);
    var r := Signed(d + zeros, negative, flags);
    var pad := PadTo(' ', |r|, width);
    assert Justified(r, width, flags) == pad + (sign + (zeros + Reverse(d))) == pad + sign + (zeros + Reverse(d));
  }

  lemma ZeroFilledBuffer(d: string, negative: bool, base: nat, prec: nat, width: nat, flags: Flags)
    requires 2 <= base <= 16 && !flags.hash && !flags.left && flags.zeropad && |d| <= NTOA_BUFFER_SIZE
    requires FitsBuffer(|d|, |SignText(negative, flags)|, prec, width, flags)
    ensures var p := d + PadTo('0', |d|, prec); var fill := PadTo('0', |p|, ZeroWidth(negative, width, flags));
      && |p + fill| + |SignText(negative, flags)| <= NTOA_BUFFER_SIZE
      && ReversedNumber(d, negative, base, prec, width, flags) == Signed(p + fill, negative, flags)
  {
    hide Signed, Reverse;
  }

  lemma ReverseZeroFilled(d: string, prec: nat, zw: nat)
    ensures var zeros := PadTo('0', |d|, prec); var fill := PadTo('0', |d + zeros|, zw);
      Reverse(d + zeros + fill) == fill + (zeros + Reverse(d))
  {
    hide Reverse, PadTo;
    var zeros := PadTo('0', |d|, prec);
    ReverseAppend(d, zeros);
    ReversePad('0', |d|, prec);
    ReverseAppend(d + zeros, PadTo('0', |d + zeros|, zw));
    ReversePad('0', |d + zeros|, zw);
  }

  lemma ZeroWidthLeavesTheSign(n: nat, negative: bool, width: nat, flags: Flags)
    requires !flags.left && flags.zeropad
    ensures var zw, s := ZeroWidth(negative, width, flags), |SignText(negative, flags)|;
      zw - n == width - (s + n) || (zw <= n && width <= s + n)
  {
  }

  lemma SamePad(c: char, have: nat, want: nat, have': nat, want': nat)
    requires want - have == want' - have' || (want <= have && want' <= have')
    ensures PadTo(c, have, want) == PadTo(c, have', want')
  {
  }

  lemma ZeroFilledIsPlain(value: nat, negative: bool, base: nat, prec: nat, width: nat, flags: Flags)
    requires 2 <= base <= 16 && !flags.hash && !flags.left && flags.zeropad
    requires FitsBuffer(|StartDigits(value, base, flags)|, |SignText(negative, flags)|, prec, width, flags)
    ensures NumberText(value, negative, base, prec, width, flags)
         == PlainText(value, negative, base, prec, width, flags)
  {
    hide StartDigits, Signed, Reverse, PadTo, SignText, ReversedNumber, ZeroWidth;
    var d := StartDigits(value, base, flags);
    var sign := SignText(negative, flags);
    var zw := ZeroWidth(negative, width, flags);
    var zeros := PadTo('0', |d|, prec);
    var fill := PadTo('0', |d + zeros|, zw);
    ZeroFilledBuffer(d, negative, base, prec, width, flags);
    ReverseZeroFilled(d, prec, zw);
    SignedIsSign(d + zeros + fill, negative, flags);
    ZeroWidthLeavesTheSign(|d + zeros|, negative, width, flags);
    SamePad('0', |d + zeros|, zw, |sign| + |zeros + Reverse(d)|, width);
    var r := Signed(d + zeros + fill, negative, flags);
    assert Justified(r, zw, flags) == Reverse(r);
    assert sign + (fill + (zeros + Reverse(d))) == sign + fill + (zeros + Reverse(d));
  }

  lemma LeftJustifiedText(value: nat, negative: bool, base: nat, prec: nat, width: nat, flags: Flags)
    requires 2 <= base <= 16 && !flags.hash && flags.left
    requires FitsBuffer(|StartDigits(value, base, flags)|, |SignText(negative, flags)|, prec, width, flags)
    ensures var d := StartDigits(value, base, flags); var sign := SignText(negative, flags);
      NumberText(value, negative, base, prec, width, flags) == sign + Reverse(d) + PadTo(' ', |sign| + |d|, width)
  {
    hide StartDigits, SignText, Signed, Reverse, PadTo;
    var d := StartDigits(value, base, flags);
    SignedIsSign(d, negative, flags);
    assert ReversedNumber(d, negative, base, prec, width, flags) == Signed(d, negative, flags);
  }

  lemma {:induction false} DigitsAreNotSigns(value: nat, base: nat, uppercase: bool, room: nat)
    requires 2 <= base <= 16 && room >= 1
    ensures forall k :: 0 <= k < |Digits(value, base, uppercase, room)| ==>
      Digits(value, base, uppercase, room)[k] !in "+- "
    decreases room
  {
    if Rest(value, base) > 0 && room > 1 {
      DigitsAreNotSigns(Rest(value, base), base, uppercase, room - 1);
    }
  }

  /** The zeros of a precision and the digits contain no blank. */
  lemma NoBlank(value: nat, base: nat, prec: nat, flags: Flags, k: nat)
    requires 2 <= base <= 16 && k < |PlainNumber(value, base, prec, flags)|
    ensures PlainNumber(value, base, prec, flags)[k] != ' '
  {
    hide Reverse, Digits;
    var d := StartDigits(value, base, flags);
    var zeros := |PadTo('0', |d|, prec)|;
    if k >= zeros {
      ReverseAt(d, k - zeros);
      DigitsAreNotSigns(value, base, flags.uppercase, NTOA_BUFFER_SIZE);
    }
  }

  lemma LeftJustifiedIsPlain(value: nat, negative: bool, base: nat, prec: nat, width: nat, flags: Flags)
    requires 2 <= base <= 16 && !flags.hash && flags.left
    requires FitsBuffer(|StartDigits(value, base, flags)|, |SignText(negative, flags)|, prec, width, flags)
    ensures NumberText(value, negative, base, prec, width, flags)
         == PlainText(value, negative, base, prec, width, flags)
       <==> prec <= |StartDigits(value, base, flags)|
  {
    hide SignText, Reverse, StartDigits, NumberText;
    LeftJustifiedText(value, negative, base, prec, width, flags);
    var d, sign := StartDigits(value, base, flags), SignText(negative, flags);
    if prec > |d| {
      var at := |sign| + |d|;
      var iso, text := PlainText(value, negative, base, prec, width, flags),
        NumberText(value, negative, base, prec, width, flags);
      NoBlank(value, base, prec, flags, |d|);
      assert iso[at] == PlainNumber(value, base, prec, flags)[|d|];
      assert |text| == if at < width then width else at;
      assert at < width ==> text[at] == ' ';
    } else {
      assert PadTo('0', |d|, prec) == "";
      assert "" + Reverse(d) == Reverse(d);
    }
  }

  /** When the text is the one the standard asks for: '-' must not have zeros to add, and digits, zeros and sign must
      find room in the buffer; a blank sign may get lost among the blanks in front of it. */
  predicate KeepsLayout(n: nat, sign: string, prec: nat, width: nat, flags: Flags) {
    if flags.left then n + |sign| <= NTOA_BUFFER_SIZE && prec <= n
    else if flags.zeropad then FitsBuffer(n, |sign|, prec, width, flags)
    else Max(n, prec) + |sign| <= NTOA_BUFFER_SIZE
         || (Max(n, prec) == NTOA_BUFFER_SIZE && sign == " " && width > NTOA_BUFFER_SIZE)
  }

  lemma SignIsShort(negative: bool, flags: Flags)
    ensures |SignText(negative, flags)| <= 1
    ensures SignText(negative, flags) != "" ==> SignText(negative, flags)[0] in "+- "
  {
  }

  lemma FullBufferTakesNoSign(buf: string, negative: bool, flags: Flags)
    requires |buf| == NTOA_BUFFER_SIZE
    ensures Signed(buf, negative, flags) == buf
  {
  }

  lemma LeftSignIsLost(value: nat, negative: bool, base: nat, prec: nat, width: nat, flags: Flags)
    requires 2 <= base <= 16 && !flags.hash && flags.left
    requires |StartDigits(value, base, flags)| + |SignText(negative, flags)| > NTOA_BUFFER_SIZE
    ensures NumberText(value, negative, base, prec, width, flags)
         != PlainText(value, negative, base, prec, width, flags)
  {
    hide Signed, Reverse, PadTo, Digits, SignText;
    SignIsShort(negative, flags);
    var d, sign := StartDigits(value, base, flags), SignText(negative, flags);
    FullBufferTakesNoSign(d, negative, flags);
    assert NumberText(value, negative, base, prec, width, flags) == "" + Reverse(d) + PadTo(' ', |d|, width);
    ReverseAt(d, 0);
    DigitsAreNotSigns(value, base, flags.uppercase, NTOA_BUFFER_SIZE);
    assert NumberText(value, negative, base, prec, width, flags)[0] == d[|d| - 1];
    assert PlainText(value, negative, base, prec, width, flags)[0] == sign[0];
  }

  lemma PlainLength(value: nat, negative: bool, base: nat, prec: nat, width: nat, flags: Flags)
    requires 2 <= base <= 16
    ensures |PlainText(value, negative, base, prec, width, flags)|
         == Max(width, |SignText(negative, flags)| + Max(|StartDigits(value, base, flags)|, prec))
  {
    hide SignText, StartDigits;
  }

  lemma ZeroFilledIsCut(value: nat, negative: bool, base: nat, prec: nat, width: nat, flags: Flags)
    requires 2 <= base <= 16 && !flags.hash && !flags.left && flags.zeropad
    requires !FitsBuffer(|StartDigits(value, base, flags)|, |SignText(negative, flags)|, prec, width, flags)
    ensures |NumberText(value, negative, base, prec, width, flags)|
          < |PlainText(value, negative, base, prec, width, flags)|
  {
    hide StartDigits, SignText, ReversedNumber, ZeroWidth, PlainText;
    PlainLength(value, negative, base, prec, width, flags);
  }

  /** With zeros beyond the buffer, or with all of it taken, the number stands in the buffer without its sign. */
  lemma FullBufferText(value: nat, negative: bool, base: nat, prec: nat, width: nat, flags: Flags)
    requires 2 <= base <= 16 && !flags.hash && !flags.left && !flags.zeropad
    requires Max(|StartDigits(value, base, flags)|, prec) >= NTOA_BUFFER_SIZE
    ensures var d := StartDigits(value, base, flags);
      NumberText(value, negative, base, prec, width, flags)
      == PadTo(' ', NTOA_BUFFER_SIZE, width) + (PadTo('0', |d|, Min(prec, NTOA_BUFFER_SIZE)) + Reverse(d))
  {
    hide StartDigits, SignText, Signed, Reverse, PadTo;
    var d := StartDigits(value, base, flags);
    var zeros := PadTo('0', |d|, Min(prec, NTOA_BUFFER_SIZE));
    FullBufferTakesNoSign(d + zeros, negative, flags);
    ReverseAppend(d, zeros);
    ReversePad('0', |d|, Min(prec, NTOA_BUFFER_SIZE));
    assert ReversedNumber(d, negative, base, prec, width, flags) == d + zeros;
  }

  lemma RightJustifiedIsCut(value: nat, negative: bool, base: nat, prec: nat, width: nat, flags: Flags)
    requires 2 <= base <= 16 && !flags.hash && !flags.left && !flags.zeropad && prec > NTOA_BUFFER_SIZE
    ensures NumberText(value, negative, base, prec, width, flags)
         != PlainText(value, negative, base, prec, width, flags)
  {
    hide StartDigits, SignText, NumberText, Reverse;
    PlainLength(value, negative, base, prec, width, flags);
    FullBufferText(value, negative, base, prec, width, flags);
    var text, iso := NumberText(value, negative, base, prec, width, flags),
      PlainText(value, negative, base, prec, width, flags);
    if |text| == |iso| {
      var at := width - NTOA_BUFFER_SIZE - 1;
      assert text[at] == ' ';
      assert iso[at] == '0';
    }
  }

  lemma RightSignIsLost(value: nat, negative: bool, base: nat, prec: nat, width: nat, flags: Flags)
    requires 2 <= base <= 16 && !flags.hash && !flags.left && !flags.zeropad
    requires Max(|StartDigits(value, base, flags)|, prec) == NTOA_BUFFER_SIZE && |SignText(negative, flags)| == 1
    ensures NumberText(value, negative, base, prec, width, flags)
         == PlainText(value, negative, base, prec, width, flags)
       <==> SignText(negative, flags) == " " && width > NTOA_BUFFER_SIZE
  {
    hide StartDigits, SignText, NumberText, Reverse;
    PlainLength(value, negative, base, prec, width, flags);
    FullBufferText(value, negative, base, prec, width, flags);
    var d, sign := StartDigits(value, base, flags), SignText(negative, flags);
    var number := PadTo('0', |d|, prec) + Reverse(d);
    if width > NTOA_BUFFER_SIZE {
      var pad := PadTo(' ', NTOA_BUFFER_SIZE + 1, width);
      assert PadTo(' ', NTOA_BUFFER_SIZE, width) == pad + " ";
      assert NumberText(value, negative, base, prec, width, flags) == pad + " " + number;
      assert PlainText(value, negative, base, prec, width, flags) == pad + sign + number;
      assert (pad + sign + number)[|pad|] == sign[0] && (pad + " " + number)[|pad|] == ' ';
    }
  }

  lemma HashIsForNonzero(value: nat, negative: bool, base: nat, prec: nat, width: nat, flags: Flags)
    requires 2 <= base <= 16 && (flags.hash ==> value == 0)
    ensures NumberText(value, negative, base, prec, width, flags)
         == NumberText(value, negative, base, prec, width, flags.(hash := false))
  {
    hide ReversedNumber, Justified, ZeroWidth, StartDigits;
    if !flags.hash {
      assert flags.(hash := false) == flags;
    }
  }

  lemma PlainIgnoresHash(value: nat, negative: bool, base: nat, prec: nat, width: nat, flags: Flags)
    requires 2 <= base <= 16
    ensures PlainText(value, negative, base, prec, width, flags)
         == PlainText(value, negative, base, prec, width, flags.(hash := false))
    ensures StartDigits(value, base, flags) == StartDigits(value, base, flags.(hash := false))
    ensures SignText(negative, flags) == SignText(negative, flags.(hash := false))
  {
    hide Reverse, PadTo, Digits;
    var fl := flags.(hash := false);
    assert fl.precision == flags.precision && fl.uppercase == flags.uppercase;
    assert StartDigits(value, base, flags) == StartDigits(value, base, fl);
    assert SignText(negative, flags) == SignText(negative, fl);
  }

  /** Without '#', or for 0, the printed text is the plain layout of the standard exactly under that condition. */
  lemma NumberTextIsPlain(value: nat, negative: bool, base: nat, prec: nat, width: nat, flags: Flags)
    requires 2 <= base <= 16 && (flags.hash ==> value == 0)
    ensures NumberText(value, negative, base, prec, width, flags)
         == PlainText(value, negative, base, prec, width, flags)
       <==> KeepsLayout(|StartDigits(value, base, flags)|, SignText(negative, flags), prec, width, flags)
  {
    hide NumberText, PlainText, SignText, Reverse, PadTo, StartDigits;
    var fl := flags.(hash := false);
    var n, sign := |StartDigits(value, base, fl)|, SignText(negative, fl);
    HashIsForNonzero(value, negative, base, prec, width, flags);
    PlainIgnoresHash(value, negative, base, prec, width, flags);
    SignIsShort(negative, fl);
    if fl.left {
      if n + |sign| <= NTOA_BUFFER_SIZE {
        LeftJustifiedIsPlain(value, negative, base, prec, width, fl);
      } else {
        LeftSignIsLost(value, negative, base, prec, width, fl);
      }
    } else if fl.zeropad {
      if FitsBuffer(n, |sign|, prec, width, fl) {
        ZeroFilledIsPlain(value, negative, base, prec, width, fl);
      } else {
        ZeroFilledIsCut(value, negative, base, prec, width, fl);
      }
    } else if FitsBuffer(n, |sign|, prec, width, fl) {
      RightJustifiedIsPlain(value, negative, base, prec, width, fl);
    } else if prec > NTOA_BUFFER_SIZE {
      RightJustifiedIsCut(value, negative, base, prec, width, fl);
    } else {
      RightSignIsLost(value, negative, base, prec, width, fl);
    }
  }

  // ---------- reading a number back ----------

  function Pow(base: nat, n: nat): nat {
    if n == 0 then 1 else base * Pow(base, n - 1)
  }

  /** Value of a digit in bases up to 16; 16 for any other character. */
  function DigitValue(c: char): (d: nat)
    ensures d <= 16
  {
    if '0' <= c <= '9' then (c - '0') as nat
    else if 'a' <= c <= 'f' then (c - 'a') as nat + 10
    else if 'A' <= c <= 'F' then (c - 'A') as nat + 10
    else 16
  }

  predicate AreDigits(s: string, base: nat) {
    forall k :: 0 <= k < |s| ==> DigitValue(s[k]) < base
  }

  /** Reads digits as long as there are any. */
  function ReadDigits(s: string, acc: nat, base: nat): nat {
    if s == "" || DigitValue(s[0]) >= base then acc
    else ReadDigits(s[1..], acc * base + DigitValue(s[0]), base)
  }

  /** Blanks, an optional sign, digits: what strtol reads. */
  function ParseInt(s: string, base: nat): int {
    if s == "" then 0
    else if s[0] == ' ' then ParseInt(s[1..], base)
    else if s[0] == '-' then 0 - ReadDigits(s[1..], 0, base) as int
    else if s[0] == '+' then ReadDigits(s[1..], 0, base)
    else ReadDigits(s, 0, base)
  }

  /** Value of digits stored least significant first. */
  function ReversedValue(s: string, base: nat): nat {
    if s == "" then 0 else DigitValue(s[0]) + base * ReversedValue(s[1..], base)
  }

  lemma PowPositive(base: nat, n: nat)
    requires base >= 2
    ensures Pow(base, n) >= 1
  {
  }

  /** The value of the low n digits. */
  function LowDigits(value: nat, base: nat, n: nat): nat
    requires base >= 2
  {
    PowPositive(base, n);
    value % Pow(base, n)
  }

  lemma NestedQuotients(v: nat, base: nat, p: nat, q: nat, r: nat, k: nat, t: nat)
    requires v == base * q + r && r < base && q == p * k + t && t < p
    ensures v == base * p * k + (base * t + r) && base * t + r < base * p
  {
    Distributes(base, p * k, t);
    Associates(base, p, k);
    AtLeastOnce(base, p - t);
    Distributes(base, t, p - t);
  }

  /** One more digit of a remainder. */
  lemma LowDigitsNext(v: nat, base: nat, n: nat)
    requires base >= 2
    ensures LowDigits(v, base, n + 1) == Last(v, base) + base * LowDigits(Rest(v, base), base, n)
  {
    PowPositive(base, n);
    PowPositive(base, n + 1);
    var p := Pow(base, n);
    QuotientAndRemainder(v, base);
    QuotientAndRemainder(v / base, p);
    NestedQuotients(v, base, p, v / base, v % base, v / base / p, v / base % p);
    DivisionIsUnique(v, base * p, v / base / p, base * (v / base % p) + v % base);
  }

  lemma DigitRoundTrip(d: nat, uppercase: bool)
    requires d < 16
    ensures DigitValue(Digit(d, uppercase)) == d
  {
  }

  lemma NoDigitsLeft(value: nat, base: nat, n: nat)
    requires base >= 2 && (value == 0 || n == 0)
    ensures LowDigits(value, base, n) == 0
  {
    PowPositive(base, n);
    if n == 0 {
      DivisionIsUnique(value, 1, value, 0);
    } else {
      DivisionIsUnique(0, Pow(base, n), 0, 0);
    }
  }

  /** The digits in the buffer are the value, up to the number of digits that fit. */
  lemma {:induction false} DigitsValue(value: nat, base: nat, uppercase: bool, room: nat)
    requires 2 <= base <= 16 && room >= 1
    ensures AreDigits(Digits(value, base, uppercase, room), base)
    ensures ReversedValue(Digits(value, base, uppercase, room), base) == LowDigits(value, base, room)
    decreases room
  {
    hide Digit, DigitValue, LowDigits, Last, Rest;
    var s := Digits(value, base, uppercase, room);
    DigitRoundTrip(Last(value, base), uppercase);
    LowDigitsNext(value, base, room - 1);
    if Rest(value, base) > 0 && room > 1 {
      DigitsValue(Rest(value, base), base, uppercase, room - 1);
      assert s[1..] == Digits(Rest(value, base), base, uppercase, room - 1);
    } else {
      assert s[1..] == "";
      NoDigitsLeft(Rest(value, base), base, room - 1);
    }
  }

  lemma MulMonotone(a: nat, b: nat, x: nat, y: nat)
    requires a <= b && x <= y
    ensures a * x <= b * y
  {
    assert a * x <= a * y;
    assert a * y <= b * y;
  }

  lemma {:induction false} PowMonotone(a: nat, b: nat, n: nat)
    requires a <= b
    ensures Pow(a, n) <= Pow(b, n)
  {
    if n > 0 {
      PowMonotone(a, b, n - 1);
      MulMonotone(a, b, Pow(a, n - 1), Pow(b, n - 1));
    }
  }

  lemma {:induction false} PowAdd(b: nat, m: nat, n: nat)
    ensures Pow(b, m + n) == Pow(b, m) * Pow(b, n)
  {
    if m > 0 {
      PowAdd(b, m - 1, n);
      assert b * (Pow(b, m - 1) * Pow(b, n)) == b * Pow(b, m - 1) * Pow(b, n);
    }
  }

  lemma PowSplit(b: nat, n: nat)
    ensures Pow(b, 2 * n) == Pow(b, n) * Pow(b, n)
  {
    PowAdd(b, n, n);
  }

  lemma PowEight()
    ensures Pow(8, 32) > 0x1_0000_0000_0000_0000
  {
    PowSplit(8, 8);
    PowSplit(8, 16);
    assert Pow(8, 8) == 0x100_0000;
  }

  lemma DecimalIsShort(value: u64)
    ensures value < Pow(10, 24)
  {
    PowMonotone(8, 10, 24);
    PowAdd(8, 8, 16);
    PowSplit(8, 8);
    assert Pow(8, 8) == 0x100_0000;
  }

  /** A 64-bit value in base 8, 10 or 16 needs no more digits than the buffer has. */
  lemma BufferHoldsU64(value: u64, base: nat)
    requires base == 8 || base == 10 || base == 16
    ensures LowDigits(value, base, NTOA_BUFFER_SIZE) == value
  {
    PowMonotone(8, base, NTOA_BUFFER_SIZE);
    PowEight();
    DivisionIsUnique(value, Pow(base, NTOA_BUFFER_SIZE), 0, value);
  }

  /** Reading digits accumulates them. */
  function Fold(s: string, acc: nat, base: nat): nat {
    if s == "" then acc else Fold(s[1..], acc * base + DigitValue(s[0]), base)
  }

  lemma {:induction false} ReadThrough(a: string, rest: string, acc: nat, base: nat)
    requires AreDigits(a, base) && (rest == "" || DigitValue(rest[0]) >= base)
    ensures ReadDigits(a + rest, acc, base) == Fold(a, acc, base)
    decreases |a|
  {
    hide DigitValue;
    if a == "" {
      assert a + rest == rest;
    } else {
      assert (a + rest)[1..] == a[1..] + rest;
      ReadThrough(a[1..], rest, acc * base + DigitValue(a[0]), base);
    }
  }

  lemma {:induction false} FoldAppend(a: string, b: string, acc: nat, base: nat)
    ensures Fold(a + b, acc, base) == Fold(b, Fold(a, acc, base), base)
    decreases |a|
  {
    hide DigitValue;
    if a == "" {
      assert a + b == b;
    } else {
      assert (a + b)[1..] == a[1..] + b;
      FoldAppend(a[1..], b, acc * base + DigitValue(a[0]), base);
    }
  }

  lemma {:induction false} FoldReversed(s: string, base: nat)
    ensures Fold(Reverse(s), 0, base) == ReversedValue(s, base)
    decreases |s|
  {
    hide DigitValue;
    if s != "" {
      FoldReversed(s[1..], base);
      FoldAppend(Reverse(s[1..]), [s[0]], 0, base);
      assert [s[0]][1..] == "";
      var v := ReversedValue(s[1..], base);
      assert Fold([s[0]], v, base) == v * base + DigitValue(s[0]);
    }
  }

  lemma {:induction false} ZerosAreZero(n: nat, base: nat)
    ensures ReversedValue(Repeat('0', n), base) == 0
  {
    if n > 0 {
      assert Repeat('0', n)[1..] == Repeat('0', n - 1);
      ZerosAreZero(n - 1, base);
    }
  }

  lemma {:induction false} TrailingZeros(s: string, n: nat, base: nat)
    ensures ReversedValue(s + Repeat('0', n), base) == ReversedValue(s, base)
    decreases |s|
  {
    hide DigitValue;
    if s == "" {
      assert s + Repeat('0', n) == Repeat('0', n);
      ZerosAreZero(n, base);
    } else {
      assert (s + Repeat('0', n))[1..] == s[1..] + Repeat('0', n);
      TrailingZeros(s[1..], n, base);
    }
  }

  lemma PadIsRepeat(c: char, have: nat, want: nat) returns (n: nat)
    ensures PadTo(c, have, want) == Repeat(c, n)
  {
    n := if have < want then want - have else 0;
  }

  lemma ZerosValue(buf: string, want: nat, base: nat)
    requires |buf| <= NTOA_BUFFER_SIZE && AreDigits(buf, base) && base >= 2
    ensures AreDigits(Zeros(buf, want), base) && ReversedValue(Zeros(buf, want), base) == ReversedValue(buf, base)
  {
    hide ReversedValue;
    var n := PadIsRepeat('0', |buf|, Min(want, NTOA_BUFFER_SIZE));
    TrailingZeros(buf, n, base);
  }

  /** Padding keeps the value and adds only digits. */
  lemma PaddedValue(buf: string, negative: bool, prec: nat, width: nat, flags: Flags, base: nat)
    requires |buf| <= NTOA_BUFFER_SIZE && AreDigits(buf, base) && base >= 2
    ensures var p := Padded(buf, negative, prec, width, flags);
      AreDigits(p, base) && ReversedValue(p, base) == ReversedValue(buf, base)
  {
    hide ReversedValue, PadTo, ZeroWidth;
    var p1 := Zeros(buf, prec);
    ZerosValue(buf, prec, base);
    ZerosValue(p1, ZeroWidth(negative, width, flags), base);
  }

  lemma {:induction false} ParseSkipsSpaces(n: nat, s: string, base: nat)
    ensures ParseInt(Repeat(' ', n) + s, base) == ParseInt(s, base)
  {
    hide ReadDigits;
    if n == 0 {
      assert Repeat(' ', 0) + s == s;
    } else {
      assert (Repeat(' ', n) + s)[1..] == Repeat(' ', n - 1) + s;
      ParseSkipsSpaces(n - 1, s, base);
    }
  }

  /** Digits in the buffer, read forwards with blanks behind them. */
  lemma ReadReversed(p: string, n: nat, base: nat)
    requires AreDigits(p, base) && base <= 16
    ensures ReadDigits(Reverse(p) + Repeat(' ', n), 0, base) == ReversedValue(p, base)
  {
    hide Fold, ReadDigits, ReversedValue;
    forall k | 0 <= k < |p|
      ensures DigitValue(Reverse(p)[k]) < base
    {
      ReverseAt(p, k);
    }
    ReadThrough(Reverse(p), Repeat(' ', n), 0, base);
    FoldReversed(p, base);
  }

  lemma ParseUnsigned(p: string, n: nat, base: nat)
    requires AreDigits(p, base) && base <= 16
    ensures ParseInt(Reverse(p) + Repeat(' ', n), base) == ReversedValue(p, base)
  {
    ReadReversed(p, n, base);
    if p == "" {
      assert Reverse(p) + Repeat(' ', n) == Repeat(' ', n) + "";
      ParseSkipsSpaces(n, "", base);
    } else {
      ReverseAt(p, 0);
    }
  }

  lemma ParseSigned(p: string, c: char, n: nat, base: nat)
    requires AreDigits(p, base) && base <= 16 && c in "+- "
    ensures ParseInt(Reverse(p + [c]) + Repeat(' ', n), base)
         == if c == '-' then 0 - ReversedValue(p, base) as int else ReversedValue(p, base)
  {
    hide ReadDigits, ReversedValue, DigitValue;
    ReverseAppend(p, [c]);
    ReverseOne(c);
    var t := Reverse(p) + Repeat(' ', n);
    assert Reverse(p + [c]) + Repeat(' ', n) == [c] + t;
    assert ([c] + t)[1..] == t;
    ReadReversed(p, n, base);
    ParseUnsigned(p, n, base);
  }

  lemma PaddedIgnoresHash(d: string, negative: bool, prec: nat, width: nat, flags: Flags)
    requires |d| <= NTOA_BUFFER_SIZE
    ensures Padded(d, negative, prec, width, flags) == Padded(d, negative, prec, width, flags.(hash := false))
  {
    hide PadTo;
  }

  lemma StartDigitsValue(value: nat, base: nat, flags: Flags)
    requires 2 <= base <= 16
    ensures AreDigits(StartDigits(value, base, flags), base)
    ensures ReversedValue(StartDigits(value, base, flags), base) == LowDigits(value, base, NTOA_BUFFER_SIZE)
  {
    hide Digits, LowDigits;
    NoDigitsLeft(0, base, NTOA_BUFFER_SIZE);
    DigitsValue(value, base, flags.uppercase, NTOA_BUFFER_SIZE);
  }

  lemma SignedReadsBack(p: string, negative: bool, width: nat, flags: Flags, base: nat)
    requires |p| <= NTOA_BUFFER_SIZE && AreDigits(p, base) && 2 <= base <= 16
    ensures ParseInt(Justified(Signed(p, negative, flags), width, flags), base)
         == if negative && |p| < NTOA_BUFFER_SIZE then 0 - ReversedValue(p, base) as int else ReversedValue(p, base)
  {
    hide Reverse, ReversedValue, ParseInt, DigitValue, AreDigits, Repeat;
    var r := Signed(p, negative, flags);
    var before := if !flags.left && !flags.zeropad then PadTo(' ', |r|, width) else "";
    var behind := if flags.left then PadTo(' ', |r|, width) else "";
    assert Repeat(' ', 0) == "";
    var m := if !flags.left && !flags.zeropad && |r| < width then width - |r| else 0;
    var n := if flags.left && |r| < width then width - |r| else 0;
    assert before == Repeat(' ', m) && behind == Repeat(' ', n);
    assert Justified(r, width, flags) == before + (Reverse(r) + behind);
    ParseSkipsSpaces(m, Reverse(r) + behind, base);
    if |r| == |p| {
      ParseUnsigned(p, n, base);
    } else {
      ParseSigned(p, r[|p|], n, base);
    }
  }

  lemma TextWithoutHash(value: nat, negative: bool, base: nat, prec: nat, width: nat, flags: Flags)
    requires 2 <= base <= 16 && !flags.hash
    ensures NumberText(value, negative, base, prec, width, flags)
         == Justified(Signed(Padded(StartDigits(value, base, flags), negative, prec, width, flags), negative, flags),
                      ZeroWidth(negative, width, flags), flags)
  {
    hide StartDigits, Padded, Signed, Justified, ZeroWidth;
  }

  lemma StartIgnoresHash(value: nat, base: nat, flags: Flags)
    requires 2 <= base <= 16
    ensures StartDigits(value, base, flags.(hash := false)) == StartDigits(value, base, flags)
  {
  }

  /** Without '#', whatever the width and the precision, the printed text reads back as the value (up to 32
      digits), with its sign exactly if the zeros have left a place for it in the buffer. */
  lemma NumberReadsBack(value: nat, negative: bool, base: nat, prec: nat, width: nat, flags: Flags)
    requires 2 <= base <= 16 && (flags.hash ==> value == 0)
    ensures var p := Padded(StartDigits(value, base, flags), negative, prec, width, flags);
      var v := LowDigits(value, base, NTOA_BUFFER_SIZE);
      ParseInt(NumberText(value, negative, base, prec, width, flags), base)
      == if negative && |p| < NTOA_BUFFER_SIZE then 0 - v as int else v
  {
    hide Reverse, LowDigits, ReversedValue, ParseInt, StartDigits, PadTo, Repeat, Padded, ZeroWidth, Signed, Justified,
         NumberText;
    var fl := flags.(hash := false);
    HashIsForNonzero(value, negative, base, prec, width, flags);
    var d := StartDigits(value, base, fl);
    var zw := ZeroWidth(negative, width, fl);
    StartDigitsValue(value, base, fl);
    PaddedValue(d, negative, prec, width, fl, base);
    PaddedIgnoresHash(d, negative, prec, width, flags);
    var p := Padded(d, negative, prec, width, fl);
    var r := Signed(p, negative, fl);
    TextWithoutHash(value, negative, base, prec, width, fl);
    StartIgnoresHash(value, base, flags);
    SignedReadsBack(p, negative, zw, fl, base);
  }

  // ---------- the alternative form ----------

  lemma NonzeroDigit(d: nat, uppercase: bool)
    requires d < 16
    ensures Digit(d, uppercase) == '0' <==> d == 0
  {
  }

  lemma RestIsSmaller(value: nat, base: nat, room: nat)
    requires base >= 2 && room >= 1 && 0 < value < Pow(base, room)
    ensures Rest(value, base) < Pow(base, room - 1)
    ensures Rest(value, base) == 0 ==> Last(value, base) > 0
  {
    QuotientAndRemainder(value, base);
    var p, q := Pow(base, room - 1), value / base;
    if q >= p {
      Distributes(base, p, q - p);
    }
  }

  /** The most significant digit is not 0, unless the buffer ran out. */
  lemma {:induction false} TopDigitIsNotZero(value: nat, base: nat, uppercase: bool, room: nat)
    requires 2 <= base <= 16 && room >= 1 && 0 < value < Pow(base, room)
    ensures var s := Digits(value, base, uppercase, room); s[|s| - 1] != '0'
    decreases room
  {
    hide Digit, Last, Rest;
    var s := Digits(value, base, uppercase, room);
    RestIsSmaller(value, base, room);
    if Rest(value, base) > 0 && room > 1 {
      TopDigitIsNotZero(Rest(value, base), base, uppercase, room - 1);
    } else {
      assert s == [Digit(Last(value, base), uppercase)];
      NonzeroDigit(Last(value, base), uppercase);
    }
  }

  lemma PowZero(base: nat)
    ensures Pow(base, 0) == 1
  {
  }

  lemma RestBelowPow(value: nat, base: nat, k: nat)
    requires base >= 2 && k >= 1 && value < Pow(base, k)
    ensures Rest(value, base) < Pow(base, k - 1)
  {
    PowPositive(base, k - 1);
    if value > 0 {
      RestIsSmaller(value, base, k);
    } else {
      assert 0 / base == 0;
    }
  }

  lemma {:induction false} DigitCount(value: nat, base: nat, uppercase: bool, room: nat, k: nat)
    requires 2 <= base <= 16 && 1 <= k <= room && value < Pow(base, k)
    ensures |Digits(value, base, uppercase, room)| <= k
    decreases k
  {
    hide Digit, Last, Rest, Pow;
    if Rest(value, base) > 0 && room > 1 {
      RestBelowPow(value, base, k);
      if k == 1 {
        assert Pow(base, 0) == 1 by {
          PowZero(base);
        }
      } else {
        DigitCount(Rest(value, base), base, uppercase, room - 1, k - 1);
      }
    }
  }

  /** How many places '#' takes back. */
  function PrefixPlaces(n: nat, base: nat): nat {
    if n > 1 && base == 16 then 2 else 1
  }

  lemma BufferHolds(value: u64, base: nat)
    requires (base == 2 && value < 0x1_0000_0000) || base == 8 || base == 16
    ensures value < Pow(base, NTOA_BUFFER_SIZE)
  {
    if base == 2 {
      PowSplit(2, 8);
      PowSplit(2, 16);
      assert Pow(2, 8) == 0x100;
    } else {
      PowMonotone(8, base, NTOA_BUFFER_SIZE);
      PowEight();
    }
  }

  lemma PrefixIsNotADigit(d: string, base: nat, uppercase: bool)
    requires AreDigits(d, base) && base <= 16
    ensures forall k :: 0 <= k < |d| ==> d[k] != 'x' && d[k] != 'X' && (base == 2 ==> d[k] != 'b')
  {
  }

  lemma StartOfNumber(value: nat, base: nat, flags: Flags)
    requires 2 <= base <= 16 && value > 0
    ensures StartDigits(value, base, flags) == Digits(value, base, flags.uppercase, NTOA_BUFFER_SIZE)
    ensures StartDigits(value, base, flags) != ""
  {
    hide Digits;
  }

  lemma DigitsNotThePrefix(value: u64, base: nat, flags: Flags)
    requires (base == 2 && value < 0x1_0000_0000) || base == 8 || base == 16
    requires value > 0
    ensures var d := StartDigits(value, base, flags);
      && d != "" && d[|d| - 1] != '0'
      && forall k :: 0 <= k < |d| ==> d[k] != 'x' && d[k] != 'X' && (base == 2 ==> d[k] != 'b')
  {
    hide StartDigits, Digits, DigitValue, Digit, Pow, AreDigits, ReversedValue, LowDigits;
    var d := StartDigits(value, base, flags);
    StartOfNumber(value, base, flags);
    DigitsValue(value, base, flags.uppercase, NTOA_BUFFER_SIZE);
    BufferHolds(value, base);
    TopDigitIsNotZero(value, base, flags.uppercase, NTOA_BUFFER_SIZE);
    PrefixIsNotADigit(d, base, flags.uppercase);
  }

  lemma PrefixFollows(p: string, base: nat, width: nat, flags: Flags)
    requires 1 <= |p| == width <= NTOA_BUFFER_SIZE && flags.hash && !flags.precision
    ensures var kept := |p| - PrefixPlaces(|p|, base); var r := Hashed(p, base, 0, width, flags);
      && kept < |r| && r[..kept] == p[..kept]
      && r[kept] == if base == 16 then if flags.uppercase then 'X' else 'x' else if base == 2 then 'b' else '0'
  {
  }

  lemma NoPlaceTaken(p: string, base: nat, prec: nat, width: nat, flags: Flags)
    requires |p| <= NTOA_BUFFER_SIZE && (flags.precision || (prec == 0 && |p| != width))
    ensures p <= Hashed(p, base, prec, width, flags)
  {
  }

  /** '#' keeps all digits exactly if there is a precision, or the zero-filled digits do not end on the width, or
      the zeros alone make up for the places taken back.  Otherwise the prefix overwrites leading digits. */
  lemma HashKeepsDigits(value: u64, base: nat, prec: nat, width: nat, flags: Flags)
    requires (base == 2 && value < 0x1_0000_0000) || base == 8 || base == 16
    requires value > 0 && flags.hash && !flags.plus && !flags.space && (!flags.precision ==> prec == 0)
    ensures var d := StartDigits(value, base, flags); var n := |Padded(d, false, prec, width, flags)|;
      d <= ReversedNumber(d, false, base, prec, width, flags)
      <==> flags.precision || n != width || |d| + PrefixPlaces(n, base) <= n
  {
    hide Digits, DigitValue, Digit, Pow, AreDigits, Hashed, Padded, StartDigits;
    var d := StartDigits(value, base, flags);
    var p := Padded(d, false, prec, width, flags);
    DigitsNotThePrefix(value, base, flags);
    var n := |p|;
    var r := ReversedNumber(d, false, base, prec, width, flags);
    assert r == Hashed(p, base, prec, width, flags);
    if !flags.precision && n == width {
      var kept := n - PrefixPlaces(n, base);
      if kept < |d| {
        assert p[..kept] == d[..kept];
        PrefixFollows(p, base, width, flags);
        assert d[kept] != r[kept];
      } else {
        PrefixFollows(p, base, width, flags);
        assert p[..kept][..|d|] == d;
      }
    } else {
      NoPlaceTaken(p, base, prec, width, flags);
    }
  }
}
