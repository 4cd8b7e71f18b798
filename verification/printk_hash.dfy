/** The '#' form of the integer conversions (kernel/src/printk/printk.c; ISO C11, section 7.21.6.1, paragraph 6).

    The source takes digits back for the prefix when the number ends on the width, and drops the prefix when zeros have
    filled the buffer.  `KeepsPrefix` says exactly when the standard's text comes out all the same. */
module AlternativeForm {
  import opened Words
  import opened PrintkText

  /** What the conversions with '#' pass on: no sign, a precision only with its flag, and then no zero filling. */
  predicate IsAlternative(value: u64, base: nat, prec: nat, flags: Flags) {
    && flags.hash && !flags.plus && !flags.space && (base == 8 || base == 16)
    && (flags.precision ==> !flags.zeropad) && (!flags.precision ==> prec == 0)
  }

  /** The prefix as it stands in the buffer, back to front. */
  function Suffix(base: nat, flags: Flags): string {
    if base == 16 then if flags.uppercase then "X0" else "x0" else "0"
  }

  /** When a non-zero number of n digits comes out as the standard asks. */
  predicate KeepsPrefix(n: nat, base: nat, prec: nat, width: nat, flags: Flags) {
    if flags.left then (flags.precision || n != width) && prec <= (if base == 8 then n + 1 else n)
    else if flags.zeropad then width < n || n + |Suffix(base, flags)| <= width <= NTOA_BUFFER_SIZE
    else if !flags.precision then n != width
    else if base == 16 then Max(n, prec) + 2 <= NTOA_BUFFER_SIZE
    else prec <= n || prec == NTOA_BUFFER_SIZE
  }

  function Prefix(base: nat, flags: Flags): string {
    if base == 16 then if flags.uppercase then "0X" else "0x" else "0"
  }

  lemma SuffixReversed(base: nat, flags: Flags)
    ensures Reverse(Suffix(base, flags)) == Prefix(base, flags)
  {
    var s := Suffix(base, flags);
    if base == 16 {
      assert s[1..] == [s[1]] && s[1..][1..] == "";
    } else {
      assert s[1..] == "";
    }
  }

  // ---------- what is printed ----------

  /** Without a sign only the padding and the prefix are left of the number's format. */
  lemma AlternativeText(value: u64, base: nat, prec: nat, width: nat, flags: Flags)
    requires IsAlternative(value, base, prec, flags) && value > 0
    ensures var p := Padded(StartDigits(value, base, flags), false, prec, width, flags);
      NumberText(value, false, base, prec, width, flags) == Justified(Hashed(p, base, prec, width, flags), width, flags)
  {
    hide StartDigits, Padded, Hashed, Justified;
  }

  /** The zeros in the buffer behind n digits. */
  function Target(prec: nat, width: nat, flags: Flags): nat {
    if flags.left then 0
    else if flags.zeropad then Max(Min(prec, NTOA_BUFFER_SIZE), Min(width, NTOA_BUFFER_SIZE))
    else Min(prec, NTOA_BUFFER_SIZE)
  }

  lemma PaddedIsZeros(d: string, prec: nat, width: nat, flags: Flags)
    requires |d| <= NTOA_BUFFER_SIZE && !flags.plus && !flags.space
    ensures Padded(d, false, prec, width, flags) == d + PadTo('0', |d|, Target(prec, width, flags))
  {
    var p := Padded(d, false, prec, width, flags);
    assert |p| == Max(|d|, Target(prec, width, flags));
    assert forall k :: |d| <= k < |p| ==> p[k] == '0';
  }

  /** No place is taken back and there is room for the prefix. */
  lemma PrefixAdded(p: string, base: nat, prec: nat, width: nat, flags: Flags)
    requires flags.hash && (base == 8 || base == 16) && |p| + |Suffix(base, flags)| <= NTOA_BUFFER_SIZE
    requires flags.precision || (prec == 0 && |p| != width)
    ensures Hashed(p, base, prec, width, flags) == p + Suffix(base, flags)
  {
    assert p[..|p|] == p;
  }

  /** Places are taken back. */
  lemma PrefixOverwrites(p: string, base: nat, width: nat, flags: Flags)
    requires flags.hash && (base == 8 || base == 16) && !flags.precision && 1 <= |p| == width <= NTOA_BUFFER_SIZE
    ensures Hashed(p, base, 0, width, flags) == p[..width - PrefixPlaces(width, base)] + Suffix(base, flags)
  {
  }

  lemma ReverseNothing()
    ensures Reverse("") == ""
  {
  }

  lemma ReversedWithZeros(d: string, n: nat, suffix: string)
    ensures Reverse(d + Repeat('0', n) + suffix) == Reverse(suffix) + (Repeat('0', n) + Reverse(d))
  {
    hide Reverse;
    ReverseAppend(d + Repeat('0', n), suffix);
    ReverseAppend(d, Repeat('0', n));
    ReversePad('0', 0, n);
    assert n > 0 ==> PadTo('0', 0, n) == Repeat('0', n);
    if n == 0 {
      ReverseNothing();
    }
  }

  // ---------- what the standard asks for ----------

  lemma PowersBoundWords()
    ensures Pow(16, 16) == 0x1_0000_0000_0000_0000 && Pow(8, 22) >= 0x1_0000_0000_0000_0000
  {
    PowSplit(16, 4);
    PowSplit(16, 8);
    assert Pow(16, 4) == 0x1_0000;
    PowSplit(8, 5);
    PowSplit(8, 10);
    PowAdd(8, 20, 2);
    assert Pow(8, 5) == 0x8000 && Pow(8, 2) == 0x40;
  }

  lemma DigitCounts(value: u64, base: nat, flags: Flags)
    requires base == 8 || base == 16
    ensures |StartDigits(value, base, flags)| <= if base == 16 then 16 else 22
  {
    hide Digits, Pow;
    PowersBoundWords();
    DigitCount(value, base, flags.uppercase, NTOA_BUFFER_SIZE, if base == 16 then 16 else 22);
  }

  lemma StartDigitsAreNotSigns(value: u64, base: nat, flags: Flags)
    requires 2 <= base <= 16
    ensures forall k :: 0 <= k < |StartDigits(value, base, flags)| ==> StartDigits(value, base, flags)[k] != ' '
  {
    hide Digits;
    DigitsAreNotSigns(value, base, flags.uppercase, NTOA_BUFFER_SIZE);
  }

  /** The digits of a non-zero number read forwards: the first is no zero, and none is a letter of the prefix. */
  lemma FirstDigit(value: u64, base: nat, flags: Flags)
    requires (base == 8 || base == 16) && value > 0
    ensures var s := Reverse(StartDigits(value, base, flags));
      s != "" && s[0] != '0' && s[0] != ' ' && forall k :: 0 <= k < |s| ==> s[k] != 'x' && s[k] != 'X'
  {
    hide StartDigits;
    var d := StartDigits(value, base, flags);
    DigitsNotThePrefix(value, base, flags);
    StartDigitsAreNotSigns(value, base, flags);
    forall k | 0 <= k < |d|
      ensures Reverse(d)[k] == d[|d| - 1 - k]
    {
      ReverseAt(d, k);
    }
  }

  /** The standard's text in terms of the digits: a hexadecimal prefix, or one more octal zero if none leads. */
  lemma IsoAlternative(value: u64, base: nat, prec: nat, width: nat, flags: Flags)
    requires IsAlternative(value, base, prec, flags) && value > 0
    ensures var s := Reverse(StartDigits(value, base, flags)); var zeros := PadTo('0', |s|, prec);
      IsoText(value, false, base, prec, width, flags)
      == if base == 16 then Layout(Prefix(base, flags), zeros + s, width, flags)
         else Layout("", (if prec <= |s| then "0" else "") + (zeros + s), width, flags)
  {
    hide StartDigits, Reverse, Layout;
    var s := Reverse(StartDigits(value, base, flags));
    var zeros := PadTo('0', |s|, prec);
    FirstDigit(value, base, flags);
    assert SignText(false, flags) == "";
    assert "" + IsoPrefix(value, base, flags) == IsoPrefix(value, base, flags);
    assert (zeros + s)[0] != '0' <==> prec <= |s|;
    assert "" + (zeros + s) == zeros + s;
  }

  lemma LayoutLength(lead: string, number: string, width: nat, flags: Flags)
    ensures |Layout(lead, number, width, flags)| == Max(width, |lead| + |number|)
  {
  }

  // ---------- '-' ----------

  lemma LeftText(value: u64, base: nat, prec: nat, width: nat, flags: Flags)
    requires IsAlternative(value, base, prec, flags) && value > 0 && flags.left
    requires flags.precision || |StartDigits(value, base, flags)| != width
    ensures var s := Prefix(base, flags) + Reverse(StartDigits(value, base, flags));
      NumberText(value, false, base, prec, width, flags) == s + PadTo(' ', |s|, width)
  {
    hide StartDigits, Reverse, Hashed, NumberText, PadTo;
    var d := StartDigits(value, base, flags);
    DigitCounts(value, base, flags);
    AlternativeText(value, base, prec, width, flags);
    PrefixAdded(d, base, prec, width, flags);
    ReverseAppend(d, Suffix(base, flags));
    SuffixReversed(base, flags);
  }

  lemma LeftSame(value: u64, base: nat, prec: nat, width: nat, flags: Flags)
    requires IsAlternative(value, base, prec, flags) && value > 0 && flags.left
    requires prec <= if base == 8 then |StartDigits(value, base, flags)| + 1 else |StartDigits(value, base, flags)|
    ensures var s := Prefix(base, flags) + Reverse(StartDigits(value, base, flags));
      IsoText(value, false, base, prec, width, flags) == s + PadTo(' ', |s|, width)
  {
    hide StartDigits, Reverse, IsoText;
    var s := Reverse(StartDigits(value, base, flags));
    IsoAlternative(value, base, prec, width, flags);
    if prec <= |s| {
      assert PadTo('0', |s|, prec) + s == s;
    } else {
      assert PadTo('0', |s|, prec) == "0";
      assert "" + ("0" + s) == "0" + s;
    }
  }

  lemma LeftDiffers(value: u64, base: nat, prec: nat, width: nat, flags: Flags)
    requires IsAlternative(value, base, prec, flags) && value > 0 && flags.left
    requires prec > if base == 8 then |StartDigits(value, base, flags)| + 1 else |StartDigits(value, base, flags)|
    ensures var s := Prefix(base, flags) + Reverse(StartDigits(value, base, flags));
      IsoText(value, false, base, prec, width, flags) != s + PadTo(' ', |s|, width)
  {
    hide StartDigits, Reverse, IsoText;
    var s, prefix := Reverse(StartDigits(value, base, flags)), Prefix(base, flags);
    IsoAlternative(value, base, prec, width, flags);
    FirstDigit(value, base, flags);
    assert (prefix + s)[|prefix|] == s[0];
    assert IsoText(value, false, base, prec, width, flags)[|prefix|] == '0';
  }

  lemma LeftAlternative(value: u64, base: nat, prec: nat, width: nat, flags: Flags)
    requires IsAlternative(value, base, prec, flags) && value > 0 && flags.left
    requires flags.precision || |StartDigits(value, base, flags)| != width
    ensures NumberText(value, false, base, prec, width, flags) == IsoText(value, false, base, prec, width, flags)
       <==> prec <= if base == 8 then |StartDigits(value, base, flags)| + 1 else |StartDigits(value, base, flags)|
  {
    hide StartDigits, Reverse, NumberText, IsoText, PadTo, Prefix;
    LeftText(value, base, prec, width, flags);
    if prec <= if base == 8 then |StartDigits(value, base, flags)| + 1 else |StartDigits(value, base, flags)| {
      LeftSame(value, base, prec, width, flags);
    } else {
      LeftDiffers(value, base, prec, width, flags);
    }
  }

  lemma IsoAlternativeLength(value: u64, base: nat, prec: nat, width: nat, flags: Flags)
    requires IsAlternative(value, base, prec, flags) && value > 0
    ensures var n := |StartDigits(value, base, flags)|;
      |IsoText(value, false, base, prec, width, flags)|
      == Max(width, if base == 16 then 2 + Max(n, prec) else Max(n + 1, prec))
  {
    hide StartDigits, Reverse, Layout, IsoText;
    var s := Reverse(StartDigits(value, base, flags));
    var number := PadTo('0', |s|, prec) + s;
    IsoAlternative(value, base, prec, width, flags);
    LayoutLength(Prefix(base, flags), number, width, flags);
    LayoutLength("", "0" + number, width, flags);
    LayoutLength("", "" + number, width, flags);
  }

  lemma LeftOverwritten(value: u64, base: nat, prec: nat, width: nat, flags: Flags)
    requires IsAlternative(value, base, prec, flags) && value > 0 && flags.left && !flags.precision
    requires |StartDigits(value, base, flags)| == width
    ensures |NumberText(value, false, base, prec, width, flags)| < |IsoText(value, false, base, prec, width, flags)|
  {
    hide StartDigits, Reverse, Hashed, NumberText, IsoText, Layout;
    DigitsNotThePrefix(value, base, flags);
    AlternativeText(value, base, prec, width, flags);
    PrefixOverwrites(StartDigits(value, base, flags), base, width, flags);
    IsoAlternativeLength(value, base, prec, width, flags);
  }

  // ---------- '0' ----------

  lemma ZeroFilledText(value: u64, base: nat, width: nat, flags: Flags, k: nat)
    requires IsAlternative(value, base, 0, flags) && value > 0 && !flags.left && flags.zeropad
    requires |StartDigits(value, base, flags)| + |Suffix(base, flags)| + k == width <= NTOA_BUFFER_SIZE
    ensures NumberText(value, false, base, 0, width, flags)
         == Prefix(base, flags) + (Repeat('0', k) + Reverse(StartDigits(value, base, flags)))
  {
    hide StartDigits, Reverse, Hashed, NumberText, Padded;
    var d := StartDigits(value, base, flags);
    DigitsNotThePrefix(value, base, flags);
    AlternativeText(value, base, 0, width, flags);
    PaddedIsZeros(d, 0, width, flags);
    var p := Padded(d, false, 0, width, flags);
    PrefixOverwrites(p, base, width, flags);
    assert p[..width - PrefixPlaces(width, base)] == d + Repeat('0', k);
    ReversedWithZeros(d, k, Suffix(base, flags));
    SuffixReversed(base, flags);
  }

  lemma ZeroLayout(lead: string, number: string, k: nat, width: nat, flags: Flags)
    requires !flags.left && flags.zeropad && |lead| + k + |number| == width
    ensures Layout(lead, number, width, flags) == lead + (Repeat('0', k) + number)
  {
    assert lead + Repeat('0', k) + number == lead + (Repeat('0', k) + number);
  }

  lemma {:induction false} ZeroMoves(k: nat)
    ensures "0" + Repeat('0', k) == Repeat('0', k) + "0"
  {
    if k > 0 {
      ZeroMoves(k - 1);
      assert "0" + Repeat('0', k) == "0" + Repeat('0', k - 1) + "0";
    }
  }

  lemma OctalZeroFirst(s: string, k: nat)
    ensures "" + (Repeat('0', k) + ("0" + s)) == "0" + (Repeat('0', k) + s)
  {
    hide Repeat;
    var z := Repeat('0', k);
    ZeroMoves(k);
    assert "" + (z + ("0" + s)) == z + "0" + s;
    assert "0" + (z + s) == "0" + z + s;
  }

  lemma ZeroFilledIso(value: u64, base: nat, width: nat, flags: Flags, k: nat)
    requires IsAlternative(value, base, 0, flags) && value > 0 && !flags.left && flags.zeropad
    requires |StartDigits(value, base, flags)| + |Suffix(base, flags)| + k == width
    ensures IsoText(value, false, base, 0, width, flags)
         == Prefix(base, flags) + (Repeat('0', k) + Reverse(StartDigits(value, base, flags)))
  {
    hide StartDigits, Reverse, IsoText, Repeat, Layout;
    var s := Reverse(StartDigits(value, base, flags));
    IsoAlternative(value, base, 0, width, flags);
    assert PadTo('0', |s|, 0) + s == s;
    if base == 16 {
      ZeroLayout(Prefix(base, flags), s, k, width, flags);
    } else {
      ZeroLayout("", "0" + s, k, width, flags);
      OctalZeroFirst(s, k);
    }
  }

  lemma ZeroFilledAlternative(value: u64, base: nat, width: nat, flags: Flags)
    requires IsAlternative(value, base, 0, flags) && value > 0 && !flags.left && flags.zeropad
    requires |StartDigits(value, base, flags)| + |Suffix(base, flags)| <= width <= NTOA_BUFFER_SIZE
    ensures NumberText(value, false, base, 0, width, flags) == IsoText(value, false, base, 0, width, flags)
  {
    hide StartDigits, Reverse, NumberText, IsoText;
    var k := width - |Suffix(base, flags)| - |StartDigits(value, base, flags)|;
    ZeroFilledText(value, base, width, flags, k);
    ZeroFilledIso(value, base, width, flags, k);
  }

  lemma WideAlternative(value: u64, base: nat, width: nat, flags: Flags)
    requires IsAlternative(value, base, 0, flags) && value > 0 && !flags.left && flags.zeropad
    requires width < |StartDigits(value, base, flags)|
    ensures NumberText(value, false, base, 0, width, flags) == IsoText(value, false, base, 0, width, flags)
  {
    hide StartDigits, Reverse, Hashed, NumberText, IsoText, Padded;
    var d := StartDigits(value, base, flags);
    DigitCounts(value, base, flags);
    AlternativeText(value, base, 0, width, flags);
    IsoAlternative(value, base, 0, width, flags);
    PaddedIsZeros(d, 0, width, flags);
    assert d + "" == d;
    PrefixAdded(d, base, 0, width, flags);
    ReverseAppend(d, Suffix(base, flags));
    SuffixReversed(base, flags);
    assert PadTo('0', |d|, 0) + Reverse(d) == Reverse(d);
  }

  /** The filled number ends on the width with digits under the prefix, or the width is beyond the buffer. */
  lemma ZeroFilledSpoiled(value: u64, base: nat, width: nat, flags: Flags)
    requires IsAlternative(value, base, 0, flags) && value > 0 && !flags.left && flags.zeropad
    requires var n := |StartDigits(value, base, flags)|;
      width > NTOA_BUFFER_SIZE || n <= width < n + |Suffix(base, flags)|
    ensures |NumberText(value, false, base, 0, width, flags)| < |IsoText(value, false, base, 0, width, flags)|
  {
    hide StartDigits, Reverse, NumberText, IsoText, Padded, Hashed;
    var d := StartDigits(value, base, flags);
    DigitCounts(value, base, flags);
    DigitsNotThePrefix(value, base, flags);
    AlternativeText(value, base, 0, width, flags);
    IsoAlternativeLength(value, base, 0, width, flags);
    PaddedIsZeros(d, 0, width, flags);
    if width <= NTOA_BUFFER_SIZE {
      PrefixOverwrites(Padded(d, false, 0, width, flags), base, width, flags);
    }
  }

  // ---------- neither ----------

  /** The prefix, if there is room for it, in front of the zeros and the digits. */
  lemma RightText(value: u64, base: nat, prec: nat, width: nat, flags: Flags)
    requires IsAlternative(value, base, prec, flags) && value > 0 && !flags.left && !flags.zeropad
    requires var n := |StartDigits(value, base, flags)|;
      && (flags.precision || n != width)
      && if base == 16 then Max(n, prec) + 2 <= NTOA_BUFFER_SIZE else prec <= n
    ensures var d := StartDigits(value, base, flags);
      var number := Prefix(base, flags) + (PadTo('0', |d|, prec) + Reverse(d));
      NumberText(value, false, base, prec, width, flags) == PadTo(' ', |number|, width) + number
  {
    hide StartDigits, Reverse, Hashed, NumberText, Padded;
    var d := StartDigits(value, base, flags);
    var zeros := PadTo('0', |d|, prec);
    DigitCounts(value, base, flags);
    AlternativeText(value, base, prec, width, flags);
    PaddedIsZeros(d, prec, width, flags);
    PrefixAdded(d + zeros, base, prec, width, flags);
    assert zeros == Repeat('0', |zeros|);
    ReversedWithZeros(d, |zeros|, Suffix(base, flags));
    SuffixReversed(base, flags);
  }

  lemma RightAlternative(value: u64, base: nat, prec: nat, width: nat, flags: Flags)
    requires IsAlternative(value, base, prec, flags) && value > 0 && !flags.left && !flags.zeropad
    requires var n := |StartDigits(value, base, flags)|;
      && (flags.precision || n != width)
      && if base == 16 then Max(n, prec) + 2 <= NTOA_BUFFER_SIZE else prec <= n
    ensures NumberText(value, false, base, prec, width, flags) == IsoText(value, false, base, prec, width, flags)
  {
    hide StartDigits, Reverse, NumberText, IsoText, PadTo;
    var s, prefix := Reverse(StartDigits(value, base, flags)), Prefix(base, flags);
    var zeros := PadTo('0', |s|, prec);
    RightText(value, base, prec, width, flags);
    IsoAlternative(value, base, prec, width, flags);
    var number := prefix + (zeros + s);
    var pad := PadTo(' ', |number|, width);
    assert pad + prefix + (zeros + s) == pad + number == pad + "" + number;
  }

  lemma RightOverwritten(value: u64, base: nat, width: nat, flags: Flags)
    requires IsAlternative(value, base, 0, flags) && value > 0 && !flags.left && !flags.zeropad && !flags.precision
    requires |StartDigits(value, base, flags)| == width
    ensures |NumberText(value, false, base, 0, width, flags)| < |IsoText(value, false, base, 0, width, flags)|
  {
    hide StartDigits, Reverse, Hashed, NumberText, IsoText, Layout, Padded;
    var d := StartDigits(value, base, flags);
    DigitsNotThePrefix(value, base, flags);
    AlternativeText(value, base, 0, width, flags);
    PaddedIsZeros(d, 0, width, flags);
    assert d + "" == d;
    PrefixOverwrites(d, base, width, flags);
    IsoAlternativeLength(value, base, 0, width, flags);
  }

  /** As much of the prefix as finds room behind m characters. */
  function Lead(m: nat, base: nat, flags: Flags): string {
    if m == NTOA_BUFFER_SIZE then "" else if base == 8 then "0" else if flags.uppercase then "X" else "x"
  }

  lemma LeadReversed(m: nat, base: nat, flags: Flags)
    ensures Reverse(Lead(m, base, flags)) == Lead(m, base, flags)
  {
    var lead := Lead(m, base, flags);
    if lead == "" {
      ReverseNothing();
    } else {
      ReverseOne(lead[0]);
    }
  }

  lemma PrefixPart(p: string, base: nat, prec: nat, width: nat, flags: Flags)
    requires flags.hash && flags.precision && (base == 8 || base == 16) && |p| <= NTOA_BUFFER_SIZE
    requires base == 16 ==> |p| >= NTOA_BUFFER_SIZE - 1
    ensures Hashed(p, base, prec, width, flags) == p + Lead(|p|, base, flags)
  {
    assert p[..|p|] == p;
  }

  /** What a precision leaves in the buffer: the digits, zeros, and as much of the prefix as finds room. */
  lemma ZerosText(value: u64, base: nat, prec: nat, width: nat, flags: Flags)
    requires IsAlternative(value, base, prec, flags) && value > 0 && !flags.left && flags.precision
    requires var n := |StartDigits(value, base, flags)|; n < prec && (base == 16 ==> prec >= NTOA_BUFFER_SIZE - 1)
    ensures var d := StartDigits(value, base, flags); var m := Min(prec, NTOA_BUFFER_SIZE);
      var lead := Lead(m, base, flags);
      NumberText(value, false, base, prec, width, flags)
      == PadTo(' ', |lead| + m, width) + (lead + (Repeat('0', m - |d|) + Reverse(d)))
  {
    hide StartDigits, Reverse, NumberText, Padded, Suffix, Prefix, Lead, Hashed;
    var d, m := StartDigits(value, base, flags), Min(prec, NTOA_BUFFER_SIZE);
    DigitCounts(value, base, flags);
    var lead := Lead(m, base, flags);
    AlternativeText(value, base, prec, width, flags);
    PaddedIsZeros(d, prec, width, flags);
    var p := d + Repeat('0', m - |d|);
    assert Padded(d, false, prec, width, flags) == p;
    PrefixPart(p, base, prec, width, flags);
    ReversedWithZeros(d, m - |d|, lead);
    LeadReversed(m, base, flags);
  }

  /** With a precision that leaves the prefix no room, or raises an octal number that begins with a zero already. */
  lemma RightSpoiled(value: u64, base: nat, prec: nat, width: nat, flags: Flags)
    requires IsAlternative(value, base, prec, flags) && value > 0 && !flags.left && !flags.zeropad && flags.precision
    requires if base == 16 then prec + 2 > NTOA_BUFFER_SIZE
             else |StartDigits(value, base, flags)| < prec != NTOA_BUFFER_SIZE
    ensures NumberText(value, false, base, prec, width, flags) != IsoText(value, false, base, prec, width, flags)
  {
    hide StartDigits, Reverse, NumberText, IsoText;
    var d := StartDigits(value, base, flags);
    var s, m := Reverse(d), Min(prec, NTOA_BUFFER_SIZE);
    DigitCounts(value, base, flags);
    FirstDigit(value, base, flags);
    ZerosText(value, base, prec, width, flags);
    IsoAlternative(value, base, prec, width, flags);
    IsoAlternativeLength(value, base, prec, width, flags);
    var text, iso := NumberText(value, false, base, prec, width, flags),
      IsoText(value, false, base, prec, width, flags);
    if |text| == |iso| {
      if base == 16 {
        var at := width - prec - 2;
        assert iso[at] == '0';
        assert text[at] == ' ';
      } else {
        var at := if prec < NTOA_BUFFER_SIZE then width - prec - 1 else width - prec;
        assert iso[at] == if prec < NTOA_BUFFER_SIZE then ' ' else '0';
        assert text[at] == if prec < NTOA_BUFFER_SIZE then '0' else ' ';
      }
    }
  }

  lemma RightLayout(number: string, width: nat, flags: Flags)
    requires !flags.left && !flags.zeropad
    ensures Layout("", number, width, flags) == PadTo(' ', |number|, width) + number
  {
    hide PadTo;
    var pad := PadTo(' ', |number|, width);
    assert pad + "" == pad;
  }

  lemma PadIsZeros(have: nat, want: nat)
    requires have < want
    ensures PadTo('0', have, want) == Repeat('0', want - have)
  {
  }

  /** An octal precision that fills the buffer leaves no room for a zero that is not needed either. */
  lemma FullOctal(value: u64, width: nat, flags: Flags)
    requires IsAlternative(value, 8, NTOA_BUFFER_SIZE, flags) && value > 0
    requires !flags.left && !flags.zeropad && flags.precision
    ensures NumberText(value, false, 8, NTOA_BUFFER_SIZE, width, flags)
         == IsoText(value, false, 8, NTOA_BUFFER_SIZE, width, flags)
  {
    hide StartDigits, Reverse, NumberText, IsoText, PadTo, Repeat, Layout;
    var s := Reverse(StartDigits(value, 8, flags));
    var number := Repeat('0', NTOA_BUFFER_SIZE - |s|) + s;
    DigitCounts(value, 8, flags);
    ZerosText(value, 8, NTOA_BUFFER_SIZE, width, flags);
    IsoAlternative(value, 8, NTOA_BUFFER_SIZE, width, flags);
    PadIsZeros(|s|, NTOA_BUFFER_SIZE);
    RightLayout(number, width, flags);
    assert "" + number == number;
  }

  // ---------- together ----------

  /** A non-zero octal or hexadecimal number with '#' is what the standard asks for exactly under this condition. */
  lemma AlternativeIsIso(value: u64, base: nat, prec: nat, width: nat, flags: Flags)
    requires IsAlternative(value, base, prec, flags) && value > 0
    ensures NumberText(value, false, base, prec, width, flags) == IsoText(value, false, base, prec, width, flags)
       <==> KeepsPrefix(|StartDigits(value, base, flags)|, base, prec, width, flags)
  {
    hide StartDigits, NumberText, IsoText;
    var n := |StartDigits(value, base, flags)|;
    DigitCounts(value, base, flags);
    if flags.left {
      if flags.precision || n != width {
        LeftAlternative(value, base, prec, width, flags);
      } else {
        LeftOverwritten(value, base, prec, width, flags);
      }
    } else if flags.zeropad {
      if width < n {
        WideAlternative(value, base, width, flags);
      } else if n + |Suffix(base, flags)| <= width <= NTOA_BUFFER_SIZE {
        ZeroFilledAlternative(value, base, width, flags);
      } else {
        ZeroFilledSpoiled(value, base, width, flags);
      }
    } else if !flags.precision && n == width {
      RightOverwritten(value, base, width, flags);
    } else if if base == 16 then Max(n, prec) + 2 <= NTOA_BUFFER_SIZE else prec <= n {
      RightAlternative(value, base, prec, width, flags);
    } else if base == 8 && prec == NTOA_BUFFER_SIZE {
      FullOctal(value, width, flags);
    } else {
      RightSpoiled(value, base, prec, width, flags);
    }
  }

  lemma ZeroNumber(base: nat, prec: nat, flags: Flags)
    requires base == 8 || base == 16
    requires !flags.precision ==> prec == 0
    ensures PlainNumber(0, base, prec, flags)
         == if !flags.precision then "0" else PadTo('0', 0, prec)
  {
    if !flags.precision {
      assert Digits(0, base, flags.uppercase, NTOA_BUFFER_SIZE) == "0";
      ReverseOne('0');
      assert PadTo('0', 1, 0) + "0" == "0";
    } else {
      assert PadTo('0', 0, prec) + "" == PadTo('0', 0, prec);
    }
  }

  lemma ZeroIsPlain(base: nat, prec: nat, width: nat, flags: Flags)
    requires IsAlternative(0, base, prec, flags) && !(base == 8 && flags.precision && prec == 0)
    ensures IsoText(0, false, base, prec, width, flags) == PlainText(0, false, base, prec, width, flags)
  {
    hide Layout;
    ZeroNumber(base, prec, flags);
    assert "" + "" == "";
  }

  lemma NothingIsNotZero(width: nat, flags: Flags)
    requires IsAlternative(0, 8, 0, flags) && flags.precision
    ensures PlainText(0, false, 8, 0, width, flags) != IsoText(0, false, 8, 0, width, flags)
  {
    ZeroNumber(8, 0, flags);
    assert PlainNumber(0, 8, 0, flags) == "" && IsoNumber(0, 8, 0, flags) == "0";
    var plain, iso := PlainText(0, false, 8, 0, width, flags), IsoText(0, false, 8, 0, width, flags);
    var at := if flags.left || width == 0 then 0 else width - 1;
    assert iso[at] == '0';
    assert width > 0 ==> plain[at] == ' ';
  }

  /** The source ignores '#' for 0, where the standard asks for a single octal 0 even if the precision is 0. */
  lemma ZeroIsIso(negative: bool, base: nat, prec: nat, width: nat, flags: Flags)
    requires IsAlternative(0, base, prec, flags) && !negative
    ensures NumberText(0, negative, base, prec, width, flags) == IsoText(0, negative, base, prec, width, flags)
       <==> KeepsLayout(|StartDigits(0, base, flags)|, "", prec, width, flags)
            && !(base == 8 && flags.precision && prec == 0)
  {
    hide NumberText, PlainText, StartDigits, Reverse, Layout, PlainNumber;
    NumberTextIsPlain(0, negative, base, prec, width, flags);
    assert SignText(negative, flags) == "";
    if base == 8 && flags.precision && prec == 0 {
      NothingIsNotZero(width, flags);
    } else {
      ZeroIsPlain(base, prec, width, flags);
    }
  }

  /** When a conversion prints what the standard asks for. */
  predicate MeetsStandard(value: nat, sign: string, base: nat, prec: nat, width: nat, flags: Flags)
    requires 2 <= base <= 16
  {
    var n := |StartDigits(value, base, flags)|;
    if flags.hash && value > 0 then KeepsPrefix(n, base, prec, width, flags)
    else KeepsLayout(n, sign, prec, width, flags) && !(flags.hash && base == 8 && flags.precision && prec == 0)
  }

  /** With and without '#', for every value, width and precision, the printed text is the standard's exactly under
      this condition. */
  lemma NumberTextIsIso(value: u64, negative: bool, base: nat, prec: nat, width: nat, flags: Flags)
    requires 2 <= base <= 16 && (flags.hash ==> IsAlternative(value, base, prec, flags) && !negative)
    ensures NumberText(value, negative, base, prec, width, flags) == IsoText(value, negative, base, prec, width, flags)
       <==> MeetsStandard(value, SignText(negative, flags), base, prec, width, flags)
  {
    hide NumberText, IsoText, PlainText, StartDigits, KeepsLayout, KeepsPrefix;
    if !flags.hash {
      NumberTextIsPlain(value, negative, base, prec, width, flags);
      IsoIsPlain(value, negative, base, prec, width, flags);
    } else if value > 0 {
      AlternativeIsIso(value, base, prec, width, flags);
    } else {
      ZeroIsIso(negative, base, prec, width, flags);
    }
  }

  // ---------- the length of a text ----------

  lemma NumberTextLength(value: nat, negative: bool, base: nat, prec: nat, width: nat, flags: Flags)
    requires 2 <= base <= 16
    ensures |NumberText(value, negative, base, prec, width, flags)| <= Max(width, NTOA_BUFFER_SIZE)
  {
    hide ReversedNumber, StartDigits;
  }

  lemma IsoTextLength(value: nat, negative: bool, base: nat, prec: nat, width: nat, flags: Flags)
    requires 2 <= base <= 16
    ensures Max(width, prec) <= |IsoText(value, negative, base, prec, width, flags)|
  {
    hide Layout, StartDigits;
    LayoutLength(SignText(negative, flags) + IsoPrefix(value, base, flags), IsoNumber(value, base, prec, flags), width,
                 flags);
  }

  // ---------- a precision of 0 in the place of none ----------

  lemma FewDigits(value: u64, base: nat, flags: Flags)
    requires base == 8 || base == 10 || base == 16
    ensures |StartDigits(value, base, flags)| <= 24
  {
    hide Digits, Pow;
    if base == 10 {
      DecimalIsShort(value);
      DigitCount(value, base, flags.uppercase, NTOA_BUFFER_SIZE, 24);
    } else {
      DigitCounts(value, base, flags);
    }
  }

  /** The flags the source goes on with after a negative precision. */
  function WithPrecision(flags: Flags): Flags {
    flags.(precision := true, zeropad := false)
  }

  lemma SpacesAreNotZeros(lead: string, number: string, k: nat)
    requires lead == "" || lead == "-" || lead == "+" || lead == " " || lead == "0x" || lead == "0X"
    ensures k > 0 ==> Repeat(' ', k) + lead + number != lead + Repeat('0', k) + number
  {
    hide Repeat;
    if k > 0 {
      var at := if lead == " " then 1 else 0;
      assert (Repeat(' ', k) + lead + number)[at] == ' ';
      assert (lead + Repeat('0', k) + number)[at] != ' ';
    }
  }

  lemma FilledLayouts(lead: string, number: string, width: nat, flags: Flags)
    requires !flags.left && flags.zeropad
    ensures var n := |lead| + |number|;
      && Layout(lead, number, width, flags)
         == (if n < width then lead + Repeat('0', width - n) + number else lead + number)
      && Layout(lead, number, width, WithPrecision(flags))
         == if n < width then Repeat(' ', width - n) + lead + number else lead + number
  {
    hide Repeat;
    assert "" + lead + number == lead + "" + number == lead + number;
  }

  lemma LayoutWithSpaces(lead: string, number: string, width: nat, flags: Flags)
    requires lead == "" || lead == "-" || lead == "+" || lead == " " || lead == "0x" || lead == "0X"
    ensures Layout(lead, number, width, WithPrecision(flags)) == Layout(lead, number, width, flags)
       <==> flags.left || !flags.zeropad || width <= |lead| + |number|
  {
    hide Repeat;
    var n := |lead| + |number|;
    if !flags.left && flags.zeropad {
      FilledLayouts(lead, number, width, flags);
      if n < width {
        SpacesAreNotZeros(lead, number, width - n);
      }
      hide Layout;
    }
  }

  lemma SameNumber(value: u64, negative: bool, base: nat, width: nat, flags: Flags)
    requires value > 0 && 2 <= base <= 16
    ensures var lead := SignText(negative, flags) + IsoPrefix(value, base, flags);
      var number := IsoNumber(value, base, 0, flags);
      && IsoText(value, negative, base, 0, width, flags) == Layout(lead, number, width, flags)
      && IsoText(value, negative, base, 0, width, WithPrecision(flags))
         == Layout(lead, number, width, WithPrecision(flags))
  {
    hide Layout, Digits, Reverse, PadTo;
    assert StartDigits(value, base, WithPrecision(flags)) == StartDigits(value, base, flags);
  }

  /** A number has the same digits; what the width leaves over is filled with spaces. */
  lemma NoPrecisionForNumber(value: u64, negative: bool, base: nat, width: nat, flags: Flags)
    requires value > 0 && (base == 8 || base == 10 || base == 16)
    requires flags.hash ==> IsAlternative(value, base, 0, flags) && !negative
    ensures NumberText(value, negative, base, 0, width, WithPrecision(flags))
         == IsoText(value, negative, base, 0, width, flags)
       <==> flags.left || !flags.zeropad || width <= |IsoText(value, negative, base, 0, 0, flags)|
  {
    hide NumberText, IsoText, StartDigits, Layout, Reverse, IsoNumber;
    var asked := WithPrecision(flags);
    var lead, number := SignText(negative, flags) + IsoPrefix(value, base, flags), IsoNumber(value, base, 0, flags);
    FewDigits(value, base, asked);
    SignIsShort(negative, asked);
    NumberTextIsIso(value, negative, base, 0, width, asked);
    assert MeetsStandard(value, SignText(negative, asked), base, 0, width, asked);
    SameNumber(value, negative, base, width, flags);
    SameNumber(value, negative, base, 0, flags);
    LayoutWithSpaces(lead, number, width, flags);
    LayoutLength(lead, number, 0, flags);
  }

  lemma ZeroDigit(base: nat, flags: Flags)
    requires 2 <= base <= 16 && !flags.precision
    ensures PlainNumber(0, base, 0, flags) == "0"
  {
    assert Digits(0, base, flags.uppercase, NTOA_BUFFER_SIZE) == "0";
    ReverseOne('0');
    assert PadTo('0', 1, 0) + "0" == "0";
  }

  lemma NoDigitForZero(base: nat, flags: Flags)
    requires 2 <= base <= 16 && flags.precision
    ensures |StartDigits(0, base, flags)| == 0 && PlainNumber(0, base, 0, flags) == ""
  {
    assert PadTo('0', 0, 0) + "" == "";
  }

  lemma ZeroIsSeen(sign: string, width: nat, a: Flags, b: Flags)
    requires |sign| <= 1 && sign != "0" && a.left == b.left && !a.zeropad
    ensures Layout(sign, "", width, a) != Layout(sign, "0", width, b)
  {
    hide Repeat;
    var printed, iso := Layout(sign, "", width, a), Layout(sign, "0", width, b);
    if a.left {
      assert iso[|sign|] == '0';
      assert |sign| < |printed| ==> printed[|sign|] == ' ';
    } else {
      assert iso[|iso| - 1] == '0';
      assert |printed| > 0 ==> printed[|printed| - 1] == if sign == "" then ' ' else sign[0];
    }
  }

  /** With a precision of 0 the number 0 has no digits, where without one it has a '0'. */
  lemma NoPrecisionForZero(negative: bool, base: nat, width: nat, flags: Flags)
    requires !flags.precision && (base == 8 || base == 10 || base == 16)
    requires flags.hash ==> IsAlternative(0, base, 0, flags) && !negative
    ensures NumberText(0, negative, base, 0, width, WithPrecision(flags))
         != IsoText(0, negative, base, 0, width, flags)
  {
    hide NumberText, Layout, PlainNumber, StartDigits;
    var asked, sign := WithPrecision(flags), SignText(negative, flags);
    SignIsShort(negative, asked);
    NoDigitForZero(base, asked);
    NumberTextIsPlain(0, negative, base, 0, width, asked);
    ZeroDigit(base, flags);
    ZeroIsSeen(sign, width, asked, flags);
    assert sign + "" == sign;
  }

  /** The source's precision of 0 does as well as none exactly for numbers other than 0 whose width is not filled up
      with zeros. */
  lemma ZeroForNoPrecision(value: u64, negative: bool, base: nat, width: nat, flags: Flags)
    requires !flags.precision && (base == 8 || base == 10 || base == 16)
    requires flags.hash ==> IsAlternative(value, base, 0, flags) && !negative
    ensures NumberText(value, negative, base, 0, width, WithPrecision(flags))
         == IsoText(value, negative, base, 0, width, flags)
       <==> value != 0
            && (flags.left || !flags.zeropad || width <= |IsoText(value, negative, base, 0, 0, flags)|)
  {
    hide NumberText, IsoText;
    if value > 0 {
      NoPrecisionForNumber(value, negative, base, width, flags);
    } else {
      NoPrecisionForZero(negative, base, width, flags);
    }
  }
}
