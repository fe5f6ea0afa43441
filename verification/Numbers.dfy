/** Numbers from text (loader/common/conversions.c) and numbers to text (loader/common/format.c). */
module Numbers {
  import opened Arith
  import opened Buffers

  // ----- Digits -----

  /** `tolower`. */
  function Lower(c: char): char {
    if 'A' <= c <= 'Z' then c - 'A' + 'a' else c
  }

  /** The digit a character stands for, in any base up to 16. */
  function DigitOf(c: char): (d: Option<nat>)
    ensures d.Some? ==> d.value < 16
  {
    if '0' <= c <= '9' then Some((c - '0') as nat)
    else if 'a' <= Lower(c) <= 'f' then Some(10 + (Lower(c) - 'a') as nat)
    else None
  }

  predicate IsDigit(c: char, base: nat) {
    DigitOf(c).Some? && DigitOf(c).value < base
  }

  predicate AllDigits(s: string, base: nat) {
    forall i: nat :: i < |s| ==> IsDigit(s[i], base)
  }

  /** What a digit string means, without bounds. */
  function ValueOf(s: string, base: nat): nat
    requires AllDigits(s, base)
  {
    if s == [] then 0 else Times(ValueOf(s[..|s| - 1], base), base) + DigitOf(s[|s| - 1]).value
  }

  lemma ValueSnoc(s: string, c: char, base: nat)
    requires AllDigits(s, base) && IsDigit(c, base)
    ensures AllDigits(s + [c], base)
    ensures ValueOf(s + [c], base) == Times(ValueOf(s, base), base) + DigitOf(c).value
  {
    assert (s + [c])[..|s|] == s;
  }

  /** A prefix is worth no more than the whole. */
  lemma {:induction false} ValueMonotone(s: string, k: nat, base: Pos)
    requires AllDigits(s, base) && k <= |s|
    ensures ValueOf(s[..k], base) <= ValueOf(s, base)
    decreases |s|
  {
    if k < |s| {
      var t := s[..|s| - 1];
      assert t[..k] == s[..k];
      ValueMonotone(t, k, base);
      MulMonotone(1, base, ValueOf(t, base));
    } else {
      assert s[..k] == s;
    }
  }

  // ----- Parsing -----

  /** The check on one digit: it is below the base and nothing wraps. */
  lemma OverflowCheck(number: nat, base: Pos, digit: nat)
    requires number < TWO_64 && digit < 16
    ensures Quot((Times(number, base) + digit) % TWO_64, base) == number
       <==> digit < base && Times(number, base) + digit < TWO_64
  {
    var x := Times(number, base) + digit;
    var next := x % TWO_64;
    DivModRebuild(next, base);
    if digit < base && x < TWO_64 {
      DivModUnique(next, base, number, digit);
    } else if x < TWO_64 {
      MulDistribute(number, 1, base);
      DivLower(next, base, number + 1);
    } else {
      assert next <= x - TWO_64;
    }
  }

  ghost function Accepted(s: string, base: Pos): Option<nat> {
    if AllDigits(s, base) && ValueOf(s, base) < TWO_64 then Some(ValueOf(s, base)) else None
  }

  /**
   `do_str_to_u64_unchecked`: accepts exactly the strings of digits below the base whose value fits
   in 64 bits, and gives that value.
   */
  method ParseDigits(s: string, base: Pos) returns (r: Option<nat>)
    ensures r == Accepted(s, base)
  {
    hide Times, Quot;
    var number, i := 0, 0;
    while i < |s|
      invariant 0 <= i <= |s|
      invariant AllDigits(s[..i], base) && number == ValueOf(s[..i], base) < TWO_64
    {
      var d := DigitOf(s[i]);
      if d.None? {
        return None;
      }
      assert s[..i + 1] == s[..i] + [s[i]];
      var next := (Times(number, base) + d.value) % TWO_64;
      OverflowCheck(number, base, d.value);
      if Quot(next, base) != number {
        Refused(s, i, base);
        return None;
      }
      ValueSnoc(s[..i], s[i], base);
      number := next;
      i := i + 1;
    }
    assert s[..i] == s;
    r := Some(number);
  }

  lemma Refused(s: string, i: nat, base: Pos)
    requires i < |s| && AllDigits(s[..i], base) && DigitOf(s[i]).Some?
    requires !(DigitOf(s[i]).value < base && Times(ValueOf(s[..i], base), base) + DigitOf(s[i]).value < TWO_64)
    ensures Accepted(s, base) == None
  {
    hide Times;
    if AllDigits(s, base) {
      assert IsDigit(s[i], base);
      assert s[..i + 1] == s[..i] + [s[i]];
      ValueSnoc(s[..i], s[i], base);
      ValueMonotone(s, i + 1, base);
    }
  }

  /** `consume_base`: the prefix taken off and the base it announces, 0 for none. */
  function ConsumeBase(s: string): (r: (string, nat)) {
    if s == [] then (s, 0)
    else if "0x" <= s then (s[2..], 16)
    else if "0b" <= s then (s[2..], 2)
    else if "0" <= s then (s[1..], 8)
    else if '1' <= s[0] <= '9' then (s, 10)
    else (s, 0)
  }

  /** What `str_to_u64_with_base` gives; base 0 asks for the base the text announces. */
  ghost function U64Of(s: string, base: nat): Option<nat> {
    var t := if "+" <= s then s[1..] else s;
    var (digits, announced) := ConsumeBase(t);
    if "-" <= t || (base == 0 && announced == 0) then None
    else Accepted(digits, if base != 0 then base else announced)
  }

  method StrToU64(s: string, base: nat) returns (r: Option<nat>)
    ensures r == U64Of(s, base)
  {
    var t := if "+" <= s then s[1..] else s;
    if "-" <= t {
      return None;
    }
    var (digits, announced) := ConsumeBase(t);
    if base == 0 && announced == 0 {
      return None;
    }
    r := ParseDigits(digits, if base != 0 then base else announced);
  }

  /** The narrower unsigned variants: values that fit their width are kept, others refused. */
  method StrToUnsigned(s: string, base: nat, bits: nat) returns (r: Option<nat>)
    ensures r == Fitting(U64Of(s, base), bits)
  {
    r := StrToU64(s, base);
    if r.Some? && r.value % Pow2(bits) != r.value {
      NoFit(r.value, bits);
      return None;
    }
    if r.Some? { NoFit(r.value, bits); }
  }

  ghost function Fitting(r: Option<nat>, bits: nat): Option<nat> {
    if r.Some? && r.value < Pow2(bits) then r else None
  }

  lemma NoFit(x: nat, bits: nat)
    ensures x % Pow2(bits) == x <==> x < Pow2(bits)
  {
    if x < Pow2(bits) { DivModUnique(x, Pow2(bits), 0, x); }
  }

  /** What the forms of a number announce, when no base is given. */
  lemma ReadForms(d: string)
    ensures U64Of("0x" + d, 0) == Accepted(d, 16) && U64Of("0b" + d, 0) == Accepted(d, 2)
    ensures !("x" <= d) && !("b" <= d) ==> U64Of("0" + d, 0) == Accepted(d, 8)
    ensures d != "" && '1' <= d[0] <= '9' ==> U64Of(d, 0) == Accepted(d, 10)
    ensures U64Of("-" + d, 0) == None
    ensures !("+" <= d) ==> U64Of("+" + d, 0) == U64Of(d, 0)
  {
    hide Accepted;
    assert ("0x" + d)[2..] == d && ("0b" + d)[2..] == d && ("0" + d)[1..] == d && ("+" + d)[1..] == d;
    var x, b, o := "0x" + d, "0b" + d, "0" + d;
    assert x[0] == '0' && x[1] == 'x' && b[0] == '0' && b[1] == 'b' && o[0] == '0';
    if |d| > 0 { assert o[1] == d[0]; }
  }

  // ----- Printing -----

  /** `hex_char`. */
  function HexChar(upper: bool, d: nat): char
    requires d < 16
  {
    if upper then "0123456789ABCDEF"[d] else "0123456789abcdef"[d]
  }

  lemma HexCharDigit(upper: bool, d: nat)
    requires d < 16
    ensures DigitOf(HexChar(upper, d)) == Some(d)
    ensures d < 10 ==> HexChar(upper, d) == '0' + d as char
    ensures HexChar(upper, d) != '+' && HexChar(upper, d) != '-'
    ensures HexChar(upper, d) == '0' <==> d == 0
    ensures 0 < d < 10 <==> '1' <= HexChar(upper, d) <= '9'
    ensures HexChar(upper, d) != 'x' && (upper ==> HexChar(upper, d) != 'b')
  {
  }

  predicate PrintBase(base: nat) {
    base == 8 || base == 10 || base == 16
  }

  /** The digits of a number, none for zero. */
  function Numeral(v: nat, base: nat, upper: bool): string
    requires PrintBase(base)
  {
    if v == 0 then "" else Numeral(v / base, base, upper) + [HexChar(upper, v % base)]
  }

  function Digits(v: nat, base: nat, upper: bool): string
    requires PrintBase(base)
  {
    if v == 0 then "0" else Numeral(v, base, upper)
  }

  /** The digits mean the number, and do not start with a zero. */
  lemma {:induction false} NumeralValue(v: nat, base: nat, upper: bool)
    requires PrintBase(base)
    ensures AllDigits(Numeral(v, base, upper), base) && ValueOf(Numeral(v, base, upper), base) == v
    ensures v > 0 ==> Numeral(v, base, upper) != [] && Leading(Numeral(v, base, upper)[0], base)
  {
    hide HexChar, DigitOf;
    if v > 0 {
      var s, c := Numeral(v / base, base, upper), HexChar(upper, v % base);
      NumeralValue(v / base, base, upper);
      HexCharDigit(upper, v % base);
      ValueSnoc(s, c, base);
      DivModRebuild(v, base);
      if v / base == 0 {
        assert (s + [c])[0] == c;
      }
    }
  }

  predicate Leading(c: char, base: nat) {
    IsDigit(c, base) && c != '0' && c != '+' && c != '-'
  }

  lemma DigitsValue(v: nat, base: nat, upper: bool)
    requires PrintBase(base)
    ensures AllDigits(Digits(v, base, upper), base) && ValueOf(Digits(v, base, upper), base) == v
    ensures Digits(v, base, upper) != []
  {
    if v == 0 {
      ValueSnoc("", '0', base);
      assert "" + ['0'] == "0";
    } else {
      NumeralValue(v, base, upper);
    }
  }

  /** `struct fmt_spec`. */
  datatype Spec = Spec(isSigned: bool, prepend: Option<char>, upper: bool, left: bool, alternate: bool,
                       pad: char, width: nat, base: nat)

  /** `%llu`, `%#llx` and `%#llo`. */
  const LLU := Spec(false, None, false, false, false, ' ', 0, 10)
  const HASH_LLX := LLU.(alternate := true, base := 16)
  const HASH_LLO := LLU.(alternate := true, base := 8)

  function Prefix(spec: Spec): string {
    if !spec.alternate then ""
    else if spec.base == 16 then (if spec.upper then "0X" else "0x")
    else if spec.base == 8 then "0"
    else ""
  }

  function Negative(spec: Spec, v: nat): bool {
    spec.isSigned && v >= Pow2(63)
  }

  /** The sign is written first, whatever the padding. */
  function Sign(spec: Spec, v: nat): string {
    if Negative(spec, v) then "-" else if spec.prepend.Some? then [spec.prepend.value] else ""
  }

  function Magnitude(spec: Spec, v: nat): (m: nat)
    requires v < TWO_64
    ensures m < TWO_64
  {
    if Negative(spec, v) then TWO_64 - v else v
  }

  function Padding(spec: Spec, n: nat): string {
    seq(if spec.width <= n then 0 else spec.width - n, _ => if spec.left then ' ' else spec.pad)
  }

  function Repr(spec: Spec, v: nat): string
    requires v < TWO_64 && PrintBase(spec.base)
  {
    Prefix(spec) + Digits(Magnitude(spec, v), spec.base, spec.upper)
  }

  /** The text of one integer conversion. */
  function Formatted(spec: Spec, v: nat): string
    requires v < TWO_64 && PrintBase(spec.base)
  {
    var repr := Repr(spec, v);
    Sign(spec, v) + if spec.left then repr + Padding(spec, |repr|) else Padding(spec, |repr|) + repr
  }

  /**
   The text of a 64-bit number as C has it: a sign, which a signed number from 2^63 on always has; digits that mean the
   number or its negative, without a leading zero; a prefix in front of them; and padding up to the width, of blanks
   behind or of the pad character between sign and prefix.
   */
  ghost predicate IsConversion(spec: Spec, v: nat, t: string) {
    exists d: string :: ConvertsTo(spec, v, d, t)
  }

  /** With `d` as the digits. */
  ghost predicate ConvertsTo(spec: Spec, v: nat, d: string, t: string) {
    var negative := spec.isSigned && v >= 0x8000_0000_0000_0000;
    var sign := if negative then "-" else if spec.prepend.Some? then [spec.prepend.value] else "";
    var prefix :=
      if spec.alternate && spec.base == 16 then if spec.upper then "0X" else "0x"
      else if spec.alternate && spec.base == 8 then "0" else "";
    var n: nat := Max(spec.width - |prefix + d|, 0);
    && AllDigits(d, spec.base) && (d == "0" || (d != "" && d[0] != '0'))
    && ValueOf(d, spec.base) == (if negative then 0x1_0000_0000_0000_0000 - v else v)
    && t == sign + if spec.left then prefix + d + Repeated(' ', n) else Repeated(spec.pad, n) + (prefix + d)
  }

  function Repeated(c: char, n: nat): string {
    seq(n, _ => c)
  }

  lemma FormattedIsConversion(spec: Spec, v: nat)
    requires v < TWO_64 && PrintBase(spec.base)
    ensures IsConversion(spec, v, Formatted(spec, v))
  {
    hide Digits, AllDigits, ValueOf, Pow2;
    Pow2SixtyThree();
    var m := Magnitude(spec, v);
    var d := Digits(m, spec.base, spec.upper);
    DigitsValue(m, spec.base, spec.upper);
    NoLeadingZero(m, spec.base, spec.upper);
    PaddingIs(spec, |Repr(spec, v)|);
    assert ConvertsTo(spec, v, d, Formatted(spec, v));
  }

  lemma PaddingIs(spec: Spec, n: nat)
    ensures Padding(spec, n) == Repeated(if spec.left then ' ' else spec.pad, Max(spec.width - n, 0))
  {
  }

  lemma Pow2SixtyThree()
    ensures Pow2(63) == 0x8000_0000_0000_0000
  {
    Pow2SixtyFour();
  }

  lemma NoLeadingZero(v: nat, base: nat, upper: bool)
    requires PrintBase(base)
    ensures var d := Digits(v, base, upper); d == "0" || (d != "" && d[0] != '0')
  {
    hide Numeral;
    NumeralValue(v, base, upper);
  }

  const REPR_BUFFER_SIZE := 32

  /** `struct fmt_buf_state`: the buffer holds as much of the text as fits, and the rest is only counted. */
  class Output {
    const buffer: array<char>
    var written: nat
    ghost var text: string

    ghost predicate Valid()
      reads this, buffer
    {
      && written == |text|
      && buffer[..Min(written, buffer.Length)] == text[..Min(written, buffer.Length)]
    }

    constructor (buffer: array<char>)
      ensures Valid() && text == "" && this.buffer == buffer
    {
      this.buffer := buffer;
      written, text := 0, "";
    }

    /** `write_one`. */
    method WriteOne(c: char)
      requires Valid()
      modifies this`written, this`text, buffer
      ensures Valid() && text == old(text) + [c]
    {
      if written < buffer.Length {
        buffer[written] := c;
      }
      written := written + 1;
      text := text + [c];
    }

    /** `write_many`. */
    method WriteMany(s: string)
      requires Valid()
      modifies this`written, this`text, buffer
      ensures Valid() && text == old(text) + s
    {
      if written < buffer.Length {
        var n := Min(|s|, buffer.Length - written);
        forall i | written <= i < written + n {
          buffer[i] := s[i - written];
        }
      }
      written := written + |s|;
      text := text + s;
    }

    /** `write_padding`. */
    method WritePadding(spec: Spec, n: nat)
      requires Valid()
      modifies this`written, this`text, buffer
      ensures Valid() && text == old(text) + Padding(spec, n)
    {
      ghost var pad := Padding(spec, n);
      if spec.width <= n {
        assert pad == [];
        return;
      }
      var left := spec.width - n;
      while left > 0
        invariant Valid() && 0 <= left <= |pad| == spec.width - n && text == old(text) + pad[..|pad| - left]
      {
        assert pad[..|pad| - left + 1] == pad[..|pad| - left] + [pad[|pad| - left]];
        WriteOne(if spec.left then ' ' else spec.pad);
        left := left - 1;
      }
      assert pad[..|pad|] == pad;
    }

    method WriteSign(spec: Spec, v: nat)
      requires Valid()
      modifies this`written, this`text, buffer
      ensures Valid() && text == old(text) + Sign(spec, v)
    {
      hide Negative;
      if spec.prepend.Some? || Negative(spec, v) {
        WriteOne(if Negative(spec, v) then '-' else spec.prepend.value);
      } else {
        assert text == text + Sign(spec, v);
      }
    }

    /** `write_integer`. */
    method WriteInteger(spec: Spec, v: nat)
      requires Valid() && v < TWO_64 && PrintBase(spec.base)
      modifies this`written, this`text, buffer
      ensures Valid() && text == old(text) + Formatted(spec, v)
      ensures IsConversion(spec, v, Formatted(spec, v))
    {
      hide Sign, Padding, Prefix, Digits, Magnitude, Valid, IsConversion;
      FormattedIsConversion(spec, v);
      WriteSign(spec, v);
      var repr := Represent(spec, Magnitude(spec, v));
      if spec.left {
        WriteMany(repr);
        WritePadding(spec, |repr|);
      } else {
        WritePadding(spec, |repr|);
        WriteMany(repr);
      }
    }
  }

  /** The digit loop: filled from the end, with room to spare for any 64-bit value. */
  method FillDigits(buffer: array<char>, v: nat, base: Pos, upper: bool) returns (index: nat)
    requires buffer.Length == REPR_BUFFER_SIZE && v < TWO_64 && PrintBase(base)
    modifies buffer
    ensures 10 <= index <= REPR_BUFFER_SIZE && buffer[index..] == Numeral(v, base, upper)
  {
    hide Narrow, Numeral, DigitChar;
    var value: nat := v;
    index := REPR_BUFFER_SIZE;
    ghost var k: nat := 0;
    StartNarrow(v);
    assert Numeral(v, base, upper) == Numeral(v, base, upper) + buffer[index..];
    while value > 0
      invariant index == REPR_BUFFER_SIZE - k && k <= 22 && Narrow(value, k)
      invariant Numeral(v, base, upper) == Numeral(value, base, upper) + buffer[index..]
    {
      NarrowStep(value, k, base);
      ghost var done := buffer[index..];
      NumeralStep(value, base, upper, done);
      index := index - 1;
      buffer[index] := DigitChar(base, upper, Rem(value, base));
      assert buffer[index..] == [DigitChar(base, upper, Rem(value, base))] + done;
      value := Quot(value, base);
      k := k + 1;
    }
    NumeralLength(value, base, upper);
    assert Numeral(v, base, upper) == buffer[index..];
  }

  function DigitChar(base: nat, upper: bool, d: nat): char
    requires PrintBase(base) && d < base
  {
    if base == 16 then HexChar(upper, d) else '0' + d as char
  }

  lemma NumeralStep(v: nat, base: Pos, upper: bool, done: string)
    requires PrintBase(base) && v > 0
    ensures Numeral(v, base, upper) + done
         == Numeral(Quot(v, base), base, upper) + ([DigitChar(base, upper, Rem(v, base))] + done)
  {
    hide HexChar;
    HexCharDigit(upper, v % base);
  }

  /** The representation buffer of `write_integer`, filled from its end: 22 digits and a prefix always fit. */
  method Represent(spec: Spec, v: nat) returns (repr: string)
    requires v < TWO_64 && PrintBase(spec.base)
    ensures repr == Prefix(spec) + Digits(v, spec.base, spec.upper)
  {
    var buffer := new char[REPR_BUFFER_SIZE];
    var index := FillDigits(buffer, v, spec.base, spec.upper);
    NumeralLength(v, spec.base, spec.upper);
    hide Numeral;
    if index == REPR_BUFFER_SIZE {
      index := index - 1;
      buffer[index] := '0';
    }
    ghost var digits := buffer[index..];
    assert digits == Digits(v, spec.base, spec.upper);
    if spec.alternate {
      if spec.base == 16 {
        index := index - 1;
        buffer[index] := if spec.upper then 'X' else 'x';
        index := index - 1;
        buffer[index] := '0';
      } else if spec.base == 8 {
        index := index - 1;
        buffer[index] := '0';
      }
    }
    assert buffer[index..] == Prefix(spec) + digits;
    repr := buffer[index..];
  }

  /** After `k` digits of a 64-bit value, at most `64 - 3k` bits are left. */
  ghost predicate Narrow(value: nat, k: nat) {
    value == 0 || (3 * k <= 64 && value < Pow2(64 - 3 * k))
  }

  lemma StartNarrow(v: nat)
    requires v < TWO_64
    ensures Narrow(v, 0)
  {
    Pow2SixtyFour();
  }

  lemma NarrowStep(value: nat, k: nat, base: Pos)
    requires value > 0 && Narrow(value, k) && PrintBase(base)
    ensures k <= 21 && Narrow(Quot(value, base), k + 1)
  {
    assert value / base <= value / 8;
    BitsLeft(value, 64 - 3 * k);
  }

  lemma BitsLeft(value: nat, n: nat)
    requires value < Pow2(n)
    ensures if n < 3 then value / 8 == 0 else value / 8 < Pow2(n - 3)
  {
    if n >= 3 { assert Pow2(n - 1) == 2 * Pow2(n - 2) == 4 * Pow2(n - 3); }
  }

  lemma NumeralLength(v: nat, base: nat, upper: bool)
    requires PrintBase(base)
    ensures Numeral(v, base, upper) == "" <==> v == 0
  {
  }

  // ----- Round trips -----

  lemma PrintsPlain(spec: Spec, v: nat)
    requires v < TWO_64 && PrintBase(spec.base) && !spec.isSigned && spec.prepend.None? && spec.width == 0
    ensures Formatted(spec, v) == Prefix(spec) + Digits(v, spec.base, spec.upper)
  {
    assert Padding(spec, |Repr(spec, v)|) == "";
  }

  /** A digit string behind the prefix that announces its base is read as its value. */
  lemma ReadsAs(s: string, digits: string, base: Pos, v: nat)
    requires s != [] && s[0] != '+' && s[0] != '-' && ConsumeBase(s) == (digits, base)
    requires AllDigits(digits, base) && ValueOf(digits, base) == v < TWO_64
    ensures U64Of(s, 0) == Some(v)
  {
    hide ValueOf, ConsumeBase;
  }

  /** A number printed in decimal reads back as itself. */
  lemma DecimalRoundTrip(v: nat)
    requires v < TWO_64
    ensures U64Of(Formatted(LLU, v), 0) == Some(v)
  {
    hide Numeral, ValueOf, U64Of, Formatted;
    PrintsPlain(LLU, v);
    var s := Digits(v, 10, false);
    assert Prefix(LLU) + s == s;
    if v == 0 {
      NoDigits(10);
      NoDigits(8);
      assert s[1..] == "" && ConsumeBase(s) == ("", 8);
      ReadsAs(s, "", 8, 0);
    } else {
      NumeralValue(v, 10, false);
      assert ConsumeBase(s) == (s, 10);
      ReadsAs(s, s, 10, v);
    }
  }

  lemma NoDigits(base: nat)
    ensures AllDigits("", base) && ValueOf("", base) == 0
  {
  }

  /** So does one printed in hexadecimal with its prefix. */
  lemma HexRoundTrip(v: nat)
    requires v < TWO_64
    ensures U64Of(Formatted(HASH_LLX, v), 0) == Some(v)
  {
    hide Numeral, ValueOf, U64Of, Formatted, Digits, AllDigits;
    PrintsPlain(HASH_LLX, v);
    var s, digits := Formatted(HASH_LLX, v), Digits(v, 16, false);
    DigitsValue(v, 16, false);
    assert s[0] == '0' && s[1] == 'x' && s[2..] == digits;
    assert "0x" <= s && ConsumeBase(s) == (digits, 16);
    ReadsAs(s, digits, 16, v);
  }

  /** And in octal with its prefix. */
  lemma OctalRoundTrip(v: nat)
    requires v < TWO_64
    ensures U64Of(Formatted(HASH_LLO, v), 0) == Some(v)
  {
    hide Numeral, ValueOf, U64Of, Formatted, Digits;
    PrintsPlain(HASH_LLO, v);
    var s, digits := Formatted(HASH_LLO, v), Digits(v, 8, false);
    DigitsValue(v, 8, false);
    assert s[0] == '0' && s[1..] == digits && s[1] == digits[0];
    assert IsDigit(digits[0], 8);
    assert ConsumeBase(s) == (digits, 8);
    ReadsAs(s, digits, 8, v);
  }

  /** With the upper-case prefix `0X` nothing reads back: the prefix is taken for octal. */
  lemma UpperPrefixRefused(v: nat)
    requires v < TWO_64
    ensures U64Of(Formatted(HASH_LLX.(upper := true), v), 0) == None
  {
    var spec := HASH_LLX.(upper := true);
    PrintsPlain(spec, v);
    var s := Formatted(spec, v);
    assert s[0] == '0' && s[1] == 'X';
    assert ConsumeBase(s) == (s[1..], 8);
    assert !IsDigit(s[1..][0], 8);
  }
}
