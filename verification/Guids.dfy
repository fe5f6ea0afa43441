/** GUIDs to text (the `%pGUID` conversion of loader/common/format.c) and back (loader/filesystem/path.c). */
module Guids {
  import opened Arith
  import opened Numbers

  datatype Guid = Guid(data1: nat, data2: nat, data3: nat, data4: seq<nat>) {
    ghost predicate Valid() {
      data1 < Pow2(32) && data2 < Pow2(16) && data3 < Pow2(16) && |data4| == 8
      && forall i: nat :: i < 8 ==> data4[i] < Pow2(8)
    }

    function Fields(): seq<nat> {
      [data1, data2, data3] + data4
    }
  }

  const CHARS_PER_GUID := 36

  /** A field of the text: its bytes, two characters each, and whether a dash follows. */
  datatype Field = Field(width: nat, dash: bool) {
    function Chars(): nat {
      2 * width
    }

    function Span(): nat {
      2 * width + if dash then 1 else 0
    }
  }

  /** The 8-4-4-4-12 form, the last two groups as bytes. */
  function Layout(): (l: seq<Field>)
    ensures |l| == 11
  {
    [Field(4, true), Field(2, true), Field(2, true), Field(1, false), Field(1, true),
     Field(1, false), Field(1, false), Field(1, false), Field(1, false), Field(1, false), Field(1, false)]
  }

  function Length(layout: seq<Field>): nat {
    if layout == [] then 0 else layout[0].Span() + Length(layout[1..])
  }

  // ----- Text -----

  /** `%0nX`. */
  function HexSpec(width: nat): Spec {
    LLU.(upper := true, pad := '0', width := width, base := 16)
  }

  /** Every value fits the bytes of its field. */
  ghost predicate Fits(values: seq<nat>, layout: seq<Field>) {
    && |values| == |layout|
    && (forall i: nat :: i < |values| ==> FieldHolds(layout[i], values[i]))
  }

  ghost predicate FieldHolds(f: Field, v: nat) {
    0 < f.width <= 4 && v < Pow2(8 * f.width) && v < TWO_64
  }

  ghost function Piece(f: Field, v: nat): string
    requires FieldHolds(f, v)
  {
    Formatted(HexSpec(f.Chars()), v) + if f.dash then "-" else ""
  }

  ghost function Text(values: seq<nat>, layout: seq<Field>): string
    requires Fits(values, layout)
  {
    if values == [] then ""
    else assert FieldHolds(layout[0], values[0]); Piece(layout[0], values[0]) + Text(values[1..], layout[1..])
  }

  /** Leading zeros do not change a value. */
  lemma {:induction false} LeadingZeros(n: nat, s: string)
    requires AllDigits(s, 16)
    ensures AllDigits(Zeros(n) + s, 16) && ValueOf(Zeros(n) + s, 16) == ValueOf(s, 16)
    decreases n + |s|
  {
    hide DigitOf;
    ZeroDigit();
    var t := Zeros(n) + s;
    if s != [] {
      var m := |s| - 1;
      LeadingZeros(n, s[..m]);
      assert t == (Zeros(n) + s[..m]) + [s[m]];
      ValueSnoc(Zeros(n) + s[..m], s[m], 16);
      assert s == s[..m] + [s[m]];
    } else if n > 0 {
      LeadingZeros(n - 1, s);
      assert t == (Zeros(n - 1) + s) + ['0'];
      ValueSnoc(Zeros(n - 1) + s, '0', 16);
    } else {
      assert t == s;
    }
  }

  function Zeros(n: nat): string {
    seq(n, _ => '0')
  }

  lemma ZeroDigit()
    ensures IsDigit('0', 16) && DigitOf('0') == Some(0)
  {
  }

  /** A numeral has no more characters than its value has hexadecimal digits. */
  lemma {:induction false} NumeralFits(v: nat, n: nat)
    requires v < Pow2(4 * n)
    ensures |Numeral(v, 16, true)| <= n
    decreases n
  {
    if v > 0 {
      assert Pow2(4 * n) == 16 * Pow2(4 * (n - 1)) by {
        assert Pow2(4 * n) == 2 * Pow2(4 * n - 1) == 4 * Pow2(4 * n - 2) == 8 * Pow2(4 * n - 3);
      }
      NumeralFits(v / 16, n - 1);
    }
  }

  /** A padded field has exactly its width in upper-case digits and means its value. */
  lemma HexField(v: nat, n: nat)
    requires 0 < n <= 8 && v < Pow2(4 * n) && v < TWO_64
    ensures var s := Formatted(HexSpec(n), v);
            |s| == n && AllDigits(s, 16) && ValueOf(s, 16) == v && !("0b" <= s)
  {
    hide ValueOf, Numeral, AllDigits, DigitOf;
    var digits := Digits(v, 16, true);
    DigitsValue(v, 16, true);
    NumeralFits(v, n);
    assert |digits| <= n;
    assert Padding(HexSpec(n), |digits|) == Zeros(n - |digits|);
    assert Repr(HexSpec(n), v) == digits;
    assert Formatted(HexSpec(n), v) == Zeros(n - |digits|) + digits;
    LeadingZeros(n - |digits|, digits);
    NoLowerB(v, n - |digits|);
    NotBinary(Formatted(HexSpec(n), v));
  }

  lemma NotBinary(s: string)
    requires 'b' !in s
    ensures !("0b" <= s)
  {
    PrefixChar("0b", s, 1);
  }

  lemma PrefixChar(p: string, s: string, i: nat)
    requires i < |p|
    ensures p <= s ==> p[i] in s
  {
    if p <= s { assert p[i] == s[i]; }
  }

  lemma NoLowerB(v: nat, n: nat)
    ensures 'b' !in Zeros(n) + Digits(v, 16, true)
  {
    NumeralUpper(v);
  }

  lemma {:induction false} NumeralUpper(v: nat)
    ensures 'b' !in Numeral(v, 16, true)
  {
    if v > 0 {
      NumeralUpper(v / 16);
      HexCharDigit(true, v % 16);
    }
  }

  // ----- Reading a field -----

  lemma {:induction false} ValueConcat(a: string, t: string)
    requires AllDigits(a, 16) && AllDigits(t, 16)
    ensures AllDigits(a + t, 16) && ValueOf(a + t, 16) >= ValueOf(a, 16) + ValueOf(t, 16)
    decreases |t|
  {
    hide DigitOf;
    if t == [] {
      assert a + t == a;
    } else {
      var m := |t| - 1;
      ValueConcat(a, t[..m]);
      assert a + t == (a + t[..m]) + [t[m]] && t == t[..m] + [t[m]];
      ValueSnoc(a + t[..m], t[m], 16);
      ValueSnoc(t[..m], t[m], 16);
    }
  }

  /**
   With base 16 asked for, a string of hexadecimal digits is read as its value exactly when it does
   not begin with `0b`, which is taken off as the prefix of a binary number.
   */
  lemma HexReadExact(s: string)
    requires AllDigits(s, 16) && ValueOf(s, 16) < TWO_64
    ensures U64Of(s, 16) == Some(ValueOf(s, 16)) <==> !("0b" <= s)
  {
    hide ValueOf;
    NoMarks(s);
    if "0b" <= s {
      BinaryPrefix(s);
    } else if "0" <= s {
      assert s == Zeros(1) + s[1..];
      LeadingZeros(1, s[1..]);
    }
  }

  lemma NoMarks(s: string)
    requires AllDigits(s, 16)
    ensures !("+" <= s) && !("-" <= s) && !("0x" <= s)
  {
    PrefixChar("+", s, 0);
    PrefixChar("-", s, 0);
    PrefixChar("0x", s, 1);
  }

  lemma BinaryPrefix(s: string)
    requires AllDigits(s, 16) && "0b" <= s
    ensures AllDigits(s[2..], 16) && ValueOf(s, 16) > ValueOf(s[2..], 16)
  {
    assert s[0] == "0b"[0] && s[1] == "0b"[1];
    assert s == "0b" + s[2..];
    ValueSnoc("", '0', 16);
    ValueSnoc("" + ['0'], 'b', 16);
    assert "" + ['0'] + ['b'] == "0b";
    ValueConcat("0b", s[2..]);
  }

  /** A lower-case field read as something else. */
  lemma LowerCaseExample()
    ensures AllDigits("0b01", 16) && U64Of("0b01", 16) == Some(1) && ValueOf("0b01", 16) > 1
  {
    hide ValueOf, Accepted;
    var s := "0b01";
    NoMarks(s);
    assert s[2..] == "01" && "0b" <= s;
    BinaryPrefix(s);
    OneOfZeros();
  }

  lemma OneOfZeros()
    ensures AllDigits("01", 16) && ValueOf("01", 16) == 1 && Accepted("01", 16) == Some(1)
  {
    LeadingZeros(1, "1");
    assert Zeros(1) + "1" == "01";
    ValueSnoc("", '1', 16);
    assert "" + ['1'] == "1";
  }

  /** What `consume_guid_part` reads. */
  ghost function FieldOf(s: string, width: nat): Option<nat> {
    Fitting(U64Of(s, 16), 8 * width)
  }

  /** A printed field reads back. */
  lemma FieldRoundTrip(v: nat, f: Field)
    requires FieldHolds(f, v)
    ensures var s := Formatted(HexSpec(f.Chars()), v); |s| == f.Chars() && FieldOf(s, f.width) == Some(v)
  {
    hide ValueOf, U64Of, Formatted, AllDigits;
    HexField(v, f.Chars());
    HexReadExact(Formatted(HexSpec(f.Chars()), v));
  }

  // ----- Reading a GUID -----

  /** The fields at the start of a text, if every one of them reads; the characters between are skipped unseen. */
  ghost function FieldsOf(s: string, layout: seq<Field>): Option<seq<nat>>
    requires |s| >= Length(layout)
  {
    if layout == [] then Some([])
    else
      var f := layout[0];
      match (FieldOf(s[..f.Chars()], f.width), FieldsOf(s[f.Span()..], layout[1..]))
      case (Some(v), Some(vs)) => Some([v] + vs)
      case (_, _) => None
  }

  /** Text of fields reads back as the fields, whatever follows it. */
  lemma {:induction false} TextRoundTrip(values: seq<nat>, layout: seq<Field>, rest: string)
    requires Fits(values, layout)
    ensures |Text(values, layout)| == Length(layout)
    ensures FieldsOf(Text(values, layout) + rest, layout) == Some(values)
    decreases |layout|
  {
    hide Formatted, FieldOf;
    if layout != [] {
      var f, v := layout[0], values[0];
      var head, dash := Formatted(HexSpec(f.Chars()), v), if f.dash then "-" else "";
      var tail := Text(values[1..], layout[1..]);
      assert FieldHolds(f, v);
      FieldRoundTrip(v, f);
      TextRoundTrip(values[1..], layout[1..], rest);
      Pieces(head, dash, tail, rest);
      assert Text(values, layout) == head + dash + tail;
      FieldsCons(f, layout[1..], Text(values, layout) + rest, v, values[1..]);
      assert values == [v] + values[1..] && layout == [f] + layout[1..];
    }
  }

  lemma Pieces(head: string, dash: string, tail: string, rest: string)
    ensures var s := head + dash + tail + rest;
            |s| == |head| + |dash| + |tail| + |rest| && s[..|head|] == head && s[|head| + |dash|..] == tail + rest
  {
  }

  lemma FieldsCons(f: Field, layout: seq<Field>, s: string, v: nat, vs: seq<nat>)
    requires |s| >= f.Span() + Length(layout)
    requires FieldOf(s[..f.Chars()], f.width) == Some(v) && FieldsOf(s[f.Span()..], layout) == Some(vs)
    ensures |s| >= Length([f] + layout) && FieldsOf(s, [f] + layout) == Some([v] + vs)
  {
    hide FieldOf;
    assert ([f] + layout)[1..] == layout;
  }

  // ----- Where the fields are -----

  /** Upper-case hexadecimal digits of a value. */
  ghost predicate IsHex(s: string, v: nat) {
    AllDigits(s, 16) && ValueOf(s, 16) == v && NoLowerCase(s)
  }

  ghost predicate NoLowerCase(s: string) {
    forall i: nat :: i < |s| ==> !('a' <= s[i] <= 'z')
  }

  /** The text of a GUID in the form 8-4-4-4-12. */
  ghost predicate IsGuidText(g: Guid, s: string) {
    && |s| == 36 && |g.data4| == 8
    && s[8] == '-' && s[13] == '-' && s[18] == '-' && s[23] == '-'
    && IsHex(s[0..8], g.data1) && IsHex(s[9..13], g.data2) && IsHex(s[14..18], g.data3)
    && IsHex(s[19..21], g.data4[0]) && IsHex(s[21..23], g.data4[1])
    && IsHex(s[24..26], g.data4[2]) && IsHex(s[26..28], g.data4[3]) && IsHex(s[28..30], g.data4[4])
    && IsHex(s[30..32], g.data4[5]) && IsHex(s[32..34], g.data4[6]) && IsHex(s[34..36], g.data4[7])
  }

  lemma HexIsUpper(v: nat, n: nat)
    requires 0 < n <= 8 && v < Pow2(4 * n) && v < TWO_64
    ensures |Formatted(HexSpec(n), v)| == n && IsHex(Formatted(HexSpec(n), v), v)
  {
    hide ValueOf, Numeral, AllDigits, DigitOf, Formatted;
    HexField(v, n);
    UpperDigits(v);
    UpperPadding(v, n);
  }

  lemma UpperPadding(v: nat, n: nat)
    requires v < TWO_64
    requires NoLowerCase(Digits(v, 16, true))
    ensures NoLowerCase(Formatted(HexSpec(n), v))
  {
    hide Numeral;
    var digits := Digits(v, 16, true);
    assert Formatted(HexSpec(n), v) == Padding(HexSpec(n), |digits|) + digits;
  }

  lemma UpperDigits(v: nat)
    ensures NoLowerCase(Digits(v, 16, true))
  {
    UpperNumeral(v);
  }

  lemma UpperChar(d: nat)
    requires d < 16
    ensures !('a' <= HexChar(true, d) <= 'z')
  {
    if d < 10 {
      assert HexChar(true, d) in "0123456789";
    } else {
      assert HexChar(true, d) in "ABCDEF";
    }
  }

  lemma {:induction false} UpperNumeral(v: nat)
    ensures NoLowerCase(Numeral(v, 16, true))
  {
    hide HexChar;
    if v > 0 {
      UpperNumeral(v / 16);
      UpperChar(v % 16);
    }
  }

  /** Field `i` is where the fields before it end, with its dash behind it. */
  lemma {:induction false} FieldAt(values: seq<nat>, layout: seq<Field>, i: nat)
    requires Fits(values, layout) && i < |layout|
    ensures var t, at, f := Text(values, layout), Length(layout[..i]), layout[i];
            && |t| == Length(layout) && at + f.Span() <= |t|
            && IsHex(t[at..at + f.Chars()], values[i]) && (f.dash ==> t[at + f.Chars()] == '-')
    decreases |layout|
  {
    hide Piece, IsHex, Text, FieldHolds;
    var f, v := layout[0], values[0];
    FirstPiece(values, layout);
    var head, tail := Piece(f, v), Text(values[1..], layout[1..]);
    if i == 0 {
      assert layout[..0] == [];
      assert (head + tail)[0..0 + f.Chars()] == head[..f.Chars()];
    } else {
      FieldAt(values[1..], layout[1..], i - 1);
      assert layout[..i][1..] == layout[1..][..i - 1] && layout[..i][0] == f;
      Behind(head, tail, Length(layout[1..][..i - 1]), layout[i].Chars());
    }
  }

  lemma FirstPiece(values: seq<nat>, layout: seq<Field>)
    requires Fits(values, layout) && layout != []
    ensures FieldHolds(layout[0], values[0]) && Fits(values[1..], layout[1..])
    ensures var head := Piece(layout[0], values[0]);
            && Text(values, layout) == head + Text(values[1..], layout[1..])
            && |Text(values, layout)| == Length(layout) && |head| == layout[0].Span()
            && |Text(values[1..], layout[1..])| == Length(layout[1..])
            && IsHex(head[..layout[0].Chars()], values[0])
            && (layout[0].dash ==> head[layout[0].Chars()] == '-')
  {
    hide Piece, IsHex, Formatted;
    assert FieldHolds(layout[0], values[0]);
    PieceIs(layout[0], values[0]);
    TextRoundTrip(values, layout, "");
    TextRoundTrip(values[1..], layout[1..], "");
  }

  lemma PieceIs(f: Field, v: nat)
    requires FieldHolds(f, v)
    ensures |Piece(f, v)| == f.Span() && IsHex(Piece(f, v)[..f.Chars()], v)
    ensures f.dash ==> Piece(f, v)[f.Chars()] == '-'
  {
    hide Formatted, IsHex;
    HexIsUpper(v, f.Chars());
    var s := Formatted(HexSpec(f.Chars()), v);
    assert (s + if f.dash then "-" else "")[..f.Chars()] == s;
  }

  lemma Behind(a: string, b: string, lo: nat, n: nat)
    requires lo + n <= |b|
    ensures (a + b)[|a| + lo..|a| + lo + n] == b[lo..lo + n]
    ensures lo + n < |b| ==> (a + b)[|a| + lo + n] == b[lo + n]
  {
  }

  lemma Starts()
    ensures var l := Layout();
            && Length(l) == 36 && Length(l[..0]) == 0 && Length(l[..1]) == 9 && Length(l[..2]) == 14
            && Length(l[..3]) == 19 && Length(l[..4]) == 21 && Length(l[..5]) == 24 && Length(l[..6]) == 26
            && Length(l[..7]) == 28 && Length(l[..8]) == 30 && Length(l[..9]) == 32 && Length(l[..10]) == 34
  {
    var l := Layout();
    assert l[..0] == [];
    StartNext(l, 0);
    StartNext(l, 1);
    StartNext(l, 2);
    StartNext(l, 3);
    StartNext(l, 4);
    StartNext(l, 5);
    StartNext(l, 6);
    StartNext(l, 7);
    StartNext(l, 8);
    StartNext(l, 9);
    StartNext(l, 10);
    assert l[..11] == l;
  }

  lemma {:induction false} StartNext(l: seq<Field>, i: nat)
    requires i < |l|
    ensures Length(l[..i + 1]) == Length(l[..i]) + l[i].Span()
  {
    if i == 0 {
      assert l[..1][1..] == [] && l[..0] == [];
    } else {
      StartNext(l[1..], i - 1);
      assert l[..i + 1][1..] == l[1..][..i] && l[..i][1..] == l[1..][..i - 1];
    }
  }

  lemma GuidShape(g: Guid)
    requires g.Valid()
    ensures Fits(g.Fields(), Layout()) && IsGuidText(g, Text(g.Fields(), Layout()))
  {
    hide Fits, Text, IsHex, Length;
    GuidFits(g);
    Starts();
    var v, l := g.Fields(), Layout();
    FieldAt(v, l, 0);
    FieldAt(v, l, 1);
    FieldAt(v, l, 2);
    FieldAt(v, l, 3);
    FieldAt(v, l, 4);
    FieldAt(v, l, 5);
    FieldAt(v, l, 6);
    FieldAt(v, l, 7);
    FieldAt(v, l, 8);
    FieldAt(v, l, 9);
    FieldAt(v, l, 10);
  }

  /** `consume_guid_part`: the view moves on whether or not the field reads. */
  method ConsumePart(s: string, f: Field) returns (r: Option<nat>, rest: string)
    requires |s| >= f.Span()
    ensures r == FieldOf(s[..f.Chars()], f.width) && rest == s[f.Span()..]
  {
    r := StrToUnsigned(s[..f.Chars()], 16, 8 * f.width);
    rest := s[f.Span()..];
  }

  /** After the fields `got`, up to `at`: the rest of the layout reads what is left. */
  ghost predicate Reading(s: string, layout: seq<Field>, got: seq<nat>, at: nat) {
    && |got| <= |layout| && Length(layout) <= |s|
    && at + Length(layout[|got|..]) == Length(layout)
    && FieldsOf(s, layout) == Extend(got, FieldsOf(s[at..], layout[|got|..]))
  }

  ghost function Extend(got: seq<nat>, more: Option<seq<nat>>): Option<seq<nat>> {
    if more.Some? then Some(got + more.value) else None
  }

  lemma StartReading(s: string, layout: seq<Field>)
    requires |s| >= Length(layout)
    ensures Reading(s, layout, [], 0)
  {
    hide Length, FieldsOf;
    assert layout[0..] == layout && s[0..] == s;
    var r := FieldsOf(s, layout);
    if r.Some? { assert [] + r.value == r.value; }
  }

  lemma FieldsStep(s: string, layout: seq<Field>)
    requires layout != [] && |s| >= Length(layout)
    ensures Length(layout) == layout[0].Span() + Length(layout[1..])
    ensures match FieldOf(s[..layout[0].Chars()], layout[0].width)
            case None => FieldsOf(s, layout) == None
            case Some(v) => FieldsOf(s, layout) == Extend([v], FieldsOf(s[layout[0].Span()..], layout[1..]))
  {
    hide FieldOf;
  }

  lemma TailOf<T>(l: seq<T>, k: nat)
    requires k < |l|
    ensures l[k..][0] == l[k] && l[k..][1..] == l[k + 1..]
  {
  }

  lemma NextField(s: string, layout: seq<Field>, got: seq<nat>, at: nat)
    requires Reading(s, layout, got, at) && |got| < |layout|
    ensures var f := layout[|got|];
            && at + f.Span() <= |s|
            && match FieldOf(s[at..][..f.Chars()], f.width)
               case None => FieldsOf(s, layout) == None
               case Some(v) => Reading(s, layout, got + [v], at + f.Span())
  {
    hide Length, FieldOf, FieldsOf, Extend;
    ExtendNone(got);
    var k := |got|;
    var f := layout[k];
    TailOf(layout, k);
    FieldsStep(s[at..], layout[k..]);
    assert s[at..][f.Span()..] == s[at + f.Span()..];
    var r := FieldOf(s[at..][..f.Chars()], f.width);
    if r.Some? {
      ExtendTwice(got, [r.value], FieldsOf(s[at + f.Span()..], layout[k + 1..]));
    }
  }

  lemma ExtendNone(a: seq<nat>)
    ensures Extend(a, None) == None
  {
  }

  lemma ExtendTwice(a: seq<nat>, b: seq<nat>, more: Option<seq<nat>>)
    ensures Extend(a, Extend(b, more)) == Extend(a + b, more)
  {
    if more.Some? { assert a + (b + more.value) == a + b + more.value; }
  }

  lemma AllRead(s: string, layout: seq<Field>, got: seq<nat>, at: nat)
    requires Reading(s, layout, got, at) && |got| == |layout|
    ensures FieldsOf(s, layout) == Some(got) && at == Length(layout)
  {
    assert got + [] == got;
  }

  lemma LayoutFacts()
    ensures var l := Layout(); l[0] == Field(4, true) && l[1] == l[2] == Field(2, true)
    ensures forall k: nat :: 3 <= k < 11 ==> Layout()[k] == Field(1, k == 4)
    ensures Length(Layout()) == CHARS_PER_GUID
  {
    var l := Layout();
    ByteFields(l[5..]);
    assert l[4..][1..] == l[5..] && l[3..][1..] == l[4..] && l[2..][1..] == l[3..] && l[1..][1..] == l[2..];
    assert Length(l[4..]) == 3 + 12;
    assert Length(l[2..]) == 5 + 2 + 15;
  }

  lemma {:induction false} ByteFields(l: seq<Field>)
    requires forall k: nat :: k < |l| ==> l[k] == Field(1, false)
    ensures Length(l) == 2 * |l|
  {
    if l != [] { ByteFields(l[1..]); }
  }

  /** One field read, and where that leaves the whole. */
  method ReadField(s: string, rest: string, f: Field, ghost got: seq<nat>, ghost at: nat)
    returns (r: Option<nat>, rest': string)
    requires Reading(s, Layout(), got, at) && rest == s[at..] && |got| < 11 && f == Layout()[|got|]
    ensures match r
            case None => FieldsOf(s, Layout()) == None
            case Some(v) =>
              Reading(s, Layout(), got + [v], at + f.Span())
              && at + f.Span() <= |s| && rest' == s[at + f.Span()..]
  {
    hide Layout, Length, FieldsOf, Reading, FieldOf;
    NextField(s, Layout(), got, at);
    r, rest' := ConsumePart(rest, f);
  }

  /** `consume_guid`: the three wide fields, then eight bytes. */
  method ConsumeGuid(s: string) returns (r: Option<Guid>, rest: string)
    ensures Length(Layout()) == CHARS_PER_GUID
    ensures r.Some? <==> |s| >= CHARS_PER_GUID && FieldsOf(s, Layout()).Some?
    ensures r.Some? ==>
              FieldsOf(s, Layout()) == Some(r.value.Fields()) && |r.value.data4| == 8 && rest == s[CHARS_PER_GUID..]
  {
    hide Layout, Length, FieldsOf, Reading;
    LayoutFacts();
    if |s| < CHARS_PER_GUID {
      return None, s;
    }
    StartReading(s, Layout());
    var data1, data2, data3;
    data1, rest := ReadField(s, s, Field(4, true), [], 0);
    if data1.None? {
      return None, rest;
    }
    assert [] + [data1.value] == [data1.value];
    data2, rest := ReadField(s, rest, Field(2, true), [data1.value], 9);
    if data2.None? {
      return None, rest;
    }
    assert [data1.value] + [data2.value] == [data1.value, data2.value];
    data3, rest := ReadField(s, rest, Field(2, true), [data1.value, data2.value], 14);
    if data3.None? {
      return None, rest;
    }
    ghost var got, at: nat := [data1.value, data2.value, data3.value], 19;
    var data4: seq<nat> := [];
    assert got + data4 == [data1.value, data2.value] + [data3.value];
    for i := 0 to 8
      invariant |data4| == i && Reading(s, Layout(), got + data4, at) && at <= |s| && rest == s[at..]
    {
      var part;
      part, rest := ReadField(s, rest, Field(1, i == 1), got + data4, at);
      if part.None? {
        return None, rest;
      }
      assert got + data4 + [part.value] == got + (data4 + [part.value]);
      at := at + Field(1, i == 1).Span();
      data4 := data4 + [part.value];
    }
    AllRead(s, Layout(), got + data4, at);
    r := Some(Guid(data1.value, data2.value, data3.value, data4));
  }

  // ----- Writing a GUID -----

  lemma GuidFits(g: Guid)
    requires g.Valid()
    ensures Fits(g.Fields(), Layout())
  {
    Pow2ThirtyTwo();
    var v, l := g.Fields(), Layout();
    forall i: nat | i < 11
      ensures FieldHolds(l[i], v[i])
    {
      Pow2Monotone(8 * l[i].width, 32);
    }
  }

  lemma FitsPart(values: seq<nat>, layout: seq<Field>, lo: nat, hi: nat)
    requires Fits(values, layout) && lo <= hi <= |values|
    ensures |values| == |layout| && Fits(values[lo..hi], layout[lo..hi])
    ensures lo < |values| ==> FieldHolds(layout[lo], values[lo])
  {
  }

  /** Text of a stretch of fields, taken apart at its front. */
  lemma TextCons(values: seq<nat>, layout: seq<Field>, lo: nat, hi: nat)
    requires Fits(values, layout) && lo < hi <= |values|
    ensures |values| == |layout| && FieldHolds(layout[lo], values[lo])
    ensures Fits(values[lo..hi], layout[lo..hi]) && Fits(values[lo + 1..hi], layout[lo + 1..hi])
    ensures Text(values[lo..hi], layout[lo..hi])
         == Piece(layout[lo], values[lo]) + Text(values[lo + 1..hi], layout[lo + 1..hi])
  {
    hide Piece, FieldHolds;
    FitsPart(values, layout, lo, hi);
    assert values[lo..hi][1..] == values[lo + 1..hi] && layout[lo..hi][1..] == layout[lo + 1..hi];
  }

  /** And at its end. */
  lemma {:induction false} TextSnoc(values: seq<nat>, layout: seq<Field>, lo: nat, hi: nat)
    requires Fits(values, layout) && lo <= hi < |values|
    ensures |values| == |layout| && FieldHolds(layout[hi], values[hi])
    ensures Fits(values[lo..hi], layout[lo..hi]) && Fits(values[lo..hi + 1], layout[lo..hi + 1])
    ensures Text(values[lo..hi + 1], layout[lo..hi + 1])
         == Text(values[lo..hi], layout[lo..hi]) + Piece(layout[hi], values[hi])
    decreases hi - lo
  {
    hide Piece, FieldHolds, Text, Fits;
    FitsPart(values, layout, hi, hi);
    FitsPart(values, layout, lo, hi);
    TextCons(values, layout, lo, hi + 1);
    if lo == hi {
      NoText(values, layout, hi);
      NoText(values, layout, hi + 1);
    } else {
      TextCons(values, layout, lo, hi);
      TextSnoc(values, layout, lo + 1, hi);
    }
  }

  lemma NoText(values: seq<nat>, layout: seq<Field>, k: nat)
    requires k <= |values| == |layout|
    ensures Fits(values[k..k], layout[k..k]) && Text(values[k..k], layout[k..k]) == ""
  {
  }

  /** The `%pGUID` conversion: 36 characters made in a buffer of 37, then written out. */
  method WriteGuid(out: Output, g: Guid)
    requires out.Valid() && g.Valid()
    modifies out`written, out`text, out.buffer
    ensures out.Valid() && Fits(g.Fields(), Layout())
    ensures out.text == old(out.text) + Text(g.Fields(), Layout())
    ensures IsGuidText(g, out.text[|old(out.text)|..])
  {
    hide Layout, Text, Formatted, Fits, IsGuidText;
    GuidFits(g);
    GuidShape(g);
    FitsLength(g.Fields(), Layout());
    var buffer := new char[CHARS_PER_GUID + 1];
    var inner := new Output(buffer);
    var fields := g.Fields();
    NoText(fields, Layout(), 0);
    for i := 0 to |fields|
      invariant inner.Valid() && inner.buffer == buffer && Fits(fields[0..i], Layout()[0..i])
      invariant inner.text == Text(fields[0..i], Layout()[0..i])
      invariant out.Valid() && out.text == old(out.text)
    {
      TextSnoc(fields, Layout(), 0, i);
      inner.WriteInteger(HexSpec(Layout()[i].Chars()), fields[i]);
      if Layout()[i].dash {
        inner.WriteMany("-");
      }
    }
    assert fields[0..11] == fields && Layout()[0..11] == Layout();
    LayoutFacts();
    TextRoundTrip(fields, Layout(), "");
    assert buffer[..inner.written] == inner.text;
    out.WriteMany(buffer[..inner.written]);
  }

  lemma FitsLength(values: seq<nat>, layout: seq<Field>)
    requires Fits(values, layout)
    ensures |values| == |layout|
  {
  }

  /** Every GUID, printed and read back, is itself, and reading stops right after it. */
  method PrintThenRead(g: Guid, buffer: array<char>, after: string) returns (r: Option<Guid>, rest: string)
    requires g.Valid() && buffer.Length >= CHARS_PER_GUID
    modifies buffer
    ensures r == Some(g) && rest == after
  {
    hide Layout, Text, Formatted, Fits, FieldsOf, IsGuidText;
    var out := new Output(buffer);
    WriteGuid(out, g);
    LayoutFacts();
    var text := buffer[..Min(out.written, buffer.Length)];
    TextRoundTrip(g.Fields(), Layout(), after);
    assert "" + Text(g.Fields(), Layout()) == Text(g.Fields(), Layout());
    assert text == Text(g.Fields(), Layout());
    r, rest := ConsumeGuid(text + after);
    if r.Some? { SameFields(r.value, g); }
    assert (text + after)[CHARS_PER_GUID..] == after;
  }

  lemma SameFields(g: Guid, h: Guid)
    requires |g.data4| == |h.data4| == 8 && g.Fields() == h.Fields()
    ensures g == h
  {
    assert g.data4 == g.Fields()[3..] && h.data4 == h.Fields()[3..];
    assert g.data1 == g.Fields()[0] && g.data2 == g.Fields()[1] && g.data3 == g.Fields()[2];
    assert h.data1 == h.Fields()[0] && h.data2 == h.Fields()[1] && h.data3 == h.Fields()[2];
  }
}
