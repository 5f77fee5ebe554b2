/** Integer conversions of printf: digits with grouping, sign, prefix and padding; and their reading back. */
module Formats {
  import opened BitOps

  /** `x` is the letter after a hexadecimal 0, or NUL for none; `group` digits stand between commas. */
  datatype Base = Base(base: nat, digits: string, x: char, group: nat)

  const BASE_D := Base(10, "0123456789", '\0', 3)
  const BASE_O := Base(8, "01234567", '\0', 3)
  const BASE_X := Base(16, "0123456789abcdef", 'x', 4)
  const BASE_UPPER_X := Base(16, "0123456789ABCDEF", 'X', 4)

  /** A precision of -1 means that none was given. */
  datatype Conversion = Conversion(minus: bool, plus: bool, space: bool, pound: bool, zero: bool, grouped: bool,
                                   width: nat, precision: int)
  {
    /** What the parser of conversion specifiers leaves. Both minus and zero can be set: see
        Stdio.ParseConversion. */
    predicate Valid() { -1 <= precision }
  }

  const PLAIN := Conversion(false, false, false, false, false, false, 0, -1)

  ghost predicate ValidBase(b: Base) {
    && 8 <= b.base == |b.digits| && 1 <= b.group
    && b.digits[0] == '0'
    && (forall i, j :: 0 <= i < j < b.base ==> b.digits[i] != b.digits[j])
    && (forall i :: 0 <= i < b.base ==> b.digits[i] >= '0')
    && b.x !in b.digits && (b.x == '\0' || b.x > '9')
  }

  predicate IsSpace(ch: char) {
    ch == ' ' || ch == '\U{c}' || ch == '\n' || ch == '\r' || ch == '\t' || ch == '\U{b}'
  }

  lemma {:induction false} RisingDigitsDiffer(s: string, i: nat, j: nat)
    requires i < j < |s| && forall k: nat :: k + 1 < |s| ==> s[k] < s[k + 1]
    ensures s[i] < s[j]
  {
    assert s[j - 1] < s[j - 1 + 1];
    if i < j - 1 {
      RisingDigitsDiffer(s, i, j - 1);
    }
  }

  lemma DigitsDiffer(s: string)
    requires forall k: nat :: k + 1 < |s| ==> s[k] < s[k + 1]
    ensures forall i, j :: 0 <= i < j < |s| ==> s[i] != s[j]
    ensures forall i :: 0 <= i < |s| ==> s[0] <= s[i]
  {
    forall i, j | 0 <= i < j < |s|
      ensures s[i] < s[j]
    {
      RisingDigitsDiffer(s, i, j);
    }
  }

  lemma DecimalValid()
    ensures ValidBase(BASE_D)
  {
    DigitsDiffer(BASE_D.digits);
  }

  lemma OctalValid()
    ensures ValidBase(BASE_O)
  {
    DigitsDiffer(BASE_O.digits);
  }

  lemma LowerHexValid()
    ensures ValidBase(BASE_X)
  {
    DigitsDiffer(BASE_X.digits);
  }

  lemma UpperHexValid()
    ensures ValidBase(BASE_UPPER_X)
  {
    DigitsDiffer(BASE_UPPER_X.digits);
  }

  // ---- the text ----

  function Repeat(ch: char, n: nat): (s: string)
    ensures |s| == n && forall k :: 0 <= k < n ==> s[k] == ch
  {
    if n == 0 then [] else [ch] + Repeat(ch, n - 1)
  }

  /** The digits of a value, `count` of whose lower digits are already written, with commas if wanted. */
  function Marked(value: nat, b: Base, grouped: bool, count: nat): string
    requires 2 <= b.base == |b.digits| && 1 <= b.group
  {
    if value == 0 then [] else
      Marked(value / b.base, b, grouped, count + 1)
      + [b.digits[value % b.base]]
      + (if grouped && count > 0 && count % b.group == 0 then [','] else [])
  }

  /** At most 63 characters are filled up with zeros. */
  function DigitText(value: nat, b: Base, c: Conversion): string
    requires 2 <= b.base == |b.digits| && 1 <= b.group
  {
    var m := Marked(value, b, c.grouped, 0);
    var precision := if c.precision < 0 then 1 else c.precision;
    var least := if precision < 63 then precision else 63;
    var z := Repeat('0', if |m| < least then least - |m| else 0) + m;
    if c.pound && b.base == 8 && (z == [] || z[0] != '0') then ['0'] + z else z
  }

  function SignText(signed: bool, negative: bool, c: Conversion): string {
    if !signed then []
    else if negative then ['-']
    else if c.plus then ['+']
    else if c.space then [' ']
    else []
  }

  function PrefixText(value: nat, b: Base, c: Conversion): string {
    if c.pound && value != 0 && b.x != '\0' then ['0', b.x] else []
  }

  function Padding(value: nat, signed: bool, negative: bool, b: Base, c: Conversion): nat
    requires 2 <= b.base == |b.digits| && 1 <= b.group
  {
    var used := |DigitText(value, b, c)| + |PrefixText(value, b, c)| + |SignText(signed, negative, c)|;
    if used < c.width then c.width - used else 0
  }

  function Formatted(value: nat, signed: bool, negative: bool, b: Base, c: Conversion): string
    requires 2 <= b.base == |b.digits| && 1 <= b.group
  {
    var pad := Padding(value, signed, negative, b, c);
    (if c.minus || c.zero then [] else Repeat(' ', pad))
    + SignText(signed, negative, c)
    + PrefixText(value, b, c)
    + (if c.zero then Repeat('0', pad) else [])
    + DigitText(value, b, c)
    + (if c.minus then Repeat(' ', pad) else [])
  }

  /** The body fills the field or exceeds it, and nothing is cut off, unless a body that is smaller than
      its field is to stand on the left and to be padded with zeros too. */
  lemma FieldWidth(value: nat, signed: bool, negative: bool, b: Base, c: Conversion)
    requires ValidBase(b) && c.Valid()
    ensures var body := |SignText(signed, negative, c)| + |PrefixText(value, b, c)| + |DigitText(value, b, c)|;
      |Formatted(value, signed, negative, b, c)| == (if c.width < body then body else c.width)
      <==> !(c.minus && c.zero) || c.width <= body
  {
    hide ValidBase, DigitText, SignText, PrefixText;
    assert 2 <= b.base == |b.digits| && 1 <= b.group by { NeededOfBase(b); }
  }

  lemma NeededOfBase(b: Base)
    requires ValidBase(b)
    ensures 2 <= b.base == |b.digits| && 1 <= b.group
  {}

  // ---- reading ----

  function IndexOf(s: string, ch: char): (k: nat)
    ensures k <= |s|
    ensures k < |s| ==> s[k] == ch
    ensures ch in s ==> k < |s|
  {
    if s == [] || s[0] == ch then 0 else 1 + IndexOf(s[1..], ch)
  }

  function SkipSpaces(s: string): string {
    if s != [] && IsSpace(s[0]) then SkipSpaces(s[1..]) else s
  }

  /** Continues a number with the digits that begin s, passing over commas if they are allowed. */
  function ReadDigits(s: string, b: Base, commas: bool, so_far: nat): nat {
    if s == [] then so_far
    else if commas && s[0] == ',' then ReadDigits(s[1..], b, commas, so_far)
    else if s[0] in b.digits then ReadDigits(s[1..], b, commas, so_far * b.base + IndexOf(b.digits, s[0]))
    else so_far
  }

  function AfterSign(s: string): string {
    if s != [] && (s[0] == '+' || s[0] == '-') then s[1..] else s
  }

  function AfterPrefix(s: string, b: Base): string {
    if |s| >= 2 && b.x != '\0' && s[0] == '0' && s[1] == b.x then s[2..] else s
  }

  /** The integer that a text in base b stands for: white space, a sign, a prefix and digits. */
  function Meaning(s: string, b: Base, commas: bool): int {
    var t := SkipSpaces(s);
    var v: int := ReadDigits(AfterPrefix(AfterSign(t), b), b, commas, 0);
    if t != [] && t[0] == '-' then -v else v
  }

  lemma {:induction false} SpacesSkipped(n: nat, s: string)
    ensures SkipSpaces(Repeat(' ', n) + s) == SkipSpaces(s)
  {
    if n == 0 {
      assert Repeat(' ', n) + s == s;
    } else {
      SpacesSkipped(n - 1, s);
      assert (Repeat(' ', n) + s)[1..] == Repeat(' ', n - 1) + s;
    }
  }

  lemma {:induction false} ZerosCountNothing(n: nat, s: string, b: Base, commas: bool)
    requires ValidBase(b)
    ensures ReadDigits(Repeat('0', n) + s, b, commas, 0) == ReadDigits(s, b, commas, 0)
  {
    if n == 0 {
      assert Repeat('0', n) + s == s;
    } else {
      ZerosCountNothing(n - 1, s, b, commas);
      assert (Repeat('0', n) + s)[1..] == Repeat('0', n - 1) + s;
    }
  }

  lemma {:induction false} IndexOfDigit(s: string, k: nat)
    requires k < |s| && forall i, j :: 0 <= i < j < |s| ==> s[i] != s[j]
    ensures IndexOf(s, s[k]) == k
  {
    if k == 0 {
    } else {
      assert s[0] != s[k];
      IndexOfDigit(s[1..], k - 1);
    }
  }

  lemma DigitReadBack(b: Base, d: nat, s: string, commas: bool, so_far: nat)
    requires ValidBase(b) && d < b.base
    ensures ReadDigits([b.digits[d]] + s, b, commas, so_far) == ReadDigits(s, b, commas, so_far * b.base + d)
  {
    var t := [b.digits[d]] + s;
    assert t[1..] == s && t[0] in b.digits;
    IndexOfDigit(b.digits, d);
  }

  lemma CommaReadBack(b: Base, s: string, so_far: nat)
    ensures ReadDigits([','] + s, b, true, so_far) == ReadDigits(s, b, true, so_far)
  {
    assert ([','] + s)[1..] == s;
  }

  /** The digits, commas removed, denote the value. */
  lemma {:induction false} MarkedReadBack(value: nat, b: Base, grouped: bool, count: nat, rest: string, commas: bool)
    requires ValidBase(b) && (grouped ==> commas)
    ensures ReadDigits(Marked(value, b, grouped, count) + rest, b, commas, 0) == ReadDigits(rest, b, commas, value)
    decreases value
  {
    hide ValidBase, ReadDigits;
    NeededOfBase(b);
    if value == 0 {
      assert Marked(value, b, grouped, count) + rest == rest;
    } else {
      var mark := if grouped && count > 0 && count % b.group == 0 then [','] else [];
      var digit := b.digits[value % b.base];
      SmallerQuotient(value, b.base);
      MarkedReadBack(value / b.base, b, grouped, count + 1, [digit] + (mark + rest), commas);
      assert Marked(value, b, grouped, count) + rest
          == Marked(value / b.base, b, grouped, count + 1) + ([digit] + (mark + rest));
      DigitReadBack(b, value % b.base, mark + rest, commas, value / b.base);
      QuotientRemainder(value, b.base);
      if mark == [] {
        assert mark + rest == rest;
      } else {
        CommaReadBack(b, rest, value);
      }
    }
  }

  function PowerOf8(n: nat): nat {
    if n == 0 then 1 else 8 * PowerOf8(n - 1)
  }

  lemma QuotientFits(value: nat, base: nat, digits: nat)
    requires 8 <= base && 0 < value < PowerOf8(digits)
    ensures digits > 0 && value / base < PowerOf8(digits - 1)
  {
    QuotientRemainder(value, base);
    if value / base >= PowerOf8(digits - 1) {
      Product(value / base, base);
    }
  }

  lemma Product(x: nat, y: nat)
    requires 8 <= y
    ensures x * y >= 8 * x
  {}

  lemma LongestValue()
    ensures PowerOf8(22) > 0x1_0000_0000_0000_0000
  {
    assert PowerOf8(4) == 4096;
    assert PowerOf8(8) == 4096 * 4096;
    assert PowerOf8(12) == 4096 * 4096 * 4096;
    assert PowerOf8(16) == 4096 * 4096 * 4096 * 4096;
    assert PowerOf8(20) == 4096 * 4096 * 4096 * 4096 * 4096;
  }

  lemma {:induction false} MarkedCharacters(value: nat, b: Base, grouped: bool, count: nat)
    requires ValidBase(b)
    ensures var m := Marked(value, b, grouped, count);
      && (value > 0 <==> m != [])
      && (m != [] ==> m[0] in b.digits)
      && forall k :: 0 <= k < |m| ==> m[k] in b.digits || (grouped && m[k] == ',')
    decreases value
  {
    if value == 0 {
    } else {
      SmallerQuotient(value, b.base);
      MarkedCharacters(value / b.base, b, grouped, count + 1);
    }
  }

  function Column(place: nat, group: nat): nat {
    place % (group + 1)
  }

  /** The last character of m is at place `from`, counted from the right; commas stand in column `group` only. */
  ghost predicate CommaRule(m: string, group: nat, from: nat) {
    forall i :: 0 <= i < |m| ==> (m[i] == ',' <==> Column(from + |m| - 1 - i, group) == group)
  }

  lemma CommaRuleExtends(m: string, ch: char, group: nat, from: nat)
    requires CommaRule(m, group, from + 1) && (ch == ',' <==> Column(from, group) == group)
    ensures CommaRule(m + [ch], group, from)
  {
    hide Column;
    forall i | 0 <= i < |m| + 1
      ensures (m + [ch])[i] == ',' <==> Column(from + |m| - i, group) == group
    {
      if i < |m| {
        assert Column(from + 1 + |m| - 1 - i, group) == Column(from + |m| - i, group);
      }
    }
  }

  /** Digits below `count` and the commas among them fill q groups with their commas and r more places. */
  lemma {:induction false} CommasFrom(value: nat, b: Base, count: nat, q: nat, r: nat)
    requires ValidBase(b)
    requires count == q * b.group + r && r <= b.group && (r == 0 ==> q == 0)
    ensures CommaRule(Marked(value, b, true, count), b.group, q * (b.group + 1) + r)
    decreases value
  {
    hide Column, CommaRule;
    if value == 0 {
      NoCommas(b.group, q * (b.group + 1) + r);
    } else {
      var g := b.group;
      var place := q * (g + 1) + r;
      var digit := b.digits[value % b.base];
      SmallerQuotient(value, b.base);
      PlaceOf(q, g, r);
      if r == g {
        assert (q + 1) * (g + 1) + 0 == place + 1;
        PlaceOf(q + 1, g, 0);
        assert (q + 1) * g + 1 == count + 1;
        CommasFrom(value / b.base, b, count + 1, q + 1, 1);
        CommaRuleExtends(Marked(value / b.base, b, true, count + 1), digit, g, place + 1);
        CommaRuleExtends(Marked(value / b.base, b, true, count + 1) + [digit], ',', g, place);
      } else {
        CommasFrom(value / b.base, b, count + 1, q, r + 1);
        CommaRuleExtends(Marked(value / b.base, b, true, count + 1), digit, g, place);
        assert Marked(value, b, true, count) == Marked(value / b.base, b, true, count + 1) + [digit];
      }
    }
  }

  lemma NoCommas(group: nat, from: nat)
    ensures CommaRule([], group, from)
  {}

  lemma PlaceOf(q: nat, g: nat, r: nat)
    requires 1 <= g && r <= g
    ensures Column(q * (g + 1) + r, g) == r
    ensures 0 < r ==> (0 < q * g + r && ((q * g + r) % g == 0 <==> r == g))
    ensures r == 0 && q == 0 ==> q * g + r == 0
  {
    ModUnique(q * (g + 1) + r, g + 1, q, r);
    if r == g {
      assert q * g + r == (q + 1) * g + 0;
      ModUnique(q * g + r, g, q + 1, 0);
    } else {
      ModUnique(q * g + r, g, q, r);
    }
  }

  /** Counted from the right, every place after a full group of digits holds a comma and no other place does. */
  lemma CommaPlaces(value: nat, b: Base)
    requires ValidBase(b)
    ensures var m := Marked(value, b, true, 0);
      && (forall i :: 0 <= i < |m| ==> (m[i] == ',' <==> Column(|m| - 1 - i, b.group) == b.group))
      && (m != [] ==> m[0] != ',')
  {
    hide Column, Marked;
    CommasFrom(value, b, 0, 0, 0);
    MarkedCharacters(value, b, true, 0);
  }

  lemma SmallerQuotient(value: nat, base: nat)
    requires 2 <= base && 0 < value
    ensures 0 <= value / base < value
  {}

  lemma QuotientRemainder(value: nat, base: nat)
    requires 2 <= base
    ensures value / base * base + value % base == value
    ensures value % base < base
  {}

  /** What the digit text of a value adds in front of its digits. */
  function LeadingZeros(value: nat, b: Base, c: Conversion): nat
    requires 2 <= b.base == |b.digits| && 1 <= b.group
  {
    var m := Marked(value, b, c.grouped, 0);
    var precision := if c.precision < 0 then 1 else c.precision;
    var least := if precision < 63 then precision else 63;
    var z := if |m| < least then least - |m| else 0;
    if c.pound && b.base == 8 && z == 0 && (m == [] || m[0] != '0') then 1 else z
  }

  lemma DigitTextShape(value: nat, b: Base, c: Conversion)
    requires 2 <= b.base == |b.digits| && 1 <= b.group
    ensures DigitText(value, b, c) == Repeat('0', LeadingZeros(value, b, c)) + Marked(value, b, c.grouped, 0)
  {
    hide Marked;
    var m := Marked(value, b, c.grouped, 0);
    assert Repeat('0', 0) + m == m;
    assert Repeat('0', 1) + m == ['0'] + m;
  }

  // ---- precision ----

  function WithoutCommas(s: string): string {
    if s == [] then [] else (if s[0] == ',' then [] else [s[0]]) + WithoutCommas(s[1..])
  }

  lemma {:induction false} WithoutCommasConcat(s: string, t: string)
    ensures WithoutCommas(s + t) == WithoutCommas(s) + WithoutCommas(t)
  {
    if s == [] {
      assert s + t == t;
    } else {
      WithoutCommasConcat(s[1..], t);
      assert (s + t)[1..] == s[1..] + t;
      var head := if s[0] == ',' then [] else [s[0]];
      hide WithoutCommas;
      assert head + (WithoutCommas(s[1..]) + WithoutCommas(t)) == (head + WithoutCommas(s[1..])) + WithoutCommas(t);
    }
  }

  lemma {:induction false} NoCommaToDrop(s: string)
    requires forall k :: 0 <= k < |s| ==> s[k] != ','
    ensures WithoutCommas(s) == s
  {
    if s != [] {
      NoCommaToDrop(s[1..]);
      assert s == [s[0]] + s[1..];
    }
  }

  /** Grouping adds commas to the digits and changes nothing else. */
  lemma {:induction false} UngroupedDigits(value: nat, b: Base, grouped: bool, count: nat)
    requires ValidBase(b)
    ensures WithoutCommas(Marked(value, b, grouped, count)) == Marked(value, b, false, count)
    decreases value
  {
    hide ValidBase;
    NeededOfBase(b);
    if value > 0 {
      var high := Marked(value / b.base, b, grouped, count + 1);
      var digit := b.digits[value % b.base];
      var mark := if grouped && count > 0 && count % b.group == 0 then [','] else [];
      SmallerQuotient(value, b.base);
      UngroupedDigits(value / b.base, b, grouped, count + 1);
      WithoutCommasConcat(high + [digit], mark);
      WithoutCommasConcat(high, [digit]);
      DigitIsNoComma(b, value % b.base);
    }
  }

  lemma DigitIsNoComma(b: Base, d: nat)
    requires ValidBase(b) && d < b.base
    ensures WithoutCommas([b.digits[d]]) == [b.digits[d]] && WithoutCommas([',']) == [] && WithoutCommas([]) == []
  {
    assert [b.digits[d]][1..] == [] && [','][1..] == [];
  }

  lemma {:induction false} FirstDigitNotZero(value: nat, b: Base, grouped: bool, count: nat)
    requires ValidBase(b) && value > 0
    ensures Marked(value, b, grouped, count) != [] && Marked(value, b, grouped, count)[0] != '0'
    decreases value
  {
    QuotientRemainder(value, b.base);
    if value / b.base > 0 {
      SmallerQuotient(value, b.base);
      FirstDigitNotZero(value / b.base, b, grouped, count + 1);
    } else {
      assert b.digits[0] != b.digits[value % b.base];
      assert Marked(0, b, grouped, count + 1) == [];
    }
  }

  lemma {:induction false} GroupingNeverShortens(value: nat, b: Base, count: nat)
    requires 2 <= b.base == |b.digits| && 1 <= b.group
    ensures |Marked(value, b, false, count)| <= |Marked(value, b, true, count)|
    decreases value
  {
    if value > 0 {
      SmallerQuotient(value, b.base);
      GroupingNeverShortens(value / b.base, b, count + 1);
    }
  }

  /** With `count` lower digits of the first group written, a comma follows if and only if the digits exceed
      the group. */
  lemma {:induction false} CommaIff(value: nat, b: Base, count: nat)
    requires 2 <= b.base == |b.digits| && 1 <= count <= b.group
    ensures |Marked(value, b, true, count)| == |Marked(value, b, false, count)|
      <==> count + |Marked(value, b, false, count)| <= b.group
    decreases value
  {
    hide Marked;
    MarkedLength(value, b, true, count);
    MarkedLength(value, b, false, count);
    if value > 0 {
      SmallerQuotient(value, b.base);
      GroupingNeverShortens(value / b.base, b, count + 1);
      FullGroup(count, b.group);
      if count < b.group {
        CommaIff(value / b.base, b, count + 1);
      }
    }
  }

  lemma MarkedLength(value: nat, b: Base, grouped: bool, count: nat)
    requires 2 <= b.base == |b.digits| && 1 <= b.group
    ensures |Marked(value, b, grouped, count)| ==
      if value == 0 then 0
      else |Marked(value / b.base, b, grouped, count + 1)| + 1
           + (if grouped && count > 0 && count % b.group == 0 then 1 else 0)
  {}

  lemma FullGroup(count: nat, group: nat)
    requires 1 <= count <= group
    ensures count % group == 0 <==> count == group
  {
    if count < group {
      ModUnique(count, group, 0, count);
    } else {
      ModUnique(count, group, 1, 0);
    }
  }

  /** A number is written without a comma if and only if its digits fit into one group. */
  lemma UngroupedIff(value: nat, b: Base, grouped: bool)
    requires 2 <= b.base == |b.digits| && 1 <= b.group
    ensures |Marked(value, b, grouped, 0)| == |Marked(value, b, false, 0)|
      <==> !grouped || |Marked(value, b, false, 0)| <= b.group
    ensures |Marked(value, b, false, 0)| <= |Marked(value, b, grouped, 0)|
  {
    if grouped {
      GroupingNeverShortens(value, b, 0);
      if value > 0 {
        CommaIff(value / b.base, b, 1);
      }
    }
  }

  lemma {:induction false} MostDigits(value: nat, b: Base, digits: nat, count: nat)
    requires ValidBase(b) && value < PowerOf8(digits)
    ensures |Marked(value, b, false, count)| <= digits
    decreases value
  {
    hide PowerOf8;
    if value > 0 {
      QuotientFits(value, b.base, digits);
      SmallerQuotient(value, b.base);
      MostDigits(value / b.base, b, digits - 1, count + 1);
    }
  }

  /** The number of digits asked for: one if no precision was given. */
  function Wanted(c: Conversion): nat {
    if c.precision < 0 then 1 else c.precision
  }

  /** What # adds to an octal number. */
  function OctalZero(b: Base, c: Conversion): nat {
    if c.pound && b.base == 8 then 1 else 0
  }

  /** The digits that are written: those of the value, and zeros up to the precision. Commas take the
      place of zeros, and so does the end of the buffer. */
  lemma DigitsWritten(value: nat, b: Base, c: Conversion)
    requires ValidBase(b) && c.Valid()
    ensures var m, d := |Marked(value, b, c.grouped, 0)|, |Marked(value, b, false, 0)|;
      var least := if Wanted(c) < 63 then Wanted(c) else 63;
      |WithoutCommas(DigitText(value, b, c))|
        == if m < least then least - (m - d) else d + OctalZero(b, c)
  {
    hide Marked, WithoutCommas, DigitText, ValidBase;
    NeededOfBase(b);
    var k := LeadingZeros(value, b, c);
    DigitTextShape(value, b, c);
    WithoutCommasConcat(Repeat('0', k), Marked(value, b, c.grouped, 0));
    NoCommaToDrop(Repeat('0', k));
    UngroupedDigits(value, b, c.grouped, 0);
    LeadingDigit(value, b, c.grouped);
  }

  lemma LeadingDigit(value: nat, b: Base, grouped: bool)
    requires ValidBase(b)
    ensures 2 <= b.base == |b.digits| && 1 <= b.group
    ensures Marked(value, b, grouped, 0) == [] || Marked(value, b, grouped, 0)[0] != '0'
  {
    if value > 0 {
      FirstDigitNotZero(value, b, grouped, 0);
    }
  }

  /** As many digits as the precision asks for are written if and only if the value has them by itself, with
      the zero of an octal number, or it is written without a comma and the precision is at most 63. */
  lemma PrecisionMet(value: nat, b: Base, c: Conversion)
    requires ValidBase(b) && c.Valid()
    ensures var d := |Marked(value, b, false, 0)|;
      (|WithoutCommas(DigitText(value, b, c))| >= Wanted(c))
      <==> (d + OctalZero(b, c) >= Wanted(c) || ((!c.grouped || d <= b.group) && Wanted(c) <= 63))
  {
    hide Marked, WithoutCommas, DigitText, ValidBase;
    NeededOfBase(b);
    DigitsWritten(value, b, c);
    UngroupedIff(value, b, c.grouped);
  }

  /** For a 64-bit value without grouping the precision is met if and only if it is at most 63; the text is
      empty exactly for a zero of precision zero without #. */
  lemma PrecisionUngrouped(value: nat, b: Base, c: Conversion)
    requires ValidBase(b) && c.Valid() && !c.grouped && value < 0x1_0000_0000_0000_0000
    ensures var t := DigitText(value, b, c);
      && (|t| >= Wanted(c) <==> Wanted(c) <= 63)
      && (t == [] <==> value == 0 && c.precision == 0 && OctalZero(b, c) == 0)
      && (OctalZero(b, c) == 1 ==> t != [] && t[0] == '0')
  {
    hide Marked, WithoutCommas, PowerOf8;
    NeededOfBase(b);
    MarkedCharacters(value, b, c.grouped, 0);
    LongestValue();
    MostDigits(value, b, 22, 0);
    PrecisionMet(value, b, c);
    DigitTextShape(value, b, c);
    var k := LeadingZeros(value, b, c);
    CommaFree(value, b);
    assert forall i :: 0 <= i < |Repeat('0', k) + Marked(value, b, false, 0)| ==>
      (Repeat('0', k) + Marked(value, b, false, 0))[i] != ',';
    NoCommaToDrop(DigitText(value, b, c));
  }

  lemma CommaFree(value: nat, b: Base)
    requires ValidBase(b)
    ensures forall i :: 0 <= i < |Marked(value, b, false, 0)| ==> Marked(value, b, false, 0)[i] != ','
  {
    hide Marked;
    MarkedCharacters(value, b, false, 0);
  }

  /** Five digits are asked for and four are written: the comma counts as one. */
  lemma CommaTakesAPlace()
    ensures DigitText(1234, BASE_D, PLAIN.(grouped := true, precision := 5)) == "1,234"
    ensures |WithoutCommas("1,234")| == 4 < Wanted(PLAIN.(grouped := true, precision := 5))
  {
    ThousandGrouped();
    ThousandUngrouped();
    hide Marked, WithoutCommas;
  }

  lemma ThousandGrouped()
    ensures Marked(1234, BASE_D, true, 0) == "1,234"
  {
    var b := BASE_D;
    assert Marked(1, b, true, 3) == "1,";
    assert Marked(12, b, true, 2) == "1,2";
    assert Marked(123, b, true, 1) == "1,23";
  }

  lemma ThousandUngrouped()
    ensures WithoutCommas("1,234") == "1234"
  {
    var one, comma, rest := "1", ",", "234";
    assert WithoutCommas(one) == "1" && WithoutCommas(comma) == "";
    ThreeWithoutComma(rest);
    hide WithoutCommas;
    WithoutCommasConcat(one + comma, rest);
    WithoutCommasConcat(one, comma);
    assert one + comma + rest == "1,234" && "1" + "" + rest == "1234";
  }

  lemma ThreeWithoutComma(s: string)
    requires |s| == 3 && s[0] != ',' && s[1] != ',' && s[2] != ','
    ensures WithoutCommas(s) == s
  {
    assert s[1..][1..] == [s[2]];
    assert WithoutCommas([s[2]]) == [s[2]];
    assert WithoutCommas(s[1..]) == s[1..];
  }

  /** Sixty-four digits are asked for and sixty-three are written. */
  lemma BufferEnds()
    ensures |DigitText(7, BASE_D, PLAIN.(precision := 64))| == 63 < Wanted(PLAIN.(precision := 64))
  {
    assert Marked(7, BASE_D, false, 0) == "7";
  }

  /** Neither a space nor a sign nor the letter of a prefix is taken for part of a number. */
  ghost predicate NumberText(s: string, b: Base, grouped: bool) {
    && (forall k :: 0 <= k < |s| ==> s[k] in b.digits || (grouped && s[k] == ','))
    && (s != [] ==> s[0] in b.digits)
  }

  lemma DigitTextIsNumber(value: nat, b: Base, c: Conversion)
    requires ValidBase(b)
    ensures NumberText(DigitText(value, b, c), b, c.grouped)
  {
    hide Marked, Repeat, DigitText, LeadingZeros;
    MarkedCharacters(value, b, c.grouped, 0);
    NeededOfBase(b);
    DigitTextShape(value, b, c);
    ZerosInFront(LeadingZeros(value, b, c), Marked(value, b, c.grouped, 0), b, c.grouped);
  }

  lemma ZerosInFront(n: nat, s: string, b: Base, grouped: bool)
    requires ValidBase(b) && NumberText(s, b, grouped)
    ensures NumberText(Repeat('0', n) + s, b, grouped)
  {
    assert '0' in b.digits;
    assert n == 0 ==> Repeat('0', n) + s == s;
  }

  lemma DigitTextReadBack(value: nat, b: Base, c: Conversion, rest: string, commas: bool)
    requires ValidBase(b) && (c.grouped ==> commas)
    ensures ReadDigits(DigitText(value, b, c) + rest, b, commas, 0) == ReadDigits(rest, b, commas, value)
  {
    hide ValidBase, ReadDigits, Marked, DigitText, LeadingZeros;
    NeededOfBase(b);
    DigitTextShape(value, b, c);
    var z, m := Repeat('0', LeadingZeros(value, b, c)), Marked(value, b, c.grouped, 0);
    assert z + m + rest == z + (m + rest);
    ZerosCountNothing(LeadingZeros(value, b, c), m + rest, b, commas);
    MarkedReadBack(value, b, c.grouped, 0, rest, commas);
  }

  lemma SpacesEndNumber(n: nat, b: Base, commas: bool, so_far: nat)
    requires ValidBase(b)
    ensures ReadDigits(Repeat(' ', n), b, commas, so_far) == so_far
  {}

  /** The part of the text after the sign: prefix, zeros, digits and trailing spaces. */
  lemma NumberReadBack(prefix: string, zeros: nat, value: nat, b: Base, c: Conversion, trail: nat, commas: bool)
    requires ValidBase(b) && (c.grouped ==> commas)
    requires prefix == [] || (b.x != '\0' && prefix == ['0', b.x])
    ensures var t := prefix + (Repeat('0', zeros) + (DigitText(value, b, c) + Repeat(' ', trail)));
      ReadDigits(AfterPrefix(t, b), b, commas, 0) == value
  {
    hide ReadDigits, Marked, DigitText, LeadingZeros;
    NeededOfBase(b);
    var ds := DigitText(value, b, c) + Repeat(' ', trail);
    var t := Repeat('0', zeros) + ds;
    DigitTextIsNumber(value, b, c);
    ZerosInFront(zeros, DigitText(value, b, c), b, c.grouped);
    assert t == (Repeat('0', zeros) + DigitText(value, b, c)) + Repeat(' ', trail);
    assert AfterPrefix(prefix + t, b) == t by {
      if prefix == [] {
        assert prefix + t == t;
        NoLetterFollows(Repeat('0', zeros) + DigitText(value, b, c), trail, b, c.grouped);
      } else {
        assert (prefix + t)[2..] == t;
      }
    }
    ZerosCountNothing(zeros, ds, b, commas);
    DigitTextReadBack(value, b, c, Repeat(' ', trail), commas);
    SpacesEndNumber(trail, b, commas, value);
  }

  lemma NoLetterFollows(s: string, trail: nat, b: Base, grouped: bool)
    requires ValidBase(b) && NumberText(s, b, grouped)
    ensures AfterPrefix(s + Repeat(' ', trail), b) == s + Repeat(' ', trail)
  {
    var t := s + Repeat(' ', trail);
    assert |t| >= 2 && b.x != '\0' ==> t[1] in b.digits || t[1] == ',' || t[1] == ' ';
  }

  function Signed(negative: bool, value: nat): int {
    if negative then 0 - value else value
  }

  /** A sign text followed by a number: what skipping spaces and the sign leaves. */
  lemma SignReadBack(sign: string, number: string)
    requires sign in {[], ['-'], ['+'], [' ']}
    requires number != [] ==> !IsSpace(number[0]) && number[0] != '+' && number[0] != '-'
    ensures var t := SkipSpaces(sign + number);
      AfterSign(t) == number && ((t != [] && t[0] == '-') <==> sign == ['-'])
  {
    if sign == [] {
      assert sign + number == number;
    } else {
      assert (sign + number)[1..] == number;
    }
  }

  lemma MeaningOf(lead: nat, sign: string, number: string, b: Base, commas: bool, value: nat)
    requires sign in {[], ['-'], ['+'], [' ']}
    requires number != [] ==> !IsSpace(number[0]) && number[0] != '+' && number[0] != '-'
    requires ReadDigits(AfterPrefix(number, b), b, commas, 0) == value
    ensures Meaning(Repeat(' ', lead) + (sign + number), b, commas) == Signed(sign == ['-'], value)
  {
    hide ReadDigits, AfterPrefix, AfterSign, SkipSpaces;
    SpacesSkipped(lead, sign + number);
    SignReadBack(sign, number);
  }

  lemma MeaningOfBlank(lead: nat, sign: string, trail: nat, b: Base, commas: bool)
    requires ValidBase(b) && sign in {[], ['-'], ['+'], [' ']}
    ensures Meaning(Repeat(' ', lead) + (sign + Repeat(' ', trail)), b, commas) == 0
  {
    hide ReadDigits, AfterPrefix, Repeat, ValidBase;
    SpacesSkipped(lead, sign + Repeat(' ', trail));
    BlankNumber(trail, b, commas);
    BlankNumber(0, b, commas);
    EmptyRepeat(' ');
    SpacesSkipped(trail, []);
    assert Repeat(' ', trail) + [] == Repeat(' ', trail);
    if sign != [] {
      assert (sign + Repeat(' ', trail))[1..] == Repeat(' ', trail);
    } else {
      assert sign + Repeat(' ', trail) == Repeat(' ', trail);
    }
  }

  lemma BlankNumber(n: nat, b: Base, commas: bool)
    requires ValidBase(b)
    ensures ReadDigits(AfterPrefix(Repeat(' ', n), b), b, commas, 0) == 0
  {
    hide ReadDigits;
    NoLetterFollows([], n, b, false);
    assert [] + Repeat(' ', n) == Repeat(' ', n);
    SpacesEndNumber(n, b, commas, 0);
  }

  /** Every text of a conversion stands for the value that was converted, in every base and for every flag set. */
  lemma FormattedMeaning(value: nat, signed: bool, negative: bool, b: Base, c: Conversion, commas: bool)
    requires ValidBase(b) && c.Valid() && (c.grouped ==> commas)
    ensures Meaning(Formatted(value, signed, negative, b, c), b, commas) == Signed(signed && negative, value)
  {
    hide Meaning, ReadDigits, AfterPrefix, Marked, DigitText, LeadingZeros, Repeat, NumberText, Padding;
    NeededOfBase(b);
    var pad := Padding(value, signed, negative, b, c);
    var lead := if c.minus || c.zero then 0 else pad;
    var zeros := if c.zero then pad else 0;
    var trail := if c.minus then pad else 0;
    var sign := SignText(signed, negative, c);
    var prefix := PrefixText(value, b, c);
    var ds := DigitText(value, b, c);
    var number := prefix + (Repeat('0', zeros) + (ds + Repeat(' ', trail)));
    Concatenated(Repeat(' ', lead), sign, prefix, Repeat('0', zeros), ds, Repeat(' ', trail));
    EmptyRepeat(' ');
    EmptyRepeat('0');
    assert Formatted(value, signed, negative, b, c) == Repeat(' ', lead) + (sign + number);
    NumberReadBack(prefix, zeros, value, b, c, trail, commas);
    if prefix == [] && zeros == 0 && ds == [] {
      EmptyMeansZero(value, b, c);
      assert number == Repeat(' ', trail);
      MeaningOfBlank(lead, sign, trail, b, commas);
    } else {
      StartsWithDigit(prefix, zeros, value, b, c, trail);
      MeaningOf(lead, sign, number, b, commas, value);
    }
  }

  lemma Concatenated(a: string, b: string, c: string, d: string, e: string, f: string)
    ensures a + b + c + d + e + f == a + (b + (c + (d + (e + f))))
  {}

  lemma EmptyRepeat(ch: char)
    ensures Repeat(ch, 0) == []
  {}

  lemma EmptyMeansZero(value: nat, b: Base, c: Conversion)
    requires ValidBase(b) && DigitText(value, b, c) == []
    ensures value == 0
  {
    hide Marked;
    MarkedCharacters(value, b, c.grouped, 0);
  }

  lemma StartsWithDigit(prefix: string, zeros: nat, value: nat, b: Base, c: Conversion, trail: nat)
    requires ValidBase(b)
    requires prefix == [] || prefix == ['0', b.x]
    requires prefix != [] || zeros > 0 || DigitText(value, b, c) != []
    ensures var number := prefix + (Repeat('0', zeros) + (DigitText(value, b, c) + Repeat(' ', trail)));
      number != [] && !IsSpace(number[0]) && number[0] != '+' && number[0] != '-'
  {
    hide Marked, DigitText;
    NeededOfBase(b);
    DigitTextIsNumber(value, b, c);
    ZerosInFront(zeros, DigitText(value, b, c), b, c.grouped);
    FirstIsDigit(Repeat('0', zeros) + DigitText(value, b, c), b, c.grouped);
    assert prefix + (Repeat('0', zeros) + (DigitText(value, b, c) + Repeat(' ', trail)))
        == prefix + (Repeat('0', zeros) + DigitText(value, b, c)) + Repeat(' ', trail);
  }

  lemma FirstIsDigit(s: string, b: Base, grouped: bool)
    requires ValidBase(b) && NumberText(s, b, grouped)
    ensures s != [] ==> s[0] >= '0'
  {}

  // ---- the reading routine ----

  function ToInt32(x: int): int {
    (x + 0x8000_0000) % 0x1_0000_0000 - 0x8000_0000
  }

  predicate IsInt32(x: int) {
    -0x8000_0000 <= x < 0x8000_0000
  }

  predicate IsDigit(ch: char) {
    '0' <= ch <= '9'
  }

  function CharAt(s: string, i: nat): char {
    if i < |s| then s[i] else '\0'
  }

  lemma DecimalDigitAt(k: nat)
    requires k < |BASE_D.digits|
    ensures |BASE_D.digits| == 10 && BASE_D.digits[k] as int == '0' as int + k
  {
    assert k == 0 || k == 1 || k == 2 || k == 3 || k == 4 || k == 5 || k == 6 || k == 7 || k == 8 || k == 9;
  }

  lemma DecimalDigit(ch: char)
    ensures IsDigit(ch) <==> ch in BASE_D.digits
    ensures IsDigit(ch) ==> IndexOf(BASE_D.digits, ch) == ch as int - '0' as int
  {
    hide IndexOf;
    DecimalValid();
    DecimalDigitAt(0);
    forall k | 0 <= k < |BASE_D.digits| ensures BASE_D.digits[k] as int == '0' as int + k {
      DecimalDigitAt(k);
    }
    if IsDigit(ch) {
      var k := ch as int - '0' as int;
      assert BASE_D.digits[k] == ch;
      IndexOfDigit(BASE_D.digits, k);
    }
  }

  lemma {:induction false} DigitsOnlyGrow(s: string, b: Base, commas: bool, so_far: nat)
    requires 1 <= b.base
    ensures so_far <= ReadDigits(s, b, commas, so_far)
  {
    if s == [] || (!(commas && s[0] == ',') && s[0] !in b.digits) {
    } else if commas && s[0] == ',' {
      DigitsOnlyGrow(s[1..], b, commas, so_far);
    } else {
      Multiplied(so_far, b.base);
      DigitsOnlyGrow(s[1..], b, commas, so_far * b.base + IndexOf(b.digits, s[0]));
    }
  }

  lemma Multiplied(x: nat, y: nat)
    requires 1 <= y
    ensures x <= x * y
  {}

  method SkipWhiteSpace(s: string) returns (i: nat)
    ensures i <= |s| && s[i..] == SkipSpaces(s)
  {
    i := 0;
    while IsSpace(CharAt(s, i))
      invariant i <= |s| && SkipSpaces(s[i..]) == SkipSpaces(s)
      decreases |s| - i
    {
      assert s[i..][1..] == s[i + 1..];
      i := i + 1;
    }
  }

  lemma ToInt32Shifted(x: int, k: int)
    ensures ToInt32(x + k * 0x1_0000_0000) == ToInt32(x)
  {
    ModShift(x + 0x8000_0000, k);
  }

  lemma ModShift(x: int, k: int)
    ensures (x + k * 0x1_0000_0000) % 0x1_0000_0000 == x % 0x1_0000_0000
  {}

  lemma ToInt32Is(x: int) returns (k: int)
    ensures ToInt32(x) == x + k * 0x1_0000_0000
    ensures IsInt32(x) ==> ToInt32(x) == x
  {
    k := 0 - (x + 0x8000_0000) / 0x1_0000_0000;
  }

  /** One step of the accumulation, with every intermediate result wrapped to 32 bits. */
  lemma WrappedStep(so_far: nat, digit: nat)
    ensures ToInt32(ToInt32(ToInt32(0 - so_far) * 10) - digit) == ToInt32(0 - (so_far * 10 + digit))
  {
    hide ToInt32;
    var j := ToInt32Is(0 - so_far);
    var k := ToInt32Is(ToInt32(0 - so_far) * 10);
    assert ToInt32(ToInt32(0 - so_far) * 10) - digit == 0 - (so_far * 10 + digit) + (10 * j + k) * 0x1_0000_0000;
    ToInt32Shifted(0 - (so_far * 10 + digit), 10 * j + k);
  }

  /** The loop over the digits accumulates below zero, where there is room for the least 32-bit integer. */
  method AccumulateBelowZero(s: string, start: nat) returns (value: int)
    requires start <= |s|
    ensures value == ToInt32(0 - ReadDigits(s[start..], BASE_D, false, 0))
  {
    hide ReadDigits, IndexOf, ToInt32;
    ghost var total := ReadDigits(s[start..], BASE_D, false, 0);
    value := 0;
    var i := start;
    ghost var so_far: nat := 0;
    ghost var zero := ToInt32Is(0);
    while IsDigit(CharAt(s, i))
      invariant i <= |s| && ReadDigits(s[i..], BASE_D, false, so_far) == total
      invariant value == ToInt32(0 - so_far)
      decreases |s| - i
    {
      ghost var digit := s[i] as int - '0' as int;
      WrappedStep(so_far, digit);
      so_far := DigitStep(s, i, so_far, total);
      value := ToInt32(ToInt32(value * 10) - (s[i] as int - '0' as int));
      i := i + 1;
    }
    DigitEnd(s, i, so_far);
  }

  lemma NegatedTwice(x: int)
    ensures ToInt32(0 - ToInt32(0 - x)) == ToInt32(x)
  {
    hide ToInt32;
    var k := ToInt32Is(0 - x);
    ToInt32Shifted(x, 0 - k);
    assert 0 - ToInt32(0 - x) == x + (0 - k) * 0x1_0000_0000;
  }

  /** What the text stands for, modulo 2^32. */
  method Atoi(s: string) returns (value: int)
    ensures value == ToInt32(Meaning(s, BASE_D, false))
    ensures IsInt32(Meaning(s, BASE_D, false)) ==> value == Meaning(s, BASE_D, false)
  {
    hide ReadDigits, IndexOf, SkipSpaces, ToInt32;
    ghost var same := ToInt32Is(Meaning(s, BASE_D, false));
    var i := SkipWhiteSpace(s);
    var negative := false;
    assert i < |s| ==> s[i..][1..] == s[i + 1..];
    if CharAt(s, i) == '+' {
      i := i + 1;
    } else if CharAt(s, i) == '-' {
      negative := true;
      i := i + 1;
    }
    value := AccumulateBelowZero(s, i);
    NegatedTwice(ReadDigits(s[i..], BASE_D, false, 0));
    if !negative {
      value := ToInt32(-value);
    }
  }

  lemma DigitStep(s: string, i: nat, so_far: nat, total: nat) returns (longer: nat)
    requires i < |s| && IsDigit(s[i]) && ReadDigits(s[i..], BASE_D, false, so_far) == total
    ensures longer == so_far * 10 + (s[i] as int - '0' as int)
    ensures ReadDigits(s[i + 1..], BASE_D, false, longer) == total && longer <= total
  {
    hide ReadDigits, IndexOf;
    DecimalDigit(s[i]);
    longer := so_far * 10 + (s[i] as int - '0' as int);
    ReadStep(s, i, BASE_D, so_far);
    DigitsOnlyGrow(s[i + 1..], BASE_D, false, longer);
  }

  lemma ReadStep(s: string, i: nat, b: Base, so_far: nat)
    requires i < |s| && s[i] in b.digits
    ensures ReadDigits(s[i..], b, false, so_far)
         == ReadDigits(s[i + 1..], b, false, so_far * b.base + IndexOf(b.digits, s[i]))
  {
    assert s[i..][1..] == s[i + 1..];
  }

  lemma DigitEnd(s: string, i: nat, so_far: nat)
    requires i <= |s| && !IsDigit(CharAt(s, i))
    ensures ReadDigits(s[i..], BASE_D, false, so_far) == so_far
  {
    DecimalDigit(CharAt(s, i));
  }

  /** A signed 32-bit integer printed in base ten without grouping is read back, the least one included. */
  lemma DecimalRoundTrip(n: int, c: Conversion)
    requires IsInt32(n) && c.Valid() && !c.grouped
    ensures Meaning(SignedText(n, c), BASE_D, false) == n
  {
    hide Meaning, Formatted;
    DecimalValid();
    FormattedMeaning(Magnitude(n), true, n < 0, BASE_D, c, false);
  }

  function Magnitude(n: int): nat {
    if n < 0 then -n else n
  }

  function SignedText(n: int, c: Conversion): string {
    Formatted(Magnitude(n), true, n < 0, BASE_D, c)
  }
}
