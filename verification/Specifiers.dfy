/** Conversion specifiers of printf as stdio.c parses them: flags, a width, a precision and a length, where
    a star takes the number from the arguments. */
module Specifiers {
  import opened Wrappers
  import opened BitOps
  import opened Formats

  /** A number as written, possibly without digits, or a star. */
  datatype Field = Given(digits: string) | Star

  datatype Specifier = Specifier(flags: string, width: Field, precision: Option<Field>, length: string)

  datatype ArgType = CharArg | ShortArg | IntArg | IntmaxArg | LongArg | LonglongArg | PtrdifftArg | SizetArg

  predicate IsFlag(ch: char) { ch == '-' || ch == '+' || ch == ' ' || ch == '#' || ch == '0' || ch == '\'' }

  predicate Figure(ch: char) { '0' <= ch <= '9' }

  predicate AllFigures(d: string) { forall i | 0 <= i < |d| :: Figure(d[i]) }

  function Value(d: string): (v: nat)
    requires AllFigures(d)
  {
    if d == [] then 0
    else
      assert Figure(d[|d| - 1]);
      Value(d[..|d| - 1]) * 10 + (d[|d| - 1] as int - '0' as int)
  }

  // ---- how a specifier is written ----

  predicate FieldOk(f: Field) { f.Given? ==> AllFigures(f.digits) }

  const LENGTHS := ["", "h", "hh", "j", "l", "ll", "t", "z"]

  /** A zero in front of the width is a flag. */
  predicate SpecifierOk(s: Specifier) {
    && (forall i | 0 <= i < |s.flags| :: IsFlag(s.flags[i]))
    && FieldOk(s.width) && (s.width.Given? && s.width.digits != [] ==> s.width.digits[0] != '0')
    && (s.precision.Some? ==> FieldOk(s.precision.value))
    && s.length in LENGTHS
  }

  function FieldText(f: Field): string { if f.Star? then "*" else f.digits }

  function PrecisionText(p: Option<Field>): string { if p.None? then "" else "." + FieldText(p.value) }

  function SpecifierText(s: Specifier): string {
    s.flags + FieldText(s.width) + PrecisionText(s.precision) + s.length
  }

  /** The character at i, or the terminator. */
  function At(s: string, i: nat): char { if i < |s| then s[i] else '\0' }

  predicate Starts(s: string, i: nat, t: string) { i + |t| <= |s| && s[i..i + |t|] == t }

  predicate FieldEnds(f: Field, ch: char) { f.Given? ==> !Figure(ch) }

  predicate LengthEnds(length: string, ch: char) {
    if length == "" then ch != 'h' && ch != 'j' && ch != 'l' && ch != 't' && ch != 'z'
    else (length == "h" ==> ch != 'h') && (length == "l" ==> ch != 'l')
  }

  /** The specifier s is written at i, and none of its parts goes on. */
  ghost predicate Written(format: string, i: nat, s: Specifier) {
    var w := i + |s.flags|;
    var p := w + |FieldText(s.width)|;
    var l := p + |PrecisionText(s.precision)|;
    && SpecifierOk(s) && l + |s.length| <= |format|
    && Starts(format, i, s.flags) && !IsFlag(At(format, w))
    && Starts(format, w, FieldText(s.width)) && (s.width.Given? ==> At(format, w) != '*')
    && FieldEnds(s.width, At(format, p))
    && Starts(format, p, PrecisionText(s.precision)) && (s.precision.None? ==> At(format, p) != '.')
    && (s.precision.Some? ==> FieldEnds(s.precision.value, At(format, l))
                              && (s.precision.value.Given? ==> At(format, p + 1) != '*'))
    && Starts(format, l, s.length) && LengthEnds(s.length, At(format, l + |s.length|))
  }

  // ---- what it means ----

  /** The n-th argument of those that follow the format. */
  type Args = nat -> int

  function WidthOf(s: Specifier, args: Args): int
    requires SpecifierOk(s)
  {
    if s.width.Star? then args(0) else Value(s.width.digits)
  }

  /** A negative precision counts as none. */
  function PrecisionOf(s: Specifier, args: Args): (p: int)
    requires SpecifierOk(s)
    ensures p >= -1
  {
    if s.precision.None? then -1
    else if s.precision.value.Given? then Value(s.precision.value.digits)
    else
      var p := args(if s.width.Star? then 1 else 0);
      if p < 0 then -1 else p
  }

  function StarsOf(s: Specifier): nat {
    (if s.width.Star? then 1 else 0) + (if s.precision.Some? && s.precision.value.Star? then 1 else 0)
  }

  /** A negative width asks for the left side. A minus sign and a precision each turn the zero flag off, and
      plus turns space off. */
  function ConversionOf(s: Specifier, args: Args): (c: Conversion)
    requires SpecifierOk(s)
    ensures c.Valid()
  {
    var w, p := WidthOf(s, args), PrecisionOf(s, args);
    Conversion('-' in s.flags || w < 0, '+' in s.flags, ' ' in s.flags && '+' !in s.flags, '#' in s.flags,
               '0' in s.flags && '-' !in s.flags && p < 0, '\'' in s.flags, if w < 0 then -w else w, p)
  }

  function TypeOf(length: string): ArgType {
    if length == "hh" then CharArg else if length == "h" then ShortArg else if length == "j" then IntmaxArg
    else if length == "ll" then LonglongArg else if length == "l" then LongArg
    else if length == "t" then PtrdifftArg else if length == "z" then SizetArg else IntArg
  }

  /** The zero flag survives a conversion to the left side exactly for a negative starred width, as the minus
      flag is looked at before the width is read. */
  lemma BothFlagsIff(s: Specifier, args: Args)
    requires SpecifierOk(s)
    ensures var c := ConversionOf(s, args);
            (c.minus && c.zero)
            <==> '0' in s.flags && '-' !in s.flags && s.width.Star? && args(0) < 0 && PrecisionOf(s, args) < 0
  {}

  /** For which specifiers and arguments the text is not as wide as the larger of the field and the body. */
  lemma WidthMissedIff(s: Specifier, args: Args, value: nat, signed: bool, negative: bool, b: Base)
    requires SpecifierOk(s) && ValidBase(b)
    ensures 2 <= b.base == |b.digits| && 1 <= b.group
    ensures var c := ConversionOf(s, args);
            var body := |SignText(signed, negative, c)| + |PrefixText(value, b, c)| + |DigitText(value, b, c)|;
            |Formatted(value, signed, negative, b, c)| != (if c.width < body then body else c.width)
            <==> '0' in s.flags && '-' !in s.flags && s.width.Star? && -args(0) > body && PrecisionOf(s, args) < 0
  {
    var c := ConversionOf(s, args);
    NeededOfBase(b);
    FieldWidth(value, signed, negative, b, c);
    BothFlagsIff(s, args);
    hide ValidBase, Formatted, SignText, PrefixText, DigitText, PrecisionOf;
  }

  /** %0*d for -5 and 42 gives eight characters. */
  lemma ZerosAndSpaces(args: Args)
    requires args(0) == -5
    ensures var s := Specifier("0", Star, None, "");
            Written("0*d", 0, s) && Formatted(42, true, false, BASE_D, ConversionOf(s, args)) == "00042   "
  {
    PaddedTwice();
    hide Formatted;
  }

  lemma PaddedTwice()
    ensures Formatted(42, true, false, BASE_D, PLAIN.(minus := true, zero := true, width := 5)) == "00042   "
  {
    FortyTwo(PLAIN.(minus := true, zero := true, width := 5));
    Three('0');
    Three(' ');
    hide DigitText, Repeat;
    assert "000" + "42" + "   " == "00042   ";
  }

  lemma FortyTwo(c: Conversion)
    requires !c.grouped && !c.pound && c.precision == -1
    ensures DigitText(42, BASE_D, c) == "42"
  {
    assert Marked(4, BASE_D, false, 1) == "4";
    assert Marked(42, BASE_D, false, 0) == "42";
    hide Marked;
  }

  lemma Three(ch: char)
    ensures Repeat(ch, 3) == [ch, ch, ch]
  {
    assert Repeat(ch, 1) == [ch] && Repeat(ch, 2) == [ch, ch];
  }

  // ---- one specifier at a place ----

  lemma StartsAt(format: string, i: nat, t: string)
    requires Starts(format, i, t)
    ensures i + |t| <= |format| && forall k | 0 <= k < |t| :: format[i + k] == t[k]
  {
    forall k | 0 <= k < |t| ensures format[i + k] == t[k] {
      assert format[i..i + |t|][k] == t[k];
    }
  }

  lemma SameRun(format: string, i: nat, a: string, b: string, p: char -> bool)
    requires Starts(format, i, a) && Starts(format, i, b)
    requires (forall k | 0 <= k < |a| :: p(a[k])) && (forall k | 0 <= k < |b| :: p(b[k]))
    requires !p(At(format, i + |a|)) && !p(At(format, i + |b|))
    ensures a == b
  {
    StartsAt(format, i, a);
    StartsAt(format, i, b);
    hide Starts;
    if |a| != |b| {
      assert false;
    }
  }

  lemma FirstOf(format: string, i: nat, t: string)
    requires Starts(format, i, t) && t != []
    ensures At(format, i) == t[0]
  {
    assert format[i] == format[i..i + |t|][0];
  }

  lemma SameField(format: string, i: nat, f: Field, g: Field)
    requires FieldOk(f) && Starts(format, i, FieldText(f)) && FieldEnds(f, At(format, i + |FieldText(f)|))
    requires FieldOk(g) && Starts(format, i, FieldText(g)) && FieldEnds(g, At(format, i + |FieldText(g)|))
    requires (f.Given? ==> At(format, i) != '*') && (g.Given? ==> At(format, i) != '*')
    ensures f == g
  {
    if f.Star? {
      FirstOf(format, i, "*");
    } else if g.Star? {
      FirstOf(format, i, "*");
    } else {
      SameRun(format, i, f.digits, g.digits, Figure);
    }
  }

  lemma SamePrecision(format: string, i: nat, f: Option<Field>, g: Option<Field>)
    requires Starts(format, i, PrecisionText(f)) && (f.None? ==> At(format, i) != '.')
    requires f.Some? ==> FieldOk(f.value) && FieldEnds(f.value, At(format, i + |PrecisionText(f)|))
                         && (f.value.Given? ==> At(format, i + 1) != '*')
    requires Starts(format, i, PrecisionText(g)) && (g.None? ==> At(format, i) != '.')
    requires g.Some? ==> FieldOk(g.value) && FieldEnds(g.value, At(format, i + |PrecisionText(g)|))
                         && (g.value.Given? ==> At(format, i + 1) != '*')
    ensures f == g
  {
    if f.Some? {
      FirstOf(format, i, PrecisionText(f));
      PointDropped(format, i, FieldText(f.value));
    }
    if g.Some? {
      FirstOf(format, i, PrecisionText(g));
      PointDropped(format, i, FieldText(g.value));
    }
    if f.Some? {
      SameField(format, i + 1, f.value, g.value);
    }
  }

  lemma PointDropped(format: string, i: nat, t: string)
    requires Starts(format, i, "." + t)
    ensures Starts(format, i + 1, t)
  {
    assert format[i + 1..i + 1 + |t|] == format[i..i + 1 + |t|][1..];
    assert ("." + t)[1..] == t;
  }

  lemma SameLength(format: string, i: nat, a: string, b: string)
    requires a in LENGTHS && Starts(format, i, a) && LengthEnds(a, At(format, i + |a|))
    requires b in LENGTHS && Starts(format, i, b) && LengthEnds(b, At(format, i + |b|))
    ensures a == b
  {
    LengthShape(format, i, a);
    LengthShape(format, i, b);
  }

  lemma LengthShape(format: string, i: nat, a: string)
    requires a in LENGTHS && Starts(format, i, a) && LengthEnds(a, At(format, i + |a|))
    ensures a == if At(format, i) == 'h' then if At(format, i + 1) == 'h' then "hh" else "h"
                 else if At(format, i) == 'l' then if At(format, i + 1) == 'l' then "ll" else "l"
                 else if At(format, i) == 'j' then "j" else if At(format, i) == 't' then "t"
                 else if At(format, i) == 'z' then "z" else ""
  {
    if |a| > 0 {
      FirstOf(format, i, a);
    }
    if |a| > 1 {
      assert format[i + 1] == format[i..i + |a|][1] == a[1];
    }
  }

  /** At most one specifier is written at a place. */
  lemma SpecifierUnique(format: string, i: nat, s: Specifier, t: Specifier)
    requires Written(format, i, s) && Written(format, i, t)
    ensures s == t
  {
    hide Starts, IsFlag, At, Figure, FieldText, PrecisionText, FieldOk, FieldEnds, LengthEnds;
    SameRun(format, i, s.flags, t.flags, IsFlag);
    var w := i + |s.flags|;
    SameField(format, w, s.width, t.width);
    var p := w + |FieldText(s.width)|;
    SamePrecision(format, p, s.precision, t.precision);
    SameLength(format, p + |PrecisionText(s.precision)|, s.length, t.length);
  }

  // ---- parse_conversion ----

  /** The flag characters at i. */
  method ParseFlags(format: string, at: nat)
    returns (minus: bool, plus: bool, space: bool, pound: bool, zero: bool, group: bool, i: nat)
    requires at <= |format|
    ensures at <= i <= |format| && !IsFlag(At(format, i)) && forall k | at <= k < i :: IsFlag(format[k])
    ensures var f := format[at..i];
            && minus == ('-' in f) && plus == ('+' in f) && space == (' ' in f) && pound == ('#' in f)
            && zero == ('0' in f) && group == ('\'' in f)
  {
    minus, plus, space, pound, zero, group := false, false, false, false, false, false;
    i := at;
    while i < |format| && IsFlag(format[i])
      invariant at <= i <= |format| && forall k | at <= k < i :: IsFlag(format[k])
      invariant var f := format[at..i];
                && minus == ('-' in f) && plus == ('+' in f) && space == (' ' in f) && pound == ('#' in f)
                && zero == ('0' in f) && group == ('\'' in f)
      decreases |format| - i
    {
      assert format[at..i + 1] == format[at..i] + [format[i]];
      match format[i] {
        case '-' => minus := true;
        case '+' => plus := true;
        case ' ' => space := true;
        case '#' => pound := true;
        case '0' => zero := true;
        case _ => group := true;
      }
      i := i + 1;
    }
  }

  /** A star, or digits that are accumulated. */
  method ParseField(format: string, at: nat, args: Args, used: nat) returns (v: int, i: nat, now: nat, ghost f: Field)
    requires at <= |format|
    ensures at <= i <= |format| && format[at..i] == FieldText(f) && FieldOk(f) && FieldEnds(f, At(format, i))
    ensures f.Given? ==> At(format, at) != '*' && v == Value(f.digits) && now == used
    ensures f.Star? ==> v == args(used) && now == used + 1
  {
    i := at;
    if i < |format| && format[i] == '*' {
      assert format[at..at + 1] == "*";
      return args(used), i + 1, used + 1, Star;
    }
    v, now := 0, used;
    while i < |format| && Figure(format[i])
      invariant at <= i <= |format| && AllFigures(format[at..i]) && v == Value(format[at..i])
    {
      assert format[at..i + 1][..i - at] == format[at..i];
      v := v * 10 + (format[i] as int - '0' as int);
      i := i + 1;
    }
    f := Given(format[at..i]);
  }

  /** The letters for the type of the argument. */
  method ParseLength(format: string, at: nat) returns (kind: ArgType, i: nat)
    requires at <= |format|
    ensures at <= i <= |format| && format[at..i] in LENGTHS && LengthEnds(format[at..i], At(format, i))
    ensures kind == TypeOf(format[at..i])
  {
    i := at;
    kind := IntArg;
    if i < |format| {
      match format[i]
      case 'h' =>
        i := i + 1;
        if At(format, i) == 'h' {
          kind, i := CharArg, i + 1;
        } else {
          kind := ShortArg;
        }
      case 'j' => kind, i := IntmaxArg, i + 1;
      case 'l' =>
        i := i + 1;
        if At(format, i) == 'l' {
          kind, i := LonglongArg, i + 1;
        } else {
          kind := LongArg;
        }
      case 't' => kind, i := PtrdifftArg, i + 1;
      case 'z' => kind, i := SizetArg, i + 1;
      case _ =>
    }
    LengthRead(format, at, i);
  }

  lemma LengthRead(format: string, at: nat, i: nat)
    requires at <= i <= |format| && i - at <= 2
    ensures i == at ==> format[at..i] == ""
    ensures i == at + 1 ==> format[at..i] == [format[at]]
    ensures i == at + 2 ==> format[at..i] == [format[at], format[at + 1]]
  {}

  /** A point and a precision, or neither. */
  method ParsePrecision(format: string, at: nat, args: Args, used: nat)
    returns (precision: int, i: nat, now: nat, ghost g: Option<Field>)
    requires at <= |format|
    ensures at <= i <= |format| && format[at..i] == PrecisionText(g)
    ensures g.None? ==> At(format, at) != '.' && precision == -1 && now == used
    ensures g.Some? ==> FieldOk(g.value) && FieldEnds(g.value, At(format, i))
                        && (g.value.Given? ==> At(format, at + 1) != '*')
    ensures g.Some? && g.value.Given? ==> precision == Value(g.value.digits) && now == used
    ensures g.Some? && g.value.Star? ==> precision == (if args(used) < 0 then -1 else args(used)) && now == used + 1
  {
    hide Value;
    precision, i, now, g := -1, at, used, None;
    if At(format, at) == '.' {
      ghost var h;
      precision, i, now, h := ParseField(format, at + 1, args, used);
      g := Some(h);
      assert format[at..i] == "." + format[at + 1..i];
      if precision < 0 {
        precision := -1;
      }
    }
  }

  lemma Assembled(format: string, at: nat, w: nat, p: nat, l: nat, next: nat, s: Specifier)
    requires at <= w <= p <= l <= next <= |format|
    requires s.flags == format[at..w] && (forall k | at <= k < w :: IsFlag(format[k])) && !IsFlag(At(format, w))
    requires format[w..p] == FieldText(s.width) && FieldOk(s.width) && FieldEnds(s.width, At(format, p))
    requires s.width.Given? ==> At(format, w) != '*'
    requires format[p..l] == PrecisionText(s.precision) && (s.precision.None? ==> At(format, p) != '.')
    requires s.precision.Some? ==> FieldOk(s.precision.value) && FieldEnds(s.precision.value, At(format, l))
                                   && (s.precision.value.Given? ==> At(format, p + 1) != '*')
    requires format[l..next] == s.length && s.length in LENGTHS && LengthEnds(s.length, At(format, next))
    ensures Written(format, at, s) && next == at + |SpecifierText(s)|
  {
    NoZeroFirst(format, w, p, s.width);
    FlagsOk(format, at, w);
    SliceStarts(format, at, w, s.flags);
    SliceStarts(format, w, p, FieldText(s.width));
    SliceStarts(format, p, l, PrecisionText(s.precision));
    SliceStarts(format, l, next, s.length);
    hide *;
    AssembledOk(s);
    AssembledParts(format, at, s);
  }

  lemma AssembledOk(s: Specifier)
    requires (forall i | 0 <= i < |s.flags| :: IsFlag(s.flags[i])) && FieldOk(s.width) && s.length in LENGTHS
    requires s.width.Given? && s.width.digits != [] ==> s.width.digits[0] != '0'
    requires s.precision.Some? ==> FieldOk(s.precision.value)
    ensures SpecifierOk(s)
  {
    hide FieldOk, IsFlag;
  }

  lemma AssembledParts(format: string, at: nat, s: Specifier)
    requires SpecifierOk(s)
    requires var w := at + |s.flags|; var p := w + |FieldText(s.width)|; var l := p + |PrecisionText(s.precision)|;
             && l + |s.length| <= |format|
             && Starts(format, at, s.flags) && !IsFlag(At(format, w))
             && Starts(format, w, FieldText(s.width)) && (s.width.Given? ==> At(format, w) != '*')
             && FieldEnds(s.width, At(format, p))
             && Starts(format, p, PrecisionText(s.precision)) && (s.precision.None? ==> At(format, p) != '.')
             && (s.precision.Some? ==> FieldEnds(s.precision.value, At(format, l))
                                       && (s.precision.value.Given? ==> At(format, p + 1) != '*'))
             && Starts(format, l, s.length) && LengthEnds(s.length, At(format, l + |s.length|))
    ensures Written(format, at, s)
    ensures at + |SpecifierText(s)| == at + |s.flags| + |FieldText(s.width)| + |PrecisionText(s.precision)| + |s.length|
  {
    hide SpecifierOk, FieldEnds, LengthEnds, IsFlag, FieldText, PrecisionText, At, Starts;
  }

  lemma SliceStarts(format: string, i: nat, j: nat, t: string)
    requires i <= j <= |format| && format[i..j] == t
    ensures Starts(format, i, t) && j == i + |t|
  {}

  lemma FlagsOk(format: string, at: nat, w: nat)
    requires at <= w <= |format| && forall k | at <= k < w :: IsFlag(format[k])
    ensures forall i | 0 <= i < |format[at..w]| :: IsFlag(format[at..w][i])
  {
    hide IsFlag;
  }

  lemma NoZeroFirst(format: string, w: nat, p: nat, f: Field)
    requires w <= p <= |format| && format[w..p] == FieldText(f) && !IsFlag(At(format, w))
    ensures f.Given? && f.digits != [] ==> f.digits[0] != '0'
  {
    ZeroIsFlag();
    hide IsFlag;
    if w < p {
      assert format[w..p][0] == format[w];
    }
  }

  lemma ZeroIsFlag()
    ensures IsFlag('0')
  {}

  /** parse_conversion: the specifier at that place, and what it means for the arguments. */
  method ParseConversion(format: string, at: nat, args: Args)
    returns (c: Conversion, kind: ArgType, next: nat, used: nat, ghost s: Specifier)
    requires at <= |format|
    ensures Written(format, at, s)
    ensures forall t | Written(format, at, t) ::
              next == at + |SpecifierText(t)| && c == ConversionOf(t, args) && kind == TypeOf(t.length)
              && used == StarsOf(t)
  {
    hide Value, Written, SpecifierText, TypeOf, FieldEnds, LengthEnds, FieldOk, IsFlag, At, FieldText, PrecisionText,
         SpecifierOk;
    var minus, plus, space, pound, zero, group, i := ParseFlags(format, at);
    ghost var w := i;
    if minus {
      zero := false;
    }
    if plus {
      space := false;
    }
    var width, precision;
    ghost var f, g;
    width, i, used, f := ParseField(format, i, args, 0);
    ghost var p := i;
    if width < 0 {
      width, minus := -width, true;
    }
    precision, i, used, g := ParsePrecision(format, i, args, used);
    if precision >= 0 {
      zero := false;
    }
    kind, next := ParseLength(format, i);
    s := Specifier(format[at..w], f, g, format[i..next]);
    Assembled(format, at, w, p, i, next, s);
    c := Conversion(minus, plus, space, pound, zero, group, width, precision);
    WrittenOk(format, at, s);
    forall t | Written(format, at, t) ensures t == s {
      SpecifierUnique(format, at, s, t);
    }
  }

  lemma WrittenOk(format: string, at: nat, s: Specifier)
    requires Written(format, at, s)
    ensures SpecifierOk(s)
  {}
}
