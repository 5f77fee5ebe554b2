/** The text that the printer of cJSON.c produces, formatted or not: it is a JSON text, it denotes the
    value that was printed, and parsing gives that value back. */
module JsonPrint {
  import opened Bytes
  import opened Wrappers
  import opened JsonText
  import opened JsonParse
  import JsonComplete

  const TAB: Byte := 9
  const NEWLINE: Byte := 10
  const SPACE: Byte := 32

  // ---- strings ----

  function HexDigitOf(v: int): (b: Byte)
    requires 0 <= v < 16
    ensures HexDigit(b) && HexValue(b) == v
  {
    if v < 10 then 48 + v else 87 + v
  }

  /** How print_string_ptr writes one byte. */
  function PieceOf(b: Byte): (p: Piece)
    requires b != 0
    ensures PieceOk(p) && PiecePaired(p) && PieceMeaning(p) == [b]
  {
    if b == QUOTE || b == BACKSLASH then Short(b)
    else if b == 8 then Short(98)
    else if b == 12 then Short(102)
    else if b == 10 then Short(110)
    else if b == 13 then Short(114)
    else if b == 9 then Short(116)
    else if b < 32 then
      assert b / 16 * 16 + b % 16 == b;
      Unit(Hex4(48, 48, HexDigitOf(b / 16), HexDigitOf(b % 16)))
    else Plain(b)
  }

  function PiecesOf(s: seq<Byte>): (ps: seq<Piece>)
    requires NulFree(s)
    ensures PiecesOk(ps) && PiecesPaired(ps) && |ps| == |s|
  {
    if s == [] then [] else [PieceOf(s[0])] + PiecesOf(s[1..])
  }

  lemma {:induction false} PiecesOfMeaning(s: seq<Byte>)
    requires NulFree(s)
    ensures PiecesMeaning(PiecesOf(s)) == s
    decreases |s|
  {
    hide PieceOf, PieceMeaning, PieceOk;
    if s != [] {
      PiecesOfMeaning(s[1..]);
      assert PiecesOf(s)[1..] == PiecesOf(s[1..]);
      assert s == [s[0]] + s[1..];
    }
  }

  /** print_string_ptr */
  function StringText(s: seq<Byte>): seq<Byte>
    requires NulFree(s)
  {
    RenderString(PiecesOf(s))
  }

  // ---- numbers ----

  function Decimal(n: nat): (d: seq<Byte>)
    ensures d != [] && AllDigits(d) && DigitsValue(d) == n
    ensures n > 0 ==> d[0] != 48
  {
    if n < 10 then [48 + n]
    else
      var d := Decimal(n / 10);
      var r := d + [48 + n % 10];
      assert r[..|r| - 1] == d;
      r
  }

  /** "%d" */
  function NumberText(n: int): seq<Byte> {
    (if n < 0 then [MINUS] else []) + Decimal(if n < 0 then 0 - n else n)
  }

  /** The numeral that "%d" writes. */
  function Integer(n: int): (m: Numeral)
    ensures NumeralOk(m) && NumeralMeaning(m) == n as real && RenderNumeral(m) == NumberText(n)
  {
    var d := Decimal(if n < 0 then 0 - n else n);
    assert d + [] == d;
    Numeral(n < 0, d, None, None)
  }

  // ---- values ----

  /** The values whose printing is modelled: C strings, and numbers that equal their valueint. */
  predicate Printable(v: Value) {
    match v
    case Number(x, i) => x == i as real && INT_MIN <= i <= INT_MAX
    case String(s) => NulFree(s)
    case Array(items) => forall x | x in items :: Printable(x)
    case Object(members) => forall m | m in members :: NulFree(m.name) && Printable(m.value)
    case _ => true
  }

  /** Every number equals its valueint. */
  predicate IntsExact(v: Value) {
    match v
    case Number(x, i) => x == i as real && INT_MIN <= i <= INT_MAX
    case Array(items) => forall x | x in items :: IntsExact(x)
    case Object(members) => forall m | m in members :: IntsExact(m.value)
    case _ => true
  }

  function Tabs(n: nat): (w: White)
    ensures |w| == n
  {
    seq(n, i => TAB)
  }

  /** The text of a value at a nesting depth, as print_value writes it. */
  function Text(v: Value, fmt: bool, depth: nat): seq<Byte>
    requires Printable(v)
    decreases v, 1
  {
    match v
    case Null => NULL_TEXT
    case False => FALSE_TEXT
    case True => TRUE_TEXT
    case Number(_, i) => NumberText(i)
    case String(s) => StringText(s)
    case Array(items) => [LBRACKET] + ItemsText(items, fmt, depth + 1) + [RBRACKET]
    case Object(members) => OpenBrace(fmt) + MembersText(members, fmt, depth + 1) + Closing(fmt, depth)
  }

  function OpenBrace(fmt: bool): seq<Byte> { if fmt then [LBRACE, NEWLINE] else [LBRACE] }

  function Closing(fmt: bool, depth: nat): seq<Byte> { (if fmt then Tabs(depth) else []) + [RBRACE] }

  function ItemSeparator(fmt: bool): seq<Byte> { if fmt then [COMMA, SPACE] else [COMMA] }

  function ItemsText(items: seq<Value>, fmt: bool, depth: nat): seq<Byte>
    requires forall x | x in items :: Printable(x)
    decreases items, 0
  {
    if items == [] then []
    else if |items| == 1 then Text(items[0], fmt, depth)
    else Text(items[0], fmt, depth) + ItemSeparator(fmt) + ItemsText(items[1..], fmt, depth)
  }

  function Indent(fmt: bool, depth: nat): White { if fmt then Tabs(depth) else [] }

  function Colon(fmt: bool): seq<Byte> { if fmt then [COLON, TAB] else [COLON] }

  function MemberEnd(fmt: bool, last: bool): seq<Byte> {
    (if last then [] else [COMMA]) + (if fmt then [NEWLINE] else [])
  }

  function MemberText(m: Member, fmt: bool, depth: nat, last: bool): seq<Byte>
    requires NulFree(m.name) && Printable(m.value)
    decreases m, 2
  {
    Indent(fmt, depth) + StringText(m.name) + Colon(fmt) + Text(m.value, fmt, depth) + MemberEnd(fmt, last)
  }

  function MembersText(ms: seq<Member>, fmt: bool, depth: nat): seq<Byte>
    requires forall m | m in ms :: NulFree(m.name) && Printable(m.value)
    decreases ms, 0
  {
    if ms == [] then [] else MemberText(ms[0], fmt, depth, |ms| == 1) + MembersText(ms[1..], fmt, depth)
  }

  /** How deeply arrays and objects are nested in a value. */
  function Levels(v: Value): nat
    decreases v, 1
  {
    match v
    case Array(items) => 1 + ItemsLevels(items)
    case Object(members) => 1 + MembersLevels(members)
    case _ => 0
  }

  function ItemsLevels(items: seq<Value>): nat
    decreases items, 0
  {
    if items == [] then 0 else Max(Levels(items[0]), ItemsLevels(items[1..]))
  }

  function MembersLevels(ms: seq<Member>): nat
    decreases ms, 0
  {
    if ms == [] then 0 else Max(Levels(ms[0].value), MembersLevels(ms[1..]))
  }

  // ---- the syntax of the printed text ----

  /** The syntax tree of the text printed for a value. A line break and tabs in front of a member, or
      in front of the closing brace, are white space of the member next to them. */
  function Pretty(v: Value, fmt: bool, depth: nat): Syntax
    requires Printable(v)
    decreases v, 1
  {
    match v
    case Null => NullS
    case False => FalseS
    case True => TrueS
    case Number(_, i) => NumberS(Integer(i))
    case String(s) => StringS(PiecesOf(s))
    case Array(items) =>
      if items == [] then EmptyArrayS([]) else ArrayS(PrettyItems(items, fmt, depth + 1, []))
    case Object(members) =>
      if members == [] then EmptyObjectS(Line(fmt, depth)) else ObjectS(PrettyMembers(members, fmt, depth + 1))
  }

  function Line(fmt: bool, depth: nat): White { if fmt then [NEWLINE] + Tabs(depth) else [] }

  function Gap(fmt: bool): White { if fmt then [SPACE] else [] }

  function PrettyItems(items: seq<Value>, fmt: bool, depth: nat, before: White): (es: seq<Element>)
    requires forall x | x in items :: Printable(x)
    ensures |es| == |items|
    decreases items, 0
  {
    if items == [] then []
    else [Element(before, Pretty(items[0], fmt, depth), [])] + PrettyItems(items[1..], fmt, depth, Gap(fmt))
  }

  function PrettyMember(m: Member, fmt: bool, depth: nat, last: bool): Field
    requires NulFree(m.name) && Printable(m.value) && depth > 0
    decreases m, 2
  {
    Field(Line(fmt, depth), PiecesOf(m.name), [], if fmt then [TAB] else [], Pretty(m.value, fmt, depth),
          if last then Line(fmt, depth - 1) else [])
  }

  function PrettyMembers(ms: seq<Member>, fmt: bool, depth: nat): (fs: seq<Field>)
    requires (forall m | m in ms :: NulFree(m.name) && Printable(m.value)) && depth > 0
    ensures |fs| == |ms|
    decreases ms, 0
  {
    if ms == [] then [] else [PrettyMember(ms[0], fmt, depth, |ms| == 1)] + PrettyMembers(ms[1..], fmt, depth)
  }

  /** Exactly the integers of 32 bits are what valueint has of them. */
  lemma ValueIntIff(x: real)
    ensures ValueInt(x) as real == x <==> x == x.Floor as real && INT_MIN <= x.Floor <= INT_MAX
  {
    var y := -x;
    if x == x.Floor as real {
      assert y == (-x.Floor) as real;
      assert y.Floor == -x.Floor;
    }
  }

  /** The printed text is a JSON text that denotes the value, nested as deeply as the value. */
  lemma {:induction false} PrettyMeaning(v: Value, fmt: bool, depth: nat)
    requires Printable(v)
    ensures var c := Pretty(v, fmt, depth); SyntaxOk(c) && Paired(c) && Denotes(c) == v && Nesting(c) == Levels(v)
    decreases v, 1
  {
    match v
    case Null =>
    case False =>
    case True =>
    case Number(x, i) => ValueIntIff(x);
    case String(s) => PiecesOfMeaning(s);
    case Array(items) =>
      if items != [] {
        PrettyItemsMeaning(items, fmt, depth + 1, []);
      }
    case Object(members) =>
      if members != [] {
        PrettyMembersMeaning(members, fmt, depth + 1);
      }
  }

  lemma {:induction false} PrettyItemsMeaning(items: seq<Value>, fmt: bool, depth: nat, before: White)
    requires forall x | x in items :: Printable(x)
    requires WhiteOk(before)
    ensures var es := PrettyItems(items, fmt, depth, before);
            (forall e | e in es :: ElementOk(e) && Paired(e.value)) && DenotesElements(es) == items
            && ElementsNesting(es) == ItemsLevels(items)
    decreases items, 0
  {
    hide Pretty, SyntaxOk, Paired, Denotes, Nesting, Levels, Printable;
    if items != [] {
      PrettyMeaning(items[0], fmt, depth);
      PrettyItemsMeaning(items[1..], fmt, depth, Gap(fmt));
      assert PrettyItems(items, fmt, depth, before)[1..] == PrettyItems(items[1..], fmt, depth, Gap(fmt));
    }
  }

  lemma LineOk(fmt: bool, depth: nat)
    ensures WhiteOk(Line(fmt, depth))
  {}

  lemma {:induction false} PrettyMembersMeaning(ms: seq<Member>, fmt: bool, depth: nat)
    requires (forall m | m in ms :: NulFree(m.name) && Printable(m.value)) && depth > 0
    ensures var fs := PrettyMembers(ms, fmt, depth);
            (forall f | f in fs :: FieldOk(f) && PiecesPaired(f.name) && Paired(f.value)) && DenotesFields(fs) == ms
            && FieldsNesting(fs) == MembersLevels(ms)
    decreases ms, 0
  {
    hide Pretty, Denotes, DenotesField, Nesting, Levels, Printable, NulFree, PrettyMember, FieldOk,
         Paired, PiecesPaired;
    if ms != [] {
      PrettyMeaning(ms[0].value, fmt, depth);
      PrettyMemberOk(ms[0], fmt, depth, |ms| == 1);
      PrettyMembersMeaning(ms[1..], fmt, depth);
      assert PrettyMembers(ms, fmt, depth)[1..] == PrettyMembers(ms[1..], fmt, depth);
    }
  }

  lemma PrettyMemberOk(m: Member, fmt: bool, depth: nat, last: bool)
    requires NulFree(m.name) && Printable(m.value) && depth > 0
    requires var c := Pretty(m.value, fmt, depth);
             SyntaxOk(c) && Paired(c) && Denotes(c) == m.value && Nesting(c) == Levels(m.value)
    ensures var f := PrettyMember(m, fmt, depth, last);
            && FieldOk(f) && PiecesPaired(f.name) && Paired(f.value)
            && DenotesField(f) == m && Nesting(f.value) == Levels(m.value)
  {
    hide Pretty, SyntaxOk, Paired, Denotes, Nesting, Levels, Printable, PiecesOk, PiecesPaired, NulFree, Line,
         PiecesMeaning;
    PiecesOfMeaning(m.name);
    LineOk(fmt, depth);
    LineOk(fmt, depth - 1);
  }

  /** The text is the one its syntax tree stands for. */
  lemma {:induction false} PrettyText(v: Value, fmt: bool, depth: nat)
    requires Printable(v)
    ensures Render(Pretty(v, fmt, depth)) == Text(v, fmt, depth)
    decreases v, 1
  {
    hide Pretty, Text, Render;
    match v
    case Array(items) =>
      if items != [] {
        PrettyItemsText(items, fmt, depth + 1, []);
      }
      ArrayText(items, fmt, depth);
    case Object(members) =>
      if members != [] {
        PrettyMembersText(members, fmt, depth + 1);
      }
      ObjectText(members, fmt, depth);
    case _ => ScalarText(v, fmt, depth);
  }

  lemma ScalarText(v: Value, fmt: bool, depth: nat)
    requires Printable(v) && !v.Array? && !v.Object?
    ensures Render(Pretty(v, fmt, depth)) == Text(v, fmt, depth)
  {
    hide PiecesOf, Decimal, RenderPieces;
  }

  lemma ArrayText(items: seq<Value>, fmt: bool, depth: nat)
    requires forall x | x in items :: Printable(x)
    requires items != []
         ==> RenderElements(PrettyItems(items, fmt, depth + 1, [])) == [] + ItemsText(items, fmt, depth + 1)
    ensures Render(Pretty(Array(items), fmt, depth)) == Text(Array(items), fmt, depth)
  {
    hide PrettyItems, RenderElements, Printable;
    var t := ItemsText(items, fmt, depth + 1);
    assert [] + t == t;
  }

  lemma {:induction false} PrettyItemsText(items: seq<Value>, fmt: bool, depth: nat, before: White)
    requires (forall x | x in items :: Printable(x)) && items != []
    ensures RenderElements(PrettyItems(items, fmt, depth, before)) == before + ItemsText(items, fmt, depth)
    decreases items, 0
  {
    hide Pretty, Text, Printable, Render;
    var es := PrettyItems(items, fmt, depth, before);
    PrettyText(items[0], fmt, depth);
    var t := Text(items[0], fmt, depth);
    assert RenderElement(es[0]) == before + t;
    if |items| > 1 {
      PrettyItemsText(items[1..], fmt, depth, Gap(fmt));
      var rest := ItemsText(items[1..], fmt, depth);
      assert es[1..] == PrettyItems(items[1..], fmt, depth, Gap(fmt));
      assert [COMMA] + Gap(fmt) == ItemSeparator(fmt);
      Joined(before, t, [COMMA], Gap(fmt), rest);
    }
  }

  lemma Joined(a: seq<Byte>, b: seq<Byte>, c: seq<Byte>, d: seq<Byte>, e: seq<Byte>)
    ensures (a + b) + c + (d + e) == a + (b + (c + d) + e)
  {}

  /** What follows the opening brace: the members in front of a line break and the closing tabs. */
  lemma {:induction false} PrettyMembersText(ms: seq<Member>, fmt: bool, depth: nat)
    requires (forall m | m in ms :: NulFree(m.name) && Printable(m.value)) && depth > 0 && ms != []
    ensures RenderFields(PrettyMembers(ms, fmt, depth))
         == Break(fmt) + MembersText(ms, fmt, depth) + Indent(fmt, depth - 1)
    decreases ms, 0
  {
    hide Pretty, Text, Printable, Render, NulFree, PiecesOk, Line, RenderField, PrettyMember, MemberText;
    var fs := PrettyMembers(ms, fmt, depth);
    var last := |ms| == 1;
    PrettyText(ms[0].value, fmt, depth);
    PrettyMemberText(ms[0], fmt, depth, last);
    var t := MemberText(ms[0], fmt, depth, last);
    if last {
      assert MembersText(ms, fmt, depth) == t + MembersText(ms[1..], fmt, depth) == t;
    } else {
      PrettyMembersText(ms[1..], fmt, depth);
      assert fs[1..] == PrettyMembers(ms[1..], fmt, depth);
      var rest := MembersText(ms[1..], fmt, depth);
      MemberJoined(Break(fmt), RenderField(fs[0]), t, rest, Indent(fmt, depth - 1));
    }
  }

  lemma MemberJoined(line: seq<Byte>, f: seq<Byte>, t: seq<Byte>, rest: seq<Byte>, tabs: seq<Byte>)
    requires f + [COMMA] + line == line + t
    ensures f + [COMMA] + (line + rest + tabs) == line + (t + rest) + tabs
  {
    assert f + [COMMA] + (line + rest + tabs) == (f + [COMMA] + line) + rest + tabs;
  }

  function Break(fmt: bool): White { if fmt then [NEWLINE] else [] }

  /** The line break printed behind a member is the white space in front of the next one. */
  lemma PrettyMemberText(m: Member, fmt: bool, depth: nat, last: bool)
    requires NulFree(m.name) && Printable(m.value) && depth > 0
    requires Render(Pretty(m.value, fmt, depth)) == Text(m.value, fmt, depth)
    ensures var f := RenderField(PrettyMember(m, fmt, depth, last));
            var t := MemberText(m, fmt, depth, last);
            if last then f == Break(fmt) + t + Indent(fmt, depth - 1) else f + [COMMA] + Break(fmt) == Break(fmt) + t
  {
    hide Pretty, Text, Printable, Render, NulFree, PiecesOk, RenderString, PiecesOf, Tabs;
    var name, text := StringText(m.name), Text(m.value, fmt, depth);
    assert Line(fmt, depth) == Break(fmt) + Indent(fmt, depth);
    assert Line(fmt, depth - 1) == Break(fmt) + Indent(fmt, depth - 1);
    MemberShape(Break(fmt), Indent(fmt, depth), name, if fmt then [TAB] else [], text, Indent(fmt, depth - 1));
    assert Colon(fmt) == [COLON] + (if fmt then [TAB] else []);
    assert MemberEnd(fmt, last) == (if last then [] else [COMMA]) + Break(fmt);
  }

  lemma MemberShape(l: seq<Byte>, tabs: seq<Byte>, name: seq<Byte>, g: seq<Byte>, text: seq<Byte>, close: seq<Byte>)
    ensures (l + tabs) + name + [] + [COLON] + g + text + (l + close)
         == l + (tabs + name + ([COLON] + g) + text + ([] + l)) + close
    ensures (l + tabs) + name + [] + [COLON] + g + text + [] + [COMMA] + l
         == l + (tabs + name + ([COLON] + g) + text + ([COMMA] + l))
  {}

  lemma ObjectText(ms: seq<Member>, fmt: bool, depth: nat)
    requires forall m | m in ms :: NulFree(m.name) && Printable(m.value)
    requires var t := Break(fmt) + MembersText(ms, fmt, depth + 1) + Indent(fmt, depth);
             ms == [] || RenderFields(PrettyMembers(ms, fmt, depth + 1)) == t
    ensures Render(Pretty(Object(ms), fmt, depth)) == Text(Object(ms), fmt, depth)
  {
    hide PrettyMembers, RenderFields, NulFree, Tabs, Printable;
    var t := MembersText(ms, fmt, depth + 1);
    assert Closing(fmt, depth) == Indent(fmt, depth) + [RBRACE];
    assert OpenBrace(fmt) == [LBRACE] + Break(fmt);
    BraceShape(Break(fmt), t, Indent(fmt, depth));
  }

  lemma BraceShape(l: seq<Byte>, t: seq<Byte>, tabs: seq<Byte>)
    ensures [LBRACE] + (l + t + tabs) + [RBRACE] == ([LBRACE] + l) + t + (tabs + [RBRACE])
  {}

  /** The printable values are those that the library holds unchanged and whose numbers are exact as ints. */
  lemma {:induction false} PrintableIff(v: Value)
    ensures Printable(v) <==> Held(v) == v && IntsExact(v)
    decreases v, 1
  {
    hide CString, NulFree;
    match v
    case String(s) => CStringIff(s);
    case Array(items) => PrintableItemsIff(items);
    case Object(members) => PrintableMembersIff(members);
    case _ =>
  }

  lemma CStringIff(s: seq<Byte>)
    ensures NulFree(s) <==> CString(s) == s
  {
    if NulFree(s) {
      CStringWithoutNul(s);
    }
  }

  lemma {:induction false} PrintableItemsIff(items: seq<Value>)
    ensures (forall x | x in items :: Printable(x))
       <==> HeldItems(items) == items && forall x | x in items :: IntsExact(x)
    decreases items, 0
  {
    hide Printable, Held, IntsExact;
    if items != [] {
      PrintableIff(items[0]);
      PrintableItemsIff(items[1..]);
      var r := HeldItems(items);
      assert r[1..] == HeldItems(items[1..]);
      assert items == [items[0]] + items[1..] && r == [r[0]] + r[1..];
    }
  }

  lemma {:induction false} PrintableMembersIff(ms: seq<Member>)
    ensures (forall m | m in ms :: NulFree(m.name) && Printable(m.value))
       <==> HeldMembers(ms) == ms && forall m | m in ms :: IntsExact(m.value)
    decreases ms, 0
  {
    hide Printable, Held, NulFree, IntsExact;
    if ms != [] {
      PrintableIff(ms[0].value);
      CStringIff(ms[0].name);
      PrintableMembersIff(ms[1..]);
      var r := HeldMembers(ms);
      assert r[1..] == HeldMembers(ms[1..]);
      assert ms == [ms[0]] + ms[1..] && r == [r[0]] + r[1..];
    }
  }

  /** Parsing what was printed, formatted or not, gives the value back and reads all of the text. */
  lemma RoundTrip(v: Value, fmt: bool, requireTerminator: bool)
    requires Printable(v) && Levels(v) <= CJSON_NESTING_LIMIT
    ensures Parse(Text(v, fmt, 0) + [0], requireTerminator) == Ok(v, |Text(v, fmt, 0)|)
  {
    hide *;
    PrettyMeaning(v, fmt, 0);
    PrettyText(v, fmt, 0);
    PrintableIff(v);
    SyntaxTaken(Pretty(v, fmt, 0));
    var t := Text(v, fmt, 0);
    assert [] + t + [] == t;
    JsonComplete.TextRead([], Pretty(v, fmt, 0), []);
  }
}
