/** JSON values and JSON texts. A text is given by a concrete syntax tree that keeps every choice the
    grammar leaves open: white space and the way each character is written. SyntaxOk says which trees
    RFC 8259 allows, Taken which trees the parser of cJSON.c takes. */
module JsonText {
  import opened Bytes
  import opened Wrappers

  const QUOTE: Byte := 34
  const BACKSLASH: Byte := 92
  const SLASH: Byte := 47
  const COMMA: Byte := 44
  const COLON: Byte := 58
  const LBRACKET: Byte := 91
  const RBRACKET: Byte := 93
  const LBRACE: Byte := 123
  const RBRACE: Byte := 125
  const MINUS: Byte := 45
  const PLUS: Byte := 43
  const POINT: Byte := 46
  const LOWER_U: Byte := 117

  const NULL_TEXT: seq<Byte> := [110, 117, 108, 108]
  const FALSE_TEXT: seq<Byte> := [102, 97, 108, 115, 101]
  const TRUE_TEXT: seq<Byte> := [116, 114, 117, 101]

  datatype Value =
    | Null
    | False
    | True
    | Number(valuedouble: real, valueint: int)
    | String(s: seq<Byte>)
    | Array(items: seq<Value>)
    | Object(members: seq<Member>)

  datatype Member = Member(name: seq<Byte>, value: Value)

  // ---- RFC 3629: UTF-8 ----

  /** The octets of a code point, after the table in section 3 of RFC 3629. */
  function Utf8(c: int): (s: seq<Byte>)
    requires 0 <= c <= 0x10FFFF
    ensures 1 <= |s| <= 4
  {
    if c < 0x80 then [c]
    else if c < 0x800 then [0xC0 + c / 64, 0x80 + c % 64]
    else if c < 0x1_0000 then [0xE0 + c / 4096, 0x80 + c / 64 % 64, 0x80 + c % 64]
    else [0xF0 + c / 262144, 0x80 + c / 4096 % 64, 0x80 + c / 64 % 64, 0x80 + c % 64]
  }

  // ---- RFC 8259, section 7: strings ----

  predicate Digit(b: Byte) { 48 <= b <= 57 }

  predicate HexDigit(b: Byte) { Digit(b) || 65 <= b <= 70 || 97 <= b <= 102 }

  function HexValue(b: Byte): (v: int)
    requires HexDigit(b)
    ensures 0 <= v < 16
  {
    if Digit(b) then b - 48 else if b <= 70 then b - 55 else b - 87
  }

  datatype Hex4 = Hex4(a: Byte, b: Byte, c: Byte, d: Byte) {
    predicate Ok() { HexDigit(a) && HexDigit(b) && HexDigit(c) && HexDigit(d) }

    function Code(): (v: int)
      requires Ok()
      ensures 0 <= v < 0x1_0000
    {
      ((HexValue(a) * 16 + HexValue(b)) * 16 + HexValue(c)) * 16 + HexValue(d)
    }

    function Text(): seq<Byte> { [a, b, c, d] }

    /** parse_hex4 gives 0 for anything but four hexadecimal digits. */
    function Read(): (v: int)
      ensures 0 <= v < 0x1_0000
    {
      if Ok() then Code() else 0
    }
  }

  predicate HighSurrogate(v: int) { 0xD800 <= v <= 0xDBFF }

  predicate LowSurrogate(v: int) { 0xDC00 <= v <= 0xDFFF }

  /** One character of a string as written: itself, a two-character escape, a \u escape, or a
      surrogate pair of \u escapes. Cut is a backslash that takes the closing quote along, which can
      only come about behind a \u escape without four hexadecimal digits. */
  datatype Piece =
    | Plain(x: Byte)
    | Short(mark: Byte)
    | Unit(h: Hex4)
    | Pair(high: Hex4, low: Hex4)
    | Cut

  /** The byte denoted by a two-character escape. */
  function ShortMeaning(mark: Byte): (r: int)
    ensures r == -1 || 0 <= r < 256
  {
    if mark == 98 then 8 else if mark == 102 then 12 else if mark == 110 then 10
    else if mark == 114 then 13 else if mark == 116 then 9
    else if mark == QUOTE || mark == BACKSLASH || mark == SLASH then mark
    else -1
  }

  predicate Surrogate(v: int) { HighSurrogate(v) || LowSurrogate(v) }

  /** RFC 8259, section 7. An escape of half a surrogate pair alone is one of the grammar's. */
  predicate PieceOk(p: Piece) {
    match p
    case Plain(b) => b >= 32 && b != QUOTE && b != BACKSLASH
    case Short(m) => ShortMeaning(m) >= 0
    case Unit(h) => h.Ok()
    case Pair(x, y) => x.Ok() && y.Ok() && HighSurrogate(x.Code()) && LowSurrogate(y.Code())
    case Cut => false
  }

  /** What can stand in a string, of the RFC's pieces and of those that the parser takes: control characters and
      \u with any four bytes as well. */
  predicate PieceLegible(p: Piece) {
    match p
    case Plain(b) => b != BACKSLASH
    case Short(m) => ShortMeaning(m) >= 0
    case Unit(h) => true
    case Pair(x, y) => HighSurrogate(x.Read()) && LowSurrogate(y.Read())
    case Cut => true
  }

  /** It is no escape of half a surrogate pair alone. */
  predicate PiecePaired(p: Piece) { p.Unit? ==> !Surrogate(p.h.Read()) }

  /** The parser takes all of these but half a surrogate pair. */
  predicate PieceTaken(p: Piece) { PieceLegible(p) && PiecePaired(p) }

  function RenderPiece(p: Piece): (s: seq<Byte>)
    ensures s != []
  {
    match p
    case Plain(b) => [b]
    case Short(m) => [BACKSLASH, m]
    case Unit(h) => [BACKSLASH, LOWER_U] + h.Text()
    case Pair(x, y) => [BACKSLASH, LOWER_U] + x.Text() + [BACKSLASH, LOWER_U] + y.Text()
    case Cut => [BACKSLASH]
  }

  /** The code point of a surrogate pair. */
  function PairCode(first: int, second: int): (c: int)
    ensures 0x1_0000 <= c <= 0x10FFFF
  {
    0x1_0000 + (first % 0x400 * 0x400 + second % 0x400)
  }

  /** The octets a piece stands for. */
  function PieceMeaning(p: Piece): seq<Byte> {
    match p
    case Plain(b) => [b]
    case Short(m) => if ShortMeaning(m) < 0 then [] else [ShortMeaning(m)]
    case Unit(h) => Utf8(h.Read())
    case Pair(x, y) => Utf8(PairCode(x.Read(), y.Read()))
    case Cut => [QUOTE]
  }

  /** Two escapes that make up a surrogate pair are one piece. */
  predicate SplitPair(p: Piece, q: Piece) {
    p.Unit? && HighSurrogate(p.h.Read()) && q.Unit? && LowSurrogate(q.h.Read())
  }

  predicate PairsJoined(ps: seq<Piece>) { forall i | 0 < i < |ps| :: !SplitPair(ps[i - 1], ps[i]) }

  predicate PiecesOk(ps: seq<Piece>) { (forall i | 0 <= i < |ps| :: PieceOk(ps[i])) && PairsJoined(ps) }

  function RenderPieces(ps: seq<Piece>): seq<Byte> {
    if ps == [] then [] else RenderPiece(ps[0]) + RenderPieces(ps[1..])
  }

  function PiecesMeaning(ps: seq<Piece>): seq<Byte> {
    if ps == [] then [] else PieceMeaning(ps[0]) + PiecesMeaning(ps[1..])
  }

  /** With every backslash taken together with the byte behind it, no quote is left. */
  predicate Closed(t: seq<Byte>) {
    t == [] || (if t[0] == BACKSLASH then |t| > 1 && Closed(t[2..]) else t[0] != QUOTE && Closed(t[1..]))
  }

  predicate PiecesTaken(ps: seq<Piece>) {
    forall i | 0 <= i < |ps| :: PieceTaken(ps[i]) && (ps[i].Cut? ==> i == |ps| - 1)
  }

  predicate PiecesLegible(ps: seq<Piece>) {
    && (forall i | 0 <= i < |ps| :: PieceLegible(ps[i]) && (ps[i].Cut? ==> i == |ps| - 1))
    && PairsJoined(ps)
  }

  predicate PiecesPaired(ps: seq<Piece>) { forall i | 0 <= i < |ps| :: PiecePaired(ps[i]) }

  /** A quote that no backslash escapes ends the string, and up to there it consists of pieces. */
  predicate StringTaken(ps: seq<Piece>) { PiecesTaken(ps) && Closed(RenderPieces(ps)) }

  predicate StringLegible(ps: seq<Piece>) { PiecesLegible(ps) && Closed(RenderPieces(ps)) }

  function RenderString(ps: seq<Piece>): seq<Byte> { [QUOTE] + RenderPieces(ps) + [QUOTE] }

  // ---- RFC 8259, sections 2 to 6: white space, values, objects, arrays, numbers ----

  /** What the parser skips as white space. */
  type White = s: seq<Byte> | forall i | 0 <= i < |s| :: s[i] <= 32

  /** RFC 8259, section 2 */
  predicate WhiteOk(w: White) { forall i | 0 <= i < |w| :: w[i] in {32, 9, 10, 13} }

  datatype Syntax =
    | NullS
    | FalseS
    | TrueS
    | NumberS(numeral: Numeral)
    | StringS(ps: seq<Piece>)
    | EmptyArrayS(inner: White)
    | ArrayS(elements: seq<Element>)
    | EmptyObjectS(inner: White)
    | ObjectS(fields: seq<Field>)

  /** A number as written: the digits of the integer, a point and digits behind it, an exponent. */
  datatype Numeral = Numeral(negative: bool, digits: seq<Byte>, fraction: Option<seq<Byte>>, exponent: Option<Exponent>)

  datatype Exponent = Exponent(mark: Byte, sign: seq<Byte>, digits: seq<Byte>)

  datatype Element = Element(before: White, value: Syntax, after: White)

  datatype Field = Field(before: White, name: seq<Piece>, afterName: White,
                         beforeValue: White, value: Syntax, after: White)

  predicate AllDigits(d: seq<Byte>) { forall i | 0 <= i < |d| :: Digit(d[i]) }

  predicate ExponentMark(b: Byte) { b == 101 || b == 69 }

  predicate ExponentOk(e: Exponent) {
    && ExponentMark(e.mark) && (e.sign == [] || e.sign == [PLUS] || e.sign == [MINUS])
    && e.digits != [] && AllDigits(e.digits)
  }

  /** RFC 8259, section 6 */
  predicate NumeralOk(n: Numeral) {
    && n.digits != [] && AllDigits(n.digits) && (|n.digits| > 1 ==> n.digits[0] != 48)
    && (n.fraction.Some? ==> n.fraction.value != [] && AllDigits(n.fraction.value))
    && (n.exponent.Some? ==> ExponentOk(n.exponent.value))
  }

  /** strtod takes leading zeros, and no digits on one side of the point; the parser lets it see a number
      only if that begins with a digit or a minus sign. */
  predicate NumeralTaken(n: Numeral) {
    && AllDigits(n.digits) && (n.fraction.Some? ==> AllDigits(n.fraction.value))
    && (n.digits != [] || (n.negative && n.fraction.Some? && n.fraction.value != []))
    && (n.exponent.Some? ==> ExponentOk(n.exponent.value))
  }

  predicate SyntaxOk(c: Syntax)
    decreases c, 1
  {
    match c
    case NumberS(n) => NumeralOk(n)
    case StringS(ps) => PiecesOk(ps)
    case EmptyArrayS(w) => WhiteOk(w)
    case ArrayS(es) => es != [] && forall e | e in es :: ElementOk(e)
    case EmptyObjectS(w) => WhiteOk(w)
    case ObjectS(fs) => fs != [] && forall f | f in fs :: FieldOk(f)
    case _ => true
  }

  predicate ElementOk(e: Element)
    decreases e, 2
  {
    WhiteOk(e.before) && SyntaxOk(e.value) && WhiteOk(e.after)
  }

  predicate FieldOk(f: Field)
    decreases f, 2
  {
    && WhiteOk(f.before) && PiecesOk(f.name) && WhiteOk(f.afterName)
    && WhiteOk(f.beforeValue) && SyntaxOk(f.value) && WhiteOk(f.after)
  }

  /** No string or name has half a surrogate pair alone. */
  predicate Paired(c: Syntax) {
    match c
    case StringS(ps) => PiecesPaired(ps)
    case ArrayS(es) => forall e | e in es :: Paired(e.value)
    case ObjectS(fs) => forall f | f in fs :: PiecesPaired(f.name) && Paired(f.value)
    case _ => true
  }

  /** The trees of RFC 8259 and those that the parser takes. */
  predicate Legible(c: Syntax) {
    match c
    case NumberS(n) => NumeralTaken(n)
    case StringS(ps) => StringLegible(ps)
    case ArrayS(es) => es != [] && forall e | e in es :: Legible(e.value)
    case ObjectS(fs) => fs != [] && forall f | f in fs :: StringLegible(f.name) && Legible(f.value)
    case _ => true
  }

  /** The parser takes any white space and any strings described above, and leading zeros. */
  predicate Taken(c: Syntax) {
    match c
    case NumberS(n) => NumeralTaken(n)
    case StringS(ps) => StringTaken(ps)
    case ArrayS(es) => es != [] && forall e | e in es :: Taken(e.value)
    case ObjectS(fs) => fs != [] && forall f | f in fs :: StringTaken(f.name) && Taken(f.value)
    case _ => true
  }

  function FractionText(f: Option<seq<Byte>>): seq<Byte> { if f.None? then [] else [POINT] + f.value }

  function ExponentText(e: Option<Exponent>): seq<Byte> {
    if e.None? then [] else [e.value.mark] + e.value.sign + e.value.digits
  }

  function RenderNumeral(n: Numeral): seq<Byte> {
    (if n.negative then [MINUS] else []) + n.digits + FractionText(n.fraction) + ExponentText(n.exponent)
  }

  function Render(c: Syntax): seq<Byte>
    decreases c, 1
  {
    match c
    case NullS => NULL_TEXT
    case FalseS => FALSE_TEXT
    case TrueS => TRUE_TEXT
    case NumberS(n) => RenderNumeral(n)
    case StringS(ps) => RenderString(ps)
    case EmptyArrayS(w) => [LBRACKET] + w + [RBRACKET]
    case ArrayS(es) => [LBRACKET] + RenderElements(es) + [RBRACKET]
    case EmptyObjectS(w) => [LBRACE] + w + [RBRACE]
    case ObjectS(fs) => [LBRACE] + RenderFields(fs) + [RBRACE]
  }

  function RenderElement(e: Element): seq<Byte>
    decreases e, 2
  {
    e.before + Render(e.value) + e.after
  }

  function RenderElements(es: seq<Element>): seq<Byte>
    decreases es, 0
  {
    if es == [] then []
    else if |es| == 1 then RenderElement(es[0])
    else RenderElement(es[0]) + [COMMA] + RenderElements(es[1..])
  }

  function RenderField(f: Field): seq<Byte>
    decreases f, 2
  {
    f.before + RenderString(f.name) + f.afterName + [COLON] + f.beforeValue + Render(f.value) + f.after
  }

  function RenderFields(fs: seq<Field>): seq<Byte>
    decreases fs, 0
  {
    if fs == [] then []
    else if |fs| == 1 then RenderField(fs[0])
    else RenderField(fs[0]) + [COMMA] + RenderFields(fs[1..])
  }

  function DigitsValue(d: seq<Byte>): (v: int)
    requires AllDigits(d)
    ensures v >= 0
  {
    if d == [] then 0
    else
      assert Digit(d[|d| - 1]);
      DigitsValue(d[..|d| - 1]) * 10 + (d[|d| - 1] as int - 48)
  }

  lemma NoDigitsValue()
    ensures AllDigits([]) && DigitsValue([]) == 0
  {}

  lemma NextDigit(d: seq<Byte>, b: Byte)
    requires AllDigits(d) && Digit(b)
    ensures AllDigits(d + [b]) && DigitsValue(d + [b]) == DigitsValue(d) * 10 + (b - 48)
  {
    assert (d + [b])[..|d|] == d;
  }

  function Power10(e: int): real
    decreases if e < 0 then -e else e
  {
    if e == 0 then 1.0 else if e > 0 then 10.0 * Power10(e - 1) else Power10(e + 1) / 10.0
  }

  function DigitsOr0(d: seq<Byte>): int { if AllDigits(d) then DigitsValue(d) else 0 }

  function ExponentMeaning(e: Option<Exponent>): int {
    if e.None? then 0
    else if e.value.sign == [MINUS] then -DigitsOr0(e.value.digits)
    else DigitsOr0(e.value.digits)
  }

  /** The digits on both sides of the point, scaled. */
  function NumeralMeaning(n: Numeral): real {
    var behind := if n.fraction.None? then [] else n.fraction.value;
    var m := DigitsOr0(n.digits + behind) as real * Power10(ExponentMeaning(n.exponent) - |behind|);
    if n.negative then -m else m
  }

  const INT_MAX: int := 0x7FFF_FFFF
  const INT_MIN: int := -0x8000_0000

  /** valueint: the number without its fraction, or the nearest bound. */
  function ValueInt(x: real): int {
    if x >= INT_MAX as real then INT_MAX
    else if x <= INT_MIN as real then INT_MIN
    else if x >= 0.0 then x.Floor
    else -(-x).Floor
  }

  /** What the library makes of a number: the number itself, rounding to double left aside, and its view as
      an int. */
  function NumberItem(x: real): Value { Number(x, ValueInt(x)) }

  /** The value a text denotes. */
  function Denotes(c: Syntax): Value
    decreases c, 1
  {
    match c
    case NullS => Null
    case FalseS => False
    case TrueS => True
    case NumberS(n) => NumberItem(NumeralMeaning(n))
    case StringS(ps) => String(PiecesMeaning(ps))
    case EmptyArrayS(_) => Array([])
    case ArrayS(es) => Array(DenotesElements(es))
    case EmptyObjectS(_) => Object([])
    case ObjectS(fs) => Object(DenotesFields(fs))
  }

  function DenotesElements(es: seq<Element>): (vs: seq<Value>)
    ensures |vs| == |es|
    decreases es, 0
  {
    if es == [] then [] else [Denotes(es[0].value)] + DenotesElements(es[1..])
  }

  function DenotesField(f: Field): Member
    decreases f, 2
  {
    Member(PiecesMeaning(f.name), Denotes(f.value))
  }

  function DenotesFields(fs: seq<Field>): (ms: seq<Member>)
    ensures |ms| == |fs|
    decreases fs, 0
  {
    if fs == [] then [] else [DenotesField(fs[0])] + DenotesFields(fs[1..])
  }

  // ---- what the library holds of a value ----

  /** Strings up to their first NUL. */
  function Held(v: Value): Value
    decreases v, 1
  {
    match v
    case String(s) => String(CString(s))
    case Array(items) => Array(HeldItems(items))
    case Object(members) => Object(HeldMembers(members))
    case _ => v
  }

  function HeldItems(items: seq<Value>): (r: seq<Value>)
    ensures |r| == |items|
    decreases items, 0
  {
    if items == [] then [] else [Held(items[0])] + HeldItems(items[1..])
  }

  function HeldMember(m: Member): Member
    decreases m, 2
  {
    Member(CString(m.name), Held(m.value))
  }

  function HeldMembers(ms: seq<Member>): (r: seq<Member>)
    ensures |r| == |ms|
    decreases ms, 0
  {
    if ms == [] then [] else [HeldMember(ms[0])] + HeldMembers(ms[1..])
  }

  /** How deeply arrays and objects are nested in a text. */
  function Nesting(c: Syntax): nat
    decreases c, 1
  {
    match c
    case EmptyArrayS(_) => 1
    case ArrayS(es) => 1 + ElementsNesting(es)
    case EmptyObjectS(_) => 1
    case ObjectS(fs) => 1 + FieldsNesting(fs)
    case _ => 0
  }

  function Max(a: nat, b: nat): nat { if a < b then b else a }

  function ElementsNesting(es: seq<Element>): nat
    decreases es, 0
  {
    if es == [] then 0 else Max(Nesting(es[0].value), ElementsNesting(es[1..]))
  }

  function FieldsNesting(fs: seq<Field>): nat
    decreases fs, 0
  {
    if fs == [] then 0 else Max(Nesting(fs[0].value), FieldsNesting(fs[1..]))
  }

  /** A text begins with a byte that is neither white space nor a byte order mark. */
  lemma FirstByte(c: Syntax)
    requires Taken(c) || Legible(c)
    ensures Render(c) != [] && 32 < Render(c)[0] < 128
    ensures Render(c)[0] != RBRACKET && Render(c)[0] != RBRACE
  {
    if c.NumberS? {
      var n := c.numeral;
      assert n.digits != [] ==> Digit(n.digits[0]);
    }
  }

  // ---- JSON texts are taken ----

  lemma ClosedPlain(b: Byte, t: seq<Byte>)
    requires b != QUOTE && b != BACKSLASH && Closed(t)
    ensures Closed([b] + t)
  {
    assert ([b] + t)[1..] == t;
  }

  lemma ClosedEscape(b: Byte, t: seq<Byte>)
    requires Closed(t)
    ensures Closed([BACKSLASH, b] + t)
  {
    assert ([BACKSLASH, b] + t)[2..] == t;
  }

  lemma ClosedHex(h: Hex4, t: seq<Byte>)
    requires h.Ok() && Closed(t)
    ensures Closed([BACKSLASH, LOWER_U] + h.Text() + t)
  {
    hide Closed;
    ClosedPlain(h.d, t);
    ClosedPlain(h.c, [h.d] + t);
    ClosedPlain(h.b, [h.c] + ([h.d] + t));
    ClosedPlain(h.a, [h.b] + ([h.c] + ([h.d] + t)));
    assert [h.a] + ([h.b] + ([h.c] + ([h.d] + t))) == h.Text() + t;
    ClosedEscape(LOWER_U, h.Text() + t);
    assert [BACKSLASH, LOWER_U] + (h.Text() + t) == [BACKSLASH, LOWER_U] + h.Text() + t;
  }

  lemma ClosedPiece(x: Piece, t: seq<Byte>)
    requires PieceOk(x) && Closed(t)
    ensures Closed(RenderPiece(x) + t)
  {
    hide Closed;
    match x
    case Plain(b) => ClosedPlain(b, t);
    case Short(m) => ClosedEscape(m, t);
    case Unit(h) => ClosedHex(h, t);
    case Pair(y, z) =>
      var u := [BACKSLASH, LOWER_U];
      ClosedHex(z, t);
      ClosedHex(y, u + z.Text() + t);
      assert u + y.Text() + (u + z.Text() + t) == u + y.Text() + u + z.Text() + t;
  }

  lemma {:induction false} PiecesClosed(ps: seq<Piece>)
    requires PiecesOk(ps)
    ensures Closed(RenderPieces(ps))
    decreases |ps|
  {
    hide Closed, RenderPiece, PieceOk;
    if ps == [] {
      NothingClosed();
    } else {
      PiecesTail(ps);
      PiecesClosed(ps[1..]);
      ClosedPiece(ps[0], RenderPieces(ps[1..]));
    }
  }

  lemma NothingClosed()
    ensures Closed([])
  {}

  lemma PiecesTail(ps: seq<Piece>)
    requires PiecesOk(ps) && ps != []
    ensures PiecesOk(ps[1..])
  {
    hide PieceOk, SplitPair;
    var rest := ps[1..];
    forall i | 0 < i < |rest| ensures !SplitPair(rest[i - 1], rest[i]) {
      assert !SplitPair(ps[i], ps[i + 1]);
    }
  }

  lemma StringOkLegible(ps: seq<Piece>)
    requires PiecesOk(ps)
    ensures StringLegible(ps)
  {
    PiecesClosed(ps);
    forall i | 0 <= i < |ps| ensures PieceLegible(ps[i]) && !ps[i].Cut? {
      assert PieceOk(ps[i]);
    }
    hide Closed, RenderPieces;
  }

  lemma {:induction false} SyntaxLegible(c: Syntax)
    requires SyntaxOk(c)
    ensures Legible(c)
    decreases c
  {
    hide StringLegible, PiecesOk, WhiteOk;
    match c
    case StringS(ps) => StringOkLegible(ps);
    case ArrayS(es) =>
      forall e | e in es ensures Legible(e.value) {
        assert ElementOk(e);
        SyntaxLegible(e.value);
      }
    case ObjectS(fs) =>
      forall f | f in fs ensures StringLegible(f.name) && Legible(f.value) {
        assert FieldOk(f);
        StringOkLegible(f.name);
        SyntaxLegible(f.value);
      }
    case _ =>
  }

  lemma StringTakenIff(ps: seq<Piece>)
    ensures StringTaken(ps) <==> StringLegible(ps) && PiecesPaired(ps)
  {
    hide Closed, RenderPieces;
    if StringTaken(ps) {
      forall i | 0 < i < |ps| ensures !SplitPair(ps[i - 1], ps[i]) {
        assert PieceTaken(ps[i]);
      }
    }
  }

  /** The parser takes the legible trees in which no half of a surrogate pair stands alone. */
  lemma {:induction false} TakenIff(c: Syntax)
    ensures Taken(c) <==> Legible(c) && Paired(c)
    decreases c
  {
    hide StringTaken, StringLegible, PiecesPaired, NumeralTaken;
    match c
    case StringS(ps) => StringTakenIff(ps);
    case ArrayS(es) =>
      forall e | e in es ensures Taken(e.value) <==> Legible(e.value) && Paired(e.value) {
        TakenIff(e.value);
      }
    case ObjectS(fs) =>
      forall f | f in fs
        ensures StringTaken(f.name) && Taken(f.value)
           <==> StringLegible(f.name) && Legible(f.value) && PiecesPaired(f.name) && Paired(f.value)
      {
        StringTakenIff(f.name);
        TakenIff(f.value);
      }
    case _ =>
  }

  /** Of what RFC 8259 allows the parser takes all but half a surrogate pair alone. */
  lemma SyntaxTaken(c: Syntax)
    requires SyntaxOk(c)
    ensures Taken(c) <==> Paired(c)
  {
    hide *;
    SyntaxLegible(c);
    TakenIff(c);
  }
}
