/** What the recursive-descent parser of cJSON.c computes, as functions of the input bytes. */
module JsonParse {
  import opened Wrappers
  import opened Bytes
  import opened JsonText

  /** The outcome of parsing at an offset: the item and the offset behind it. */
  datatype Parsed<T> = Fail | Ok(item: T, next: nat)

  const CJSON_NESTING_LIMIT: nat := 1000

  // ---- white space ----

  function SkipEnd(c: seq<Byte>, o: nat): (p: nat)
    requires o <= |c|
    ensures o <= p <= |c|
    ensures forall i | o <= i < p :: c[i] <= 32
    ensures p < |c| ==> c[p] > 32
    decreases |c| - o
  {
    if o < |c| && c[o] <= 32 then SkipEnd(c, o + 1) else o
  }

  /** buffer_skip_whitespace steps back onto the last byte when it reaches the end. */
  function SkipWhite(c: seq<Byte>, o: nat): (p: nat)
    ensures o <= p && (o < |c| ==> p < |c|)
  {
    if o >= |c| then o
    else if SkipEnd(c, o) == |c| then |c| - 1
    else SkipEnd(c, o)
  }

  // ---- strings ----

  /** The position of the closing quote, with escaped bytes skipped in pairs. */
  function EndOfString(c: seq<Byte>, p: nat): (e: Option<nat>)
    ensures e.Some? ==> p <= e.value < |c| && c[e.value] == QUOTE
    decreases |c| - p
  {
    if p >= |c| then None
    else if c[p] == QUOTE then Some(p)
    else if c[p] != BACKSLASH then EndOfString(c, p + 1)
    else if p + 1 >= |c| then None
    else EndOfString(c, p + 2)
  }

  /** parse_hex4: 0 also stands for "not four hexadecimal digits". */
  function ParseHex4(c: seq<Byte>, p: nat): (v: int)
    requires p + 4 <= |c|
    ensures 0 <= v < 0x1_0000
  {
    var h := Hex4(c[p], c[p + 1], c[p + 2], c[p + 3]);
    if h.Ok() then h.Code() else 0
  }

  datatype Escape = Escape(bytes: seq<Byte>, length: nat)

  /** utf16_literal_to_utf8: the octets for the \u escape at p, and how many bytes it takes up. */
  function Utf16Literal(c: seq<Byte>, p: nat, e: nat): (r: Option<Escape>)
    requires p < e < |c|
    ensures r.Some? ==> 0 < r.value.length && p + r.value.length <= e
  {
    if e - p < 6 then None
    else
      var first := ParseHex4(c, p + 2);
      if LowSurrogate(first) then None
      else if HighSurrogate(first) then
        if e - (p + 6) < 6 then None
        else if c[p + 6] != BACKSLASH || c[p + 7] != LOWER_U then None
        else
          var second := ParseHex4(c, p + 8);
          if !LowSurrogate(second) then None
          else Some(Escape(Utf8(0x1_0000 + (first - 0xD800) * 0x400 + (second - 0xDC00)), 12))
      else Some(Escape(Utf8(first), 6))
  }

  /** The second pass of parse_string, from p to the closing quote at e. An escape may start right
      before the quote and take it along. */
  function Unescape(c: seq<Byte>, p: nat, e: nat): Option<seq<Byte>>
    requires e < |c|
    decreases e - p
  {
    if p >= e then Some([])
    else if c[p] != BACKSLASH then Prepend([c[p]], Unescape(c, p + 1, e))
    else if c[p + 1] == LOWER_U then
      match Utf16Literal(c, p, e)
      case None => None
      case Some(x) => Prepend(x.bytes, Unescape(c, p + x.length, e))
    else if ShortMeaning(c[p + 1]) < 0 then None
    else Prepend([ShortMeaning(c[p + 1])], Unescape(c, p + 2, e))
  }

  function Prepend(a: seq<Byte>, r: Option<seq<Byte>>): Option<seq<Byte>> {
    match r
    case None => None
    case Some(b) => Some(a + b)
  }

  /** parse_string */
  function ParseString(c: seq<Byte>, o: nat): (r: Parsed<seq<Byte>>)
    requires o < |c|
    ensures r.Ok? ==> o < r.next <= |c|
  {
    if c[o] != QUOTE then Fail
    else
      match EndOfString(c, o + 1)
      case None => Fail
      case Some(e) =>
        match Unescape(c, o + 1, e)
        case None => Fail
        case Some(s) => Ok(CString(s), e + 1)
  }

  // ---- numbers ----

  predicate NumberByte(b: Byte) { Digit(b) || b == PLUS || b == MINUS || ExponentMark(b) || b == POINT }

  function NumberEnd(c: seq<Byte>, o: nat): (p: nat)
    requires o <= |c|
    ensures o <= p <= |c|
    decreases |c| - o
  {
    if o < |c| && NumberByte(c[o]) then NumberEnd(c, o + 1) else o
  }

  function DigitsEnd(s: seq<Byte>, i: nat): (j: nat)
    requires i <= |s|
    ensures i <= j <= |s|
    ensures forall k | i <= k < j :: Digit(s[k])
    decreases |s| - i
  {
    if i < |s| && Digit(s[i]) then DigitsEnd(s, i + 1) else i
  }

  /** An optional exponent at i: a mark, a sign or none, and digits, or nothing of it. */
  function ExponentIn(s: seq<Byte>, i: nat): (r: Option<Exponent>)
    requires i <= |s|
    ensures r.Some? ==> ExponentOk(r.value) && i + |ExponentText(r)| <= |s|
  {
    if i == |s| || !ExponentMark(s[i]) then None
    else
      var k := if i + 1 < |s| && (s[i + 1] == PLUS || s[i + 1] == MINUS) then i + 2 else i + 1;
      var end := DigitsEnd(s, k);
      if end == k then None else Some(Exponent(s[i], s[i + 1..k], s[k..end]))
  }

  /** The longest number without a sign that stands at i, if there is one. */
  function NumeralIn(s: seq<Byte>, i: nat, negative: bool): (r: Option<Numeral>)
    requires i <= |s|
    ensures r.Some? ==> 0 < |RenderNumeral(r.value.(negative := false))| <= |s| - i
  {
    var point := DigitsEnd(s, i);
    if point == |s| || s[point] != POINT then
      if point == i then None
      else Some(Numeral(negative, s[i..point], None, ExponentIn(s, point)))
    else
      var end := DigitsEnd(s, point + 1);
      if point == i && end == point + 1 then None
      else Some(Numeral(negative, s[i..point], Some(s[point + 1..end]), ExponentIn(s, end)))
  }

  /** strtod: the value, rounding left aside, and the number of bytes used. */
  function Strtod(s: seq<Byte>): (r: Option<(real, nat)>)
    ensures r.Some? ==> 0 < r.value.1 <= |s|
  {
    var start := if s != [] && (s[0] == PLUS || s[0] == MINUS) then 1 else 0;
    match NumeralIn(s, start, start == 1 && s[0] == MINUS)
    case None => None
    case Some(n) => Some((NumeralMeaning(n), start + |RenderNumeral(n.(negative := false))|))
  }

  /** parse_number */
  function ParseNumber(c: seq<Byte>, o: nat): (r: Parsed<Value>)
    requires o < |c|
    ensures r.Ok? ==> o < r.next <= |c|
  {
    match Strtod(c[o..NumberEnd(c, o)])
    case None => Fail
    case Some(x) => Ok(NumberItem(x.0), o + x.1)
  }

  // ---- values ----

  predicate StartsWith(c: seq<Byte>, o: nat, s: seq<Byte>) {
    o + |s| <= |c| && c[o..o + |s|] == s
  }

  /** parse_value */
  function ParseValue(c: seq<Byte>, o: nat, depth: nat): (r: Parsed<Value>)
    ensures r.Ok? ==> o < r.next <= |c|
    decreases |c| - o, 3
  {
    if StartsWith(c, o, NULL_TEXT) then Ok(Null, o + 4)
    else if StartsWith(c, o, FALSE_TEXT) then Ok(False, o + 5)
    else if StartsWith(c, o, TRUE_TEXT) then Ok(True, o + 4)
    else if o >= |c| then Fail
    else if c[o] == QUOTE then
      match ParseString(c, o)
      case Fail => Fail
      case Ok(s, next) => Ok(String(s), next)
    else if c[o] == MINUS || Digit(c[o]) then ParseNumber(c, o)
    else if c[o] == LBRACKET then ParseArray(c, o, depth)
    else if c[o] == LBRACE then ParseObject(c, o, depth)
    else Fail
  }

  /** parse_array, at an opening bracket */
  function ParseArray(c: seq<Byte>, o: nat, depth: nat): (r: Parsed<Value>)
    requires o < |c|
    ensures r.Ok? ==> o < r.next <= |c|
    decreases |c| - o, 1
  {
    if depth >= CJSON_NESTING_LIMIT then Fail
    else
      var p := SkipWhite(c, o + 1);
      if p < |c| && c[p] == RBRACKET then Ok(Array([]), p + 1)
      else if p >= |c| then Fail
      else
        match ParseElements(c, p - 1, depth + 1)
        case Fail => Fail
        case Ok(items, next) => Ok(Array(items), next)
  }

  /** The loop of parse_array, from the byte in front of an element to behind the closing bracket. */
  function ParseElements(c: seq<Byte>, o: nat, depth: nat): (r: Parsed<seq<Value>>)
    requires o < |c|
    ensures r.Ok? ==> o < r.next <= |c|
    decreases |c| - o, 0
  {
    match ParseValue(c, SkipWhite(c, o + 1), depth)
    case Fail => Fail
    case Ok(v, next) =>
      var q := SkipWhite(c, next);
      if q < |c| && c[q] == COMMA then
        match ParseElements(c, q, depth)
        case Fail => Fail
        case Ok(vs, end) => Ok([v] + vs, end)
      else if q < |c| && c[q] == RBRACKET then Ok([v], q + 1)
      else Fail
  }

  /** parse_object, at an opening brace */
  function ParseObject(c: seq<Byte>, o: nat, depth: nat): (r: Parsed<Value>)
    requires o < |c|
    ensures r.Ok? ==> o < r.next <= |c|
    decreases |c| - o, 2
  {
    if depth >= CJSON_NESTING_LIMIT then Fail
    else
      var p := SkipWhite(c, o + 1);
      if p < |c| && c[p] == RBRACE then Ok(Object([]), p + 1)
      else if p >= |c| then Fail
      else
        match ParseMembers(c, p - 1, depth + 1)
        case Fail => Fail
        case Ok(members, next) => Ok(Object(members), next)
  }

  /** One round of the loop of parse_object: a name, a colon and a value. */
  function ParseMember(c: seq<Byte>, o: nat, depth: nat): (r: Parsed<Member>)
    requires o < |c|
    ensures r.Ok? ==> o < r.next <= |c|
    decreases |c| - o, 0
  {
    if o + 1 >= |c| then Fail
    else
      match ParseString(c, SkipWhite(c, o + 1))
      case Fail => Fail
      case Ok(name, afterName) =>
        var p := SkipWhite(c, afterName);
        if p >= |c| || c[p] != COLON then Fail
        else
          match ParseValue(c, SkipWhite(c, p + 1), depth)
          case Fail => Fail
          case Ok(v, next) => Ok(Member(name, v), next)
  }

  function ParseMembers(c: seq<Byte>, o: nat, depth: nat): (r: Parsed<seq<Member>>)
    requires o < |c|
    ensures r.Ok? ==> o < r.next <= |c|
    decreases |c| - o, 1
  {
    match ParseMember(c, o, depth)
    case Fail => Fail
    case Ok(m, next) =>
      var q := SkipWhite(c, next);
      if q < |c| && c[q] == COMMA then
        match ParseMembers(c, q, depth)
        case Fail => Fail
        case Ok(ms, end) => Ok([m] + ms, end)
      else if q < |c| && c[q] == RBRACE then Ok([m], q + 1)
      else Fail
  }

  /** skip_utf8_bom */
  function SkipBom(c: seq<Byte>): nat {
    if 4 < |c| && c[..3] == [0xEF, 0xBB, 0xBF] then 3 else 0
  }

  /** cJSON_ParseWithLengthOpts: the item and the offset at which parsing ended. */
  function Parse(c: seq<Byte>, requireTerminator: bool): Parsed<Value> {
    if c == [] then Fail
    else
      match ParseValue(c, SkipWhite(c, SkipBom(c)), 0)
      case Fail => Fail
      case Ok(v, next) =>
        if !requireTerminator then Ok(v, next)
        else
          var q := SkipWhite(c, next);
          if q >= |c| || c[q] != 0 then Fail else Ok(v, q)
  }
}
