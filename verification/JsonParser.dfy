/** The parser of cJSON.c as it runs: a buffer with an offset that moves over the input, and an output
    array for each string whose size is found by a first pass over the string. */
module JsonParser {
  import opened Wrappers
  import opened Bytes
  import opened JsonText
  import J = JsonParse

  // ---- how many bytes a string needs ----

  /** How many escapes the first pass of parse_string meets before q, starting at p. */
  function Escapes(c: seq<Byte>, p: nat, q: nat): nat
    requires q <= |c|
    decreases q - p
  {
    if p >= q then 0
    else if c[p] == BACKSLASH then 1 + Escapes(c, p + 2, q)
    else Escapes(c, p + 1, q)
  }

  /** The first pass, starting at p, comes to stand on q. */
  predicate Lands(c: seq<Byte>, p: nat, q: nat)
    requires q <= |c|
    decreases q - p
  {
    p == q || (p < q && Lands(c, if c[p] == BACKSLASH then p + 2 else p + 1, q))
  }

  lemma {:induction false} LandsNext(c: seq<Byte>, p: nat, q: nat)
    requires q < |c| && Lands(c, p, q)
    ensures c[q] != BACKSLASH ==> Lands(c, p, q + 1) && Escapes(c, p, q + 1) == Escapes(c, p, q)
    ensures c[q] == BACKSLASH && q + 2 <= |c| ==> Lands(c, p, q + 2) && Escapes(c, p, q + 2) == Escapes(c, p, q) + 1
    decreases q - p
  {
    if p < q {
      LandsNext(c, if c[p] == BACKSLASH then p + 2 else p + 1, q);
    }
  }

  lemma {:induction false} EscapesBound(c: seq<Byte>, p: nat, q: nat)
    requires q <= |c|
    ensures 2 * Escapes(c, p, q) <= if p <= q then q - p + 1 else 0
    decreases q - p
  {
    if p < q {
      EscapesBound(c, if c[p] == BACKSLASH then p + 2 else p + 1, q);
    }
  }

  /** At most every other byte begins an escape, wherever the second pass may stand. */
  lemma {:induction false} EscapesStep(c: seq<Byte>, p: nat, q: nat, n: nat)
    requires q + n <= |c|
    ensures 2 * Escapes(c, p, q + n) <= 2 * Escapes(c, p, q) + n + 1
    ensures n == 1 && c[q] != BACKSLASH ==> Escapes(c, p, q + 1) == Escapes(c, p, q)
    decreases q - p
  {
    if p < q {
      EscapesStep(c, if c[p] == BACKSLASH then p + 2 else p + 1, q, n);
    } else {
      EscapesBound(c, p, q + n);
    }
  }

  lemma {:induction false} RoomGrows(c: seq<Byte>, p: nat, i: nat, j: nat)
    requires i <= j <= |c|
    ensures i - Escapes(c, p, i) <= j - Escapes(c, p, j)
    decreases j - i
  {
    if i < j {
      EscapesStep(c, p, j - 1, 1);
      RoomGrows(c, p, i, j - 1);
    }
  }

  /** The size that the first pass computes is enough for what the second pass has written at i, even
      if it takes the closing quote at e for part of an escape. */
  lemma OutputFits(c: seq<Byte>, p: nat, i: nat, e: nat)
    requires e < |c| && c[e] == QUOTE && i <= e + 1
    ensures i - Escapes(c, p, i) <= e + 1 - Escapes(c, p, e)
  {
    EscapesStep(c, p, e, 1);
    RoomGrows(c, p, i, e + 1);
  }

  // ---- UTF-16 escapes ----

  /** parse_hex4 */
  method ParseHex4(c: seq<Byte>, p: nat) returns (h: nat)
    requires p + 4 <= |c|
    ensures h == J.ParseHex4(c, p)
  {
    h := 0;
    var i := 0;
    while i < 4
      invariant 0 <= i <= 4
      invariant forall k | p <= k < p + i :: HexDigit(c[k])
      invariant h == HexPrefix(c, p, i)
    {
      if !HexDigit(c[p + i]) {
        return 0;
      }
      h := h + HexValue(c[p + i]);
      if i < 3 {
        h := h * 16;
      }
      i := i + 1;
    }
    assert HexPrefix(c, p, 1) == HexValue(c[p]) * 16;
    assert HexPrefix(c, p, 2) == (HexPrefix(c, p, 1) + HexValue(c[p + 1])) * 16;
    assert HexPrefix(c, p, 3) == (HexPrefix(c, p, 2) + HexValue(c[p + 2])) * 16;
    assert HexPrefix(c, p, 4) == Hex4(c[p], c[p + 1], c[p + 2], c[p + 3]).Code();
  }

  /** The value of h before digit i: after the last digit it is not shifted any more. */
  function HexPrefix(c: seq<Byte>, p: nat, i: nat): int
    requires i <= 4 && p + i <= |c| && forall k | p <= k < p + i :: HexDigit(c[k])
  {
    if i == 0 then 0
    else (HexPrefix(c, p, i - 1) + HexValue(c[p + i - 1])) * (if i < 4 then 16 else 1)
  }

  /** The end of utf16_literal_to_utf8: the octets are stored from the last to the first. */
  method StoreUtf8(codepoint: nat, output: array<Byte>, at: nat) returns (length: nat)
    requires codepoint <= 0x10FFFF && at + |Utf8(codepoint)| <= output.Length
    modifies output
    ensures length == |Utf8(codepoint)|
    ensures output[..at + length] == old(output[..at]) + Utf8(codepoint)
  {
    var mark := 0;
    if codepoint < 0x80 {
      length := 1;
    } else if codepoint < 0x800 {
      length, mark := 2, 0xC0;
    } else if codepoint < 0x1_0000 {
      length, mark := 3, 0xE0;
    } else {
      length, mark := 4, 0xF0;
    }
    var c, position := codepoint, length - 1;
    ghost var u := Utf8(codepoint);
    while position > 0
      invariant 0 <= position < length
      invariant c == Leading(codepoint, length - 1 - position)
      invariant output[..at] == old(output[..at])
      invariant forall k | position < k < length :: output[at + k] == u[k]
    {
      hide Leading, Utf8;
      Continuation(codepoint, position);
      NextGroup(codepoint, length - 1 - position);
      output[at + position] := 0x80 + c % 64;
      c := c / 64;
      position := position - 1;
    }
    FirstOctet(codepoint);
    hide Leading, Utf8;
    output[at] := if length > 1 then mark + c else c;
    assert output[..at + length] == output[..at] + u;
  }

  lemma NextGroup(codepoint: nat, n: nat)
    ensures Leading(codepoint, n + 1) == Leading(codepoint, n) / 64
  {}

  /** The code point without its last n groups of six bits. */
  function Leading(codepoint: nat, n: nat): nat { if n == 0 then codepoint else Leading(codepoint, n - 1) / 64 }

  lemma Groups(c: nat)
    ensures Leading(c, 1) == c / 64 && Leading(c, 2) == c / 4096 && Leading(c, 3) == c / 262144
  {
    assert Leading(c, 1) == Leading(c, 0) / 64;
    assert Leading(c, 2) == Leading(c, 1) / 64;
    assert Leading(c, 3) == Leading(c, 2) / 64;
  }

  lemma Continuation(codepoint: nat, position: nat)
    requires codepoint <= 0x10FFFF && 0 < position < |Utf8(codepoint)|
    ensures var u := Utf8(codepoint); u[position] == 0x80 + Leading(codepoint, |u| - 1 - position) % 64
  {
    Groups(codepoint);
  }

  lemma FirstOctet(codepoint: nat)
    requires codepoint <= 0x10FFFF
    ensures var u := Utf8(codepoint); var c := Leading(codepoint, |u| - 1);
            u[0] == c + (if |u| == 1 then 0 else if |u| == 2 then 0xC0 else if |u| == 3 then 0xE0 else 0xF0)
  {
    Groups(codepoint);
  }

  /** utf16_literal_to_utf8: the length of the escape, or 0 when it is not a valid one. */
  method Utf16LiteralToUtf8(c: seq<Byte>, p: nat, end: nat, output: array<Byte>, at: nat)
    returns (sequenceLength: nat, length: nat)
    requires p < end < |c| && at <= output.Length
    requires match J.Utf16Literal(c, p, end) case None => true case Some(x) => at + |x.bytes| <= output.Length
    modifies output
    ensures match J.Utf16Literal(c, p, end)
            case None => sequenceLength == 0
            case Some(x) => sequenceLength == x.length && length == |x.bytes|
                            && output[..at + length] == old(output[..at]) + x.bytes
  {
    hide Utf8, J.ParseHex4;
    length := 0;
    if end - p < 6 {
      return 0, 0;
    }
    var first := ParseHex4(c, p + 2);
    if 0xDC00 <= first <= 0xDFFF {
      return 0, 0;
    }
    var codepoint := first;
    sequenceLength := 6;
    if 0xD800 <= first <= 0xDBFF {
      sequenceLength := 12;
      if end - (p + 6) < 6 {
        return 0, 0;
      }
      if c[p + 6] != BACKSLASH || c[p + 7] != LOWER_U {
        return 0, 0;
      }
      var second := ParseHex4(c, p + 8);
      if second < 0xDC00 || second > 0xDFFF {
        return 0, 0;
      }
      codepoint := 0x1_0000 + (first % 0x400 * 0x400 + second % 0x400);
    }
    length := StoreUtf8(codepoint, output, at);
  }

  /** An escape is at least twice as long as the octets it stands for. */
  lemma EscapeShrinks(c: seq<Byte>, p: nat, end: nat)
    requires p < end < |c|
    ensures match J.Utf16Literal(c, p, end)
            case None => true
            case Some(x) => 2 * |x.bytes| <= x.length && x.length % 2 == 0
  {
    hide J.ParseHex4, Utf8;
    if end - p >= 6 && !HighSurrogate(J.ParseHex4(c, p + 2)) {
      ThreeOctets(J.ParseHex4(c, p + 2));
    }
  }

  lemma ThreeOctets(codepoint: nat)
    requires codepoint < 0x1_0000
    ensures |Utf8(codepoint)| <= 3
  {}

  // ---- strings ----

  lemma PrependTwice(a: seq<Byte>, b: seq<Byte>, r: Option<seq<Byte>>)
    ensures J.Prepend(a, J.Prepend(b, r)) == J.Prepend(a + b, r)
  {
    match r
    case None =>
    case Some(t) => assert a + (b + t) == a + b + t;
  }

  /** The bytes that the second pass writes for what stands at i, and how far it moves. */
  function Next(c: seq<Byte>, i: nat, end: nat): (r: Option<J.Escape>)
    requires i < end < |c|
    ensures r.Some? ==> r.value.length > 0
  {
    if c[i] != BACKSLASH then Some(J.Escape([c[i]], 1))
    else if c[i + 1] == LOWER_U then J.Utf16Literal(c, i, end)
    else if ShortMeaning(c[i + 1]) < 0 then None
    else Some(J.Escape([ShortMeaning(c[i + 1])], 2))
  }

  lemma UnescapeNext(c: seq<Byte>, i: nat, end: nat)
    requires i < end < |c|
    ensures J.Unescape(c, i, end) == match Next(c, i, end)
              case None => None
              case Some(x) => J.Prepend(x.bytes, J.Unescape(c, i + x.length, end))
  {
    hide J.Utf16Literal;
  }

  /** What is written for one character fits into what the first pass counted for it. */
  lemma NextFits(c: seq<Byte>, start: nat, i: nat, end: nat)
    requires i < end < |c| && c[end] == QUOTE
    ensures match Next(c, i, end)
            case None => true
            case Some(x) => i + x.length <= end + 1
                            && |x.bytes| + Escapes(c, start, i + x.length) <= Escapes(c, start, i) + x.length
                            && i + x.length - Escapes(c, start, i + x.length) <= end + 1 - Escapes(c, start, end)
  {
    EscapeShrinks(c, i, end);
    match Next(c, i, end)
    case None =>
    case Some(x) =>
      hide J.Utf16Literal;
      EscapesStep(c, start, i, x.length);
      OutputFits(c, start, i + x.length, end);
  }

  /** One round of the second pass of parse_string. */
  method UnescapeOne(c: seq<Byte>, i: nat, end: nat, output: array<Byte>, out: nat)
    returns (sequenceLength: nat, length: nat)
    requires i < end < |c| && out <= output.Length
    requires match Next(c, i, end) case None => true case Some(x) => out + |x.bytes| <= output.Length
    modifies output
    ensures match Next(c, i, end)
            case None => sequenceLength == 0
            case Some(x) => sequenceLength == x.length && length == |x.bytes|
                            && output[..out + length] == old(output[..out]) + x.bytes
  {
    hide J.Utf16Literal;
    if c[i] != BACKSLASH {
      output[out] := c[i];
      return 1, 1;
    }
    if c[i + 1] == LOWER_U {
      sequenceLength, length := Utf16LiteralToUtf8(c, i, end, output, out);
      return;
    }
    if ShortMeaning(c[i + 1]) < 0 {
      return 0, 0;
    }
    output[out] := ShortMeaning(c[i + 1]);
    return 2, 1;
  }

  /** The second pass of parse_string, into an array of the size that the first pass computed. */
  method UnescapeInto(c: seq<Byte>, start: nat, end: nat, output: array<Byte>) returns (ok: bool, out: nat)
    requires start <= end < |c| && c[end] == QUOTE
    requires output.Length == end + 1 - start - Escapes(c, start, end) + 1
    modifies output
    ensures var r := J.Unescape(c, start, end);
            ok == r.Some? && (ok ==> out < output.Length && output[..out] == r.value)
  {
    hide Next, J.Unescape;
    var i := start;
    ok, out := true, 0;
    OutputFits(c, start, start, end);
    Empty(J.Unescape(c, start, end));
    while i < end
      invariant start <= i <= end + 1 && out + Escapes(c, start, i) <= i - start && out < output.Length
      invariant J.Unescape(c, start, end) == J.Prepend(output[..out], J.Unescape(c, i, end))
    {
      UnescapeNext(c, i, end);
      NextFits(c, start, i, end);
      ghost var done := output[..out];
      var n, length := UnescapeOne(c, i, end, output, out);
      if n == 0 {
        return false, out;
      }
      PrependTwice(done, Next(c, i, end).value.bytes, J.Unescape(c, i + n, end));
      i, out := i + n, out + length;
    }
    Finished(c, i, end);
  }

  lemma Empty(r: Option<seq<Byte>>)
    ensures J.Prepend([], r) == r
  {
    match r
    case None =>
    case Some(t) => assert [] + t == t;
  }

  lemma Finished(c: seq<Byte>, i: nat, end: nat)
    requires end <= i && end < |c|
    ensures J.Unescape(c, i, end) == Some([])
  {}

  // ---- the parse buffer ----

  /** What array and object parsing have in common: items read so far go in front of the others. */
  function Behind<T>(items: seq<T>, r: J.Parsed<seq<T>>): J.Parsed<seq<T>> {
    match r
    case Fail => J.Fail
    case Ok(more, next) => J.Ok(items + more, next)
  }

  lemma BehindOne<T>(items: seq<T>, x: T, r: J.Parsed<seq<T>>)
    ensures Behind(items, Behind([x], r)) == Behind(items + [x], r)
  {
    match r
    case Fail =>
    case Ok(more, next) => assert items + ([x] + more) == items + [x] + more;
  }

  lemma BehindNone<T>(r: J.Parsed<seq<T>>)
    ensures Behind([], r) == r
  {
    match r
    case Fail =>
    case Ok(more, next) => assert [] + more == more;
  }

  class ParseBuffer {
    const content: seq<Byte>
    var offset: nat
    var depth: nat

    constructor (content: seq<Byte>)
      ensures this.content == content && offset == 0 && depth == 0
    {
      this.content := content;
      offset := 0;
      depth := 0;
    }

    /** buffer_skip_whitespace */
    method SkipWhitespace()
      modifies this`offset
      ensures offset == J.SkipWhite(content, old(offset))
    {
      if offset >= |content| {
        return;
      }
      while offset < |content| && content[offset] <= 32
        invariant offset <= |content| && J.SkipEnd(content, offset) == J.SkipEnd(content, old(offset))
      {
        offset := offset + 1;
      }
      if offset == |content| {
        offset := offset - 1;
      }
    }

    /** parse_string */
    method ParseString() returns (ok: bool, valuestring: seq<Byte>)
      requires offset < |content|
      modifies this`offset
      ensures var r := J.ParseString(content, old(offset));
              ok == r.Ok? && (ok ==> valuestring == r.item && offset == r.next)
    {
      hide J.Unescape;
      var start := offset + 1;
      if content[offset] != QUOTE {
        offset := start;
        return false, [];
      }
      var end, skippedBytes := start, 0;
      while end < |content| && content[end] != QUOTE
        invariant start <= end <= |content| && J.EndOfString(content, end) == J.EndOfString(content, start)
        invariant Lands(content, start, end) && skippedBytes == Escapes(content, start, end)
        modifies {}
      {
        LandsNext(content, start, end);
        if content[end] == BACKSLASH {
          if end + 1 >= |content| {
            return false, [];
          }
          skippedBytes := skippedBytes + 1;
          end := end + 1;
        }
        end := end + 1;
      }
      if end >= |content| {
        return false, [];
      }
      OutputFits(content, start, start, end);
      var output := new Byte[end - offset - skippedBytes + 1];
      var out;
      ok, out := UnescapeInto(content, start, end, output);
      if !ok {
        return false, [];
      }
      ghost var done := output[..out];
      output[out] := 0;
      assert output[..] == done + [0] + output[out + 1..];
      CStringUpTo(done, output[out + 1..]);
      valuestring := CString(output[..]);
      offset := end + 1;
    }

    /** parse_number, with strtod as a function. */
    method ParseNumber() returns (ok: bool, item: Value)
      requires offset < |content|
      modifies this`offset
      ensures var r := J.ParseNumber(content, old(offset));
              ok == r.Ok? && (ok ==> item == r.item && offset == r.next)
    {
      hide J.Strtod;
      var i := 0;
      while offset + i < |content| && J.NumberByte(content[offset + i])
        invariant offset + i <= |content| && J.NumberEnd(content, offset + i) == J.NumberEnd(content, offset)
        modifies {}
      {
        i := i + 1;
      }
      match J.Strtod(content[offset..offset + i])
      case None => return false, Null;
      case Some(x) =>
        var valueint := INT_MAX;
        if x.0 < INT_MAX as real {
          valueint := if x.0 <= INT_MIN as real then INT_MIN else if x.0 >= 0.0 then x.0.Floor else -(-x.0).Floor;
        }
        item := Number(x.0, valueint);
        offset := offset + x.1;
        return true, item;
    }

    method Literal(text: seq<Byte>) returns (found: bool)
      modifies this`offset
      ensures found == J.StartsWith(content, old(offset), text)
      ensures offset == if found then old(offset) + |text| else old(offset)
    {
      found := offset + |text| <= |content| && content[offset..offset + |text|] == text;
      if found {
        offset := offset + |text|;
      }
    }

    /** parse_value */
    method ParseValue() returns (ok: bool, item: Value)
      modifies this
      ensures var r := J.ParseValue(content, old(offset), old(depth));
              ok == r.Ok? && (ok ==> item == r.item && offset == r.next && depth == old(depth))
      decreases |content| - offset, 3
    {
      hide J.StartsWith, J.ParseArray, J.ParseObject, J.ParseString, J.ParseNumber;
      ok := Literal(NULL_TEXT);
      if ok {
        return true, Null;
      }
      ok := Literal(FALSE_TEXT);
      if ok {
        return true, False;
      }
      ok := Literal(TRUE_TEXT);
      if ok {
        return true, True;
      }
      if offset < |content| && content[offset] == QUOTE {
        var s;
        ok, s := ParseString();
        return ok, String(s);
      }
      if offset < |content| && (content[offset] == MINUS || 48 <= content[offset] <= 57) {
        ok, item := ParseNumber();
        return;
      }
      if offset < |content| && content[offset] == LBRACKET {
        ok, item := ParseArray();
        return;
      }
      if offset < |content| && content[offset] == LBRACE {
        ok, item := ParseObject();
        return;
      }
      return false, Null;
    }

    /** parse_array, at an opening bracket */
    method ParseArray() returns (ok: bool, item: Value)
      requires offset < |content| && content[offset] == LBRACKET
      modifies this
      ensures var r := J.ParseArray(content, old(offset), old(depth));
              ok == r.Ok? && (ok ==> item == r.item && offset == r.next && depth == old(depth))
      decreases |content| - offset, 2
    {
      hide J.ParseElements, J.SkipWhite;
      if depth >= J.CJSON_NESTING_LIMIT {
        return false, Null;
      }
      depth := depth + 1;
      offset := offset + 1;
      SkipWhitespace();
      if offset < |content| && content[offset] == RBRACKET {
        depth := depth - 1;
        offset := offset + 1;
        return true, Array([]);
      }
      if offset >= |content| {
        return false, Null;
      }
      offset := offset - 1;
      var items;
      ok, items := ParseElements();
      if !ok {
        return false, Null;
      }
      depth := depth - 1;
      return true, Array(items);
    }

    /** The loop of parse_array, and the closing bracket behind it. */
    method ParseElements() returns (ok: bool, items: seq<Value>)
      requires offset < |content|
      modifies this
      ensures var r := J.ParseElements(content, old(offset), old(depth));
              ok == r.Ok? && (ok ==> items == r.item && offset == r.next && depth == old(depth))
      decreases |content| - offset, 0
    {
      hide J.ParseElements, J.ParseValue, J.SkipWhite, Behind;
      ghost var whole := J.ParseElements(content, offset, depth);
      items := [];
      BehindNone(whole);
      var more := true;
      while more
        invariant old(offset) <= offset && depth == old(depth) && (more ==> offset < |content|)
        invariant more ==> whole == Behind(items, J.ParseElements(content, offset, depth))
        invariant !more && offset < |content| && content[offset] == RBRACKET ==> whole == J.Ok(items, offset + 1)
        invariant !more && !(offset < |content| && content[offset] == RBRACKET) ==> whole == J.Fail
        decreases |content| - offset, more
      {
        ElementsUnfold(content, offset, depth, items);
        offset := offset + 1;
        SkipWhitespace();
        var item;
        ok, item := ParseValue();
        if !ok {
          return false, [];
        }
        SkipWhitespace();
        items := items + [item];
        more := offset < |content| && content[offset] == COMMA;
      }
      if offset >= |content| || content[offset] != RBRACKET {
        return false, [];
      }
      offset := offset + 1;
      return true, items;
    }

    /** parse_object, at an opening brace */
    method ParseObject() returns (ok: bool, item: Value)
      requires offset < |content| && content[offset] == LBRACE
      modifies this
      ensures var r := J.ParseObject(content, old(offset), old(depth));
              ok == r.Ok? && (ok ==> item == r.item && offset == r.next && depth == old(depth))
      decreases |content| - offset, 2
    {
      hide J.ParseMembers, J.SkipWhite;
      if depth >= J.CJSON_NESTING_LIMIT {
        return false, Null;
      }
      depth := depth + 1;
      offset := offset + 1;
      SkipWhitespace();
      if offset < |content| && content[offset] == RBRACE {
        depth := depth - 1;
        offset := offset + 1;
        return true, Object([]);
      }
      if offset >= |content| {
        return false, Null;
      }
      offset := offset - 1;
      var members;
      ok, members := ParseMembers();
      if !ok {
        return false, Null;
      }
      depth := depth - 1;
      return true, Object(members);
    }

    /** One round of the loop of parse_object, without the white space behind the value. */
    method ParseMember() returns (ok: bool, member: Member)
      requires offset < |content|
      modifies this
      ensures var r := J.ParseMember(content, old(offset), old(depth));
              ok == r.Ok? && (ok ==> member == r.item && offset == r.next && depth == old(depth))
      decreases |content| - offset, 0
    {
      hide J.ParseString, J.ParseValue;
      member := Member([], Null);
      if offset + 1 >= |content| {
        return false, member;
      }
      offset := offset + 1;
      SkipWhitespace();
      var name;
      ok, name := ParseString();
      if !ok {
        return false, member;
      }
      SkipWhitespace();
      if offset >= |content| || content[offset] != COLON {
        return false, member;
      }
      offset := offset + 1;
      SkipWhitespace();
      var value;
      ok, value := ParseValue();
      return ok, Member(name, value);
    }

    /** The loop of parse_object, and the closing brace behind it. */
    method ParseMembers() returns (ok: bool, members: seq<Member>)
      requires offset < |content|
      modifies this
      ensures var r := J.ParseMembers(content, old(offset), old(depth));
              ok == r.Ok? && (ok ==> members == r.item && offset == r.next && depth == old(depth))
      decreases |content| - offset, 1
    {
      hide J.ParseMembers, J.ParseMember, J.SkipWhite, Behind;
      ghost var whole := J.ParseMembers(content, offset, depth);
      members := [];
      BehindNone(whole);
      var more := true;
      while more
        invariant old(offset) <= offset && depth == old(depth) && (more ==> offset < |content|)
        invariant more ==> whole == Behind(members, J.ParseMembers(content, offset, depth))
        invariant !more && offset < |content| && content[offset] == RBRACE ==> whole == J.Ok(members, offset + 1)
        invariant !more && !(offset < |content| && content[offset] == RBRACE) ==> whole == J.Fail
        decreases |content| - offset, more
      {
        MembersUnfold(content, offset, depth, members);
        var member;
        ok, member := ParseMember();
        if !ok {
          return false, [];
        }
        SkipWhitespace();
        members := members + [member];
        more := offset < |content| && content[offset] == COMMA;
      }
      if offset >= |content| || content[offset] != RBRACE {
        return false, [];
      }
      offset := offset + 1;
      return true, members;
    }
  }

  lemma ElementsUnfold(c: seq<Byte>, o: nat, depth: nat, items: seq<Value>)
    requires o < |c|
    ensures var whole := Behind(items, J.ParseElements(c, o, depth));
            match J.ParseValue(c, J.SkipWhite(c, o + 1), depth)
            case Fail => whole == J.Fail
            case Ok(v, next) =>
              var q := J.SkipWhite(c, next);
              if q < |c| && c[q] == COMMA then whole == Behind(items + [v], J.ParseElements(c, q, depth))
              else if q < |c| && c[q] == RBRACKET then whole == J.Ok(items + [v], q + 1)
              else whole == J.Fail
  {
    hide J.ParseValue, J.SkipWhite;
    match J.ParseValue(c, J.SkipWhite(c, o + 1), depth)
    case Fail =>
    case Ok(v, next) =>
      var q := J.SkipWhite(c, next);
      if q < |c| && c[q] == COMMA {
        BehindOne(items, v, J.ParseElements(c, q, depth));
      }
  }

  lemma MembersUnfold(c: seq<Byte>, o: nat, depth: nat, members: seq<Member>)
    requires o < |c|
    ensures var whole := Behind(members, J.ParseMembers(c, o, depth));
            match J.ParseMember(c, o, depth)
            case Fail => whole == J.Fail
            case Ok(m, next) =>
              var q := J.SkipWhite(c, next);
              if q < |c| && c[q] == COMMA then whole == Behind(members + [m], J.ParseMembers(c, q, depth))
              else if q < |c| && c[q] == RBRACE then whole == J.Ok(members + [m], q + 1)
              else whole == J.Fail
  {
    hide J.ParseMember, J.SkipWhite;
    match J.ParseMember(c, o, depth)
    case Fail =>
    case Ok(m, next) =>
      var q := J.SkipWhite(c, next);
      if q < |c| && c[q] == COMMA {
        BehindOne(members, m, J.ParseMembers(c, q, depth));
      }
  }

  /** cJSON_ParseWithLengthOpts: the item and the offset at which parsing ended. */
  method ParseWithLengthOpts(value: seq<Byte>, requireNullTerminated: bool) returns (ok: bool, item: Value, end: nat)
    ensures var r := J.Parse(value, requireNullTerminated);
            ok == r.Ok? && (ok ==> item == r.item && end == r.next)
  {
    hide J.ParseValue, J.SkipWhite;
    item, end := Null, 0;
    if |value| == 0 {
      return false, item, end;
    }
    var buffer := new ParseBuffer(value);
    if 4 < |value| && value[..3] == [0xEF, 0xBB, 0xBF] {
      buffer.offset := 3;
    }
    buffer.SkipWhitespace();
    ok, item := buffer.ParseValue();
    if !ok {
      return;
    }
    if requireNullTerminated {
      buffer.SkipWhitespace();
      if buffer.offset >= |value| || value[buffer.offset] != 0 {
        return false, item, end;
      }
    }
    end := buffer.offset;
  }
}
