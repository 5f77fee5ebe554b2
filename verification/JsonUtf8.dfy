/** Well-formed UTF-8 (RFC 3629), which RFC 8259, section 8.1, asks of a JSON text, and the strings whose printed
    text is well-formed. */
module JsonUtf8 {
  import opened Bytes
  import opened JsonText
  import opened JsonPrint

  /** UTF8-tail of RFC 3629, section 4. */
  predicate Tail(s: seq<Byte>, i: nat) { i < |s| && 0x80 <= s[i] <= 0xBF }

  /** How many octets the character in front has, after the syntax in section 4 of RFC 3629, or 0 for none. */
  function Utf8Size(s: seq<Byte>): (n: nat)
    ensures n <= |s| && n <= 4
  {
    if s == [] then 0
    else if s[0] < 0x80 then 1
    else if 0xC2 <= s[0] <= 0xDF && Tail(s, 1) then 2
    else if 0xE0 <= s[0] <= 0xEF && Tail(s, 1) && Tail(s, 2)
            && (s[0] == 0xE0 ==> s[1] >= 0xA0) && (s[0] == 0xED ==> s[1] <= 0x9F) then 3
    else if 0xF0 <= s[0] <= 0xF4 && Tail(s, 1) && Tail(s, 2) && Tail(s, 3)
            && (s[0] == 0xF0 ==> s[1] >= 0x90) && (s[0] == 0xF4 ==> s[1] <= 0x8F) then 4
    else 0
  }

  predicate Utf8Text(s: seq<Byte>) {
    s == [] || (Utf8Size(s) > 0 && Utf8Text(s[Utf8Size(s)..]))
  }

  // ---- it is the encoding of a sequence of characters ----

  /** A code point that is no half of a surrogate pair. */
  predicate Character(c: int) { 0 <= c <= 0x10FFFF && !Surrogate(c) }

  function Encoded(cs: seq<int>): seq<Byte>
    requires forall c | c in cs :: Character(c)
  {
    if cs == [] then []
    else
      assert Character(cs[0]);
      Utf8(cs[0]) + Encoded(cs[1..])
  }

  lemma EncodedSize(c: int, rest: seq<Byte>)
    requires Character(c)
    ensures Utf8Size(Utf8(c) + rest) == |Utf8(c)|
  {
    var s := Utf8(c) + rest;
    assert forall i | 0 <= i < |Utf8(c)| :: s[i] == Utf8(c)[i];
  }

  /** The character in front. */
  function First(s: seq<Byte>): (c: int)
    requires Utf8Size(s) > 0
    ensures Character(c)
  {
    var n := Utf8Size(s);
    if n == 1 then s[0]
    else if n == 2 then Joint(s[0] - 0xC0, s[1])
    else if n == 3 then Joint(Joint(s[0] - 0xE0, s[1]), s[2])
    else Joint(Joint(Joint(s[0] - 0xF0, s[1]), s[2]), s[3])
  }

  /** The bits of a tail behind those in front of it. */
  function Joint(c: int, tail: Byte): int { c * 64 + (tail as int - 0x80) }

  lemma JointParts(c: int, tail: Byte)
    requires 0x80 <= tail <= 0xBF
    ensures Joint(c, tail) / 64 == c && Joint(c, tail) % 64 == tail - 0x80
  {}

  lemma FirstEncoded(s: seq<Byte>)
    requires Utf8Size(s) > 0
    ensures Utf8(First(s)) == s[..Utf8Size(s)]
  {
    hide Joint;
    var n := Utf8Size(s);
    if n == 2 {
      JointParts(s[0] - 0xC0, s[1]);
    } else if n == 3 {
      JointParts(s[0] - 0xE0, s[1]);
      JointParts(Joint(s[0] - 0xE0, s[1]), s[2]);
    } else if n == 4 {
      var c := Joint(s[0] - 0xF0, s[1]);
      JointParts(s[0] - 0xF0, s[1]);
      JointParts(c, s[2]);
      JointParts(Joint(c, s[2]), s[3]);
    }
  }

  /** Text is well formed exactly if it encodes some sequence of characters. */
  lemma Utf8TextIff(s: seq<Byte>)
    ensures Utf8Text(s) <==> exists cs: seq<int> :: (forall c | c in cs :: Character(c)) && s == Encoded(cs)
  {
    if Utf8Text(s) {
      var cs := Characters(s);
    }
    if cs: seq<int> :| (forall c | c in cs :: Character(c)) && s == Encoded(cs) {
      EncodedText(cs);
    }
  }

  lemma {:induction false} Characters(s: seq<Byte>) returns (cs: seq<int>)
    requires Utf8Text(s)
    ensures (forall c | c in cs :: Character(c)) && s == Encoded(cs)
    decreases |s|
  {
    hide Character, Utf8Size, First, Utf8;
    if s == [] {
      cs := [];
    } else {
      FirstEncoded(s);
      var rest := Characters(s[Utf8Size(s)..]);
      cs := [First(s)] + rest;
      assert cs[1..] == rest;
    }
  }

  lemma {:induction false} EncodedText(cs: seq<int>)
    requires forall c | c in cs :: Character(c)
    ensures Utf8Text(Encoded(cs))
    decreases |cs|
  {
    hide Character, Utf8Size, Utf8;
    if cs != [] {
      EncodedSize(cs[0], Encoded(cs[1..]));
      EncodedText(cs[1..]);
    }
  }

  // ---- joining texts ----

  predicate Ascii(s: seq<Byte>) { forall i | 0 <= i < |s| :: s[i] < 0x80 }

  lemma {:induction false} AsciiBefore(e: seq<Byte>, b: seq<Byte>)
    requires Ascii(e)
    ensures Utf8Text(e + b) <==> Utf8Text(b)
    decreases |e|
  {
    if e == [] {
      assert e + b == b;
    } else {
      AsciiBefore(e[1..], b);
      assert (e + b)[1..] == e[1..] + b;
      assert (e + b)[0] == e[0];
    }
  }

  lemma AsciiText(e: seq<Byte>)
    requires Ascii(e)
    ensures Utf8Text(e)
  {
    AsciiBefore(e, []);
    assert e + [] == e;
  }

  lemma SizeKept(a: seq<Byte>, b: seq<Byte>)
    requires a != [] && (b == [] || b[0] < 0x80)
    ensures Utf8Size(a + b) == Utf8Size(a)
  {
    var s := a + b;
    assert forall i | 0 <= i < |a| :: s[i] == a[i];
    assert b != [] ==> s[|a|] == b[0];
  }

  /** No character goes over a place in front of an ASCII character. */
  lemma {:induction false} Utf8Joined(a: seq<Byte>, b: seq<Byte>)
    requires b == [] || b[0] < 0x80
    ensures Utf8Text(a + b) <==> Utf8Text(a) && Utf8Text(b)
    decreases |a|
  {
    hide Utf8Size;
    if a == [] {
      assert a + b == b;
    } else {
      SizeKept(a, b);
      var n := Utf8Size(a);
      if n > 0 {
        Utf8Joined(a[n..], b);
        assert (a + b)[n..] == a[n..] + b;
      }
    }
  }

  lemma Utf8Around(a: seq<Byte>, e: seq<Byte>, b: seq<Byte>)
    requires Ascii(e) && (e == [] ==> b == [])
    ensures Utf8Text(a + e + b) <==> Utf8Text(a) && Utf8Text(b)
  {
    assert e != [] ==> e[0] == (e + b)[0];
    assert a + e + b == a + (e + b);
    Utf8Joined(a, e + b);
    AsciiBefore(e, b);
  }

  // ---- printed text ----

  lemma PieceWritten(b: Byte)
    requires b != 0
    ensures b < 0x80 ==> Ascii(RenderPiece(PieceOf(b)))
    ensures b >= 0x80 ==> RenderPiece(PieceOf(b)) == [b]
  {}

  /** How many bytes from 128 up stand in front. */
  function Run(s: seq<Byte>): (k: nat)
    ensures k <= |s| && (forall i | 0 <= i < k :: s[i] >= 0x80) && (k < |s| ==> s[k] < 0x80)
  {
    if s == [] || s[0] < 0x80 then 0
    else
      var k := Run(s[1..]);
      assert forall i | 1 <= i <= k :: s[i] == s[1..][i - 1];
      k + 1
  }

  function Written(s: seq<Byte>): seq<Byte>
    requires NulFree(s)
  {
    RenderPieces(PiecesOf(s))
  }

  lemma WrittenStep(s: seq<Byte>)
    requires NulFree(s) && s != []
    ensures NulFree(s[1..]) && Written(s) == RenderPiece(PieceOf(s[0])) + Written(s[1..])
  {
    hide RenderPiece, PieceOf;
    assert PiecesOf(s)[1..] == PiecesOf(s[1..]);
  }

  /** Bytes from 128 up are written as they are. */
  lemma {:induction false} RunWritten(s: seq<Byte>, k: nat)
    requires NulFree(s) && k <= |s| && forall i | 0 <= i < k :: s[i] >= 0x80
    ensures NulFree(s[k..]) && Written(s) == s[..k] + Written(s[k..])
    decreases k
  {
    hide RenderPiece, PieceOf, Written;
    if k == 0 {
      assert s[0..] == s;
    } else {
      WrittenStep(s);
      PieceWritten(s[0]);
      RunWritten(s[1..], k - 1);
      assert s[1..][k - 1..] == s[k..];
      assert [s[0]] + s[1..][..k - 1] == s[..k];
    }
  }

  lemma WrittenFirst(s: seq<Byte>)
    requires NulFree(s) && (s == [] || s[0] < 0x80)
    ensures Written(s) == [] || Written(s)[0] < 0x80
  {
    if s != [] {
      WrittenStep(s);
      PieceWritten(s[0]);
    }
  }

  /** A printed string is well-formed exactly if the string is. */
  lemma {:induction false} WrittenUtf8(s: seq<Byte>)
    requires NulFree(s)
    ensures Utf8Text(Written(s)) <==> Utf8Text(s)
    decreases |s|
  {
    hide RenderPiece, PieceOf, Written, Ascii, Run, Utf8Size;
    if s == [] {
      NothingWritten();
    } else if s[0] < 0x80 {
      WrittenStep(s);
      PieceWritten(s[0]);
      AsciiBefore(RenderPiece(PieceOf(s[0])), Written(s[1..]));
      OneAscii(s);
      WrittenUtf8(s[1..]);
    } else {
      var k := Run(s);
      RunWritten(s, k);
      WrittenFirst(s[k..]);
      Utf8Joined(s[..k], Written(s[k..]));
      Utf8Joined(s[..k], s[k..]);
      assert s[..k] + s[k..] == s;
      WrittenUtf8(s[k..]);
    }
  }

  lemma NothingWritten()
    ensures Written([]) == []
  {}

  lemma OneAscii(s: seq<Byte>)
    requires s != [] && s[0] < 0x80
    ensures Utf8Text(s) <==> Utf8Text(s[1..])
  {}

  lemma StringUtf8(s: seq<Byte>)
    requires NulFree(s)
    ensures Utf8Text(StringText(s)) <==> Utf8Text(s)
  {
    hide Utf8Text;
    var q: seq<Byte> := [QUOTE];
    WrittenUtf8(s);
    Utf8Around(q + Written(s), q, []);
    AsciiBefore(q, Written(s));
    AsciiText([]);
    assert StringText(s) == q + Written(s) + q + [];
  }

  /** Every string and name is well-formed. */
  predicate StringsUtf8(v: Value) {
    match v
    case String(s) => Utf8Text(s)
    case Array(items) => forall x | x in items :: StringsUtf8(x)
    case Object(members) => forall m | m in members :: Utf8Text(m.name) && StringsUtf8(m.value)
    case _ => true
  }

  /** The printed text of a value is UTF-8 exactly if every string and name in it is. */
  lemma {:induction false} TextUtf8(v: Value, fmt: bool, depth: nat)
    requires Printable(v)
    ensures Utf8Text(Text(v, fmt, depth)) <==> StringsUtf8(v)
    decreases v, 1
  {
    hide Utf8Text, ItemsText, MembersText, Decimal, StringText;
    match v
    case Number(_, i) =>
      NumberAscii(i);
      AsciiText(NumberText(i));
    case String(s) => StringUtf8(s);
    case Array(items) =>
      ItemsUtf8(items, fmt, depth + 1);
      Enclosed([LBRACKET], ItemsText(items, fmt, depth + 1), [RBRACKET]);
    case Object(members) =>
      MembersUtf8(members, fmt, depth + 1);
      Enclosed(OpenBrace(fmt), MembersText(members, fmt, depth + 1), Closing(fmt, depth));
    case _ => AsciiText(Text(v, fmt, depth));
  }

  lemma Enclosed(open: seq<Byte>, t: seq<Byte>, close: seq<Byte>)
    requires Ascii(open) && Ascii(close)
    ensures Utf8Text(open + t + close) <==> Utf8Text(t)
  {
    hide Utf8Text;
    Utf8Around(open + t, close, []);
    AsciiBefore(open, t);
    AsciiText([]);
    assert open + t + close + [] == open + t + close;
  }

  lemma NumberAscii(i: int)
    ensures Ascii(NumberText(i))
  {
    var d := Decimal(if i < 0 then 0 - i else i);
    assert forall k | 0 <= k < |d| :: Digit(d[k]);
  }

  lemma {:induction false} ItemsUtf8(items: seq<Value>, fmt: bool, depth: nat)
    requires forall x | x in items :: Printable(x)
    ensures Utf8Text(ItemsText(items, fmt, depth)) <==> forall x | x in items :: StringsUtf8(x)
    decreases items, 0
  {
    hide Utf8Text, Text, StringsUtf8, Printable;
    if items == [] {
      AsciiText([]);
    } else {
      TextUtf8(items[0], fmt, depth);
      assert items == [items[0]] + items[1..];
      if |items| > 1 {
        ItemsUtf8(items[1..], fmt, depth);
        Utf8Around(Text(items[0], fmt, depth), ItemSeparator(fmt), ItemsText(items[1..], fmt, depth));
      }
    }
  }

  lemma {:induction false} MembersUtf8(ms: seq<Member>, fmt: bool, depth: nat)
    requires forall m | m in ms :: NulFree(m.name) && Printable(m.value)
    ensures Utf8Text(MembersText(ms, fmt, depth))
       <==> forall m | m in ms :: Utf8Text(m.name) && StringsUtf8(m.value)
    decreases ms, 0
  {
    hide Utf8Text, Text, StringsUtf8, Printable, NulFree, MemberText;
    if ms == [] {
      AsciiText([]);
    } else {
      TextUtf8(ms[0].value, fmt, depth);
      MembersUtf8(ms[1..], fmt, depth);
      MemberUtf8(ms[0], fmt, depth, |ms| == 1, MembersText(ms[1..], fmt, depth));
      assert ms == [ms[0]] + ms[1..];
    }
  }

  lemma MemberUtf8(m: Member, fmt: bool, depth: nat, last: bool, rest: seq<Byte>)
    requires NulFree(m.name) && Printable(m.value) && (last ==> rest == [])
    ensures Utf8Text(MemberText(m, fmt, depth, last) + rest)
       <==> Utf8Text(m.name) && Utf8Text(Text(m.value, fmt, depth)) && Utf8Text(rest)
  {
    hide Utf8Text, Text, Printable, StringText;
    var s, t, w := StringText(m.name), Text(m.value, fmt, depth), Indent(fmt, depth);
    StringUtf8(m.name);
    AsciiBefore(w, s);
    Utf8Around(w + s, Colon(fmt), t);
    Utf8Around(w + s + Colon(fmt) + t, MemberEnd(fmt, last), rest);
  }
}
