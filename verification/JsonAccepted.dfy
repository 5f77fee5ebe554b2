/** The parser accepts nothing but the texts of the syntax trees that it takes: whatever it reads, a tree
    with that text and that meaning is there. Together with the reading of every such text this says
    exactly what cJSON_ParseWithOpts accepts, when it asks for the terminator and, as cJSON_Parse does, when
    it does not. */
module JsonAccepted {
  import opened Wrappers
  import opened Bytes
  import opened JsonText
  import opened JsonParse
  import opened JsonComplete

  lemma Join(c: seq<Byte>, o: nat, a: seq<Byte>, b: seq<Byte>)
    requires StartsWith(c, o, a) && StartsWith(c, o + |a|, b)
    ensures StartsWith(c, o, a + b)
  {
    assert c[o..o + |a + b|] == c[o..o + |a|] + c[o + |a|..o + |a| + |b|];
  }

  lemma HasByte(c: seq<Byte>, o: nat, b: Byte)
    requires o < |c| && c[o] == b
    ensures StartsWith(c, o, [b])
  {}

  // ---- strings ----

  lemma {:induction false} ClosedUpTo(c: seq<Byte>, p: nat)
    requires EndOfString(c, p).Some?
    ensures Closed(c[p..EndOfString(c, p).value])
    decreases |c| - p
  {
    var e := EndOfString(c, p).value;
    if c[p] != QUOTE {
      var n := if c[p] == BACKSLASH then 2 else 1;
      ClosedUpTo(c, p + n);
      assert c[p..e][n..] == c[p + n..e];
    }
  }

  /** The piece at p, and what the second pass makes of it. */
  lemma PieceAccepted(c: seq<Byte>, p: nat, e: nat) returns (x: Piece)
    requires p < e < |c| && c[e] == QUOTE && Unescape(c, p, e).Some?
    ensures PieceTaken(x) && (x.Cut? ==> p + 1 == e) && StartsWith(c, p, RenderPiece(x)) && p + |RenderPiece(x)| <= e
    ensures var r := Unescape(c, p + |RenderPiece(x)|, e);
            if x.Cut? then Unescape(c, p, e).value == [QUOTE]
            else r.Some? && Unescape(c, p, e).value == PieceMeaning(x) + r.value
  {
    hide Utf8;
    if c[p] != BACKSLASH {
      x := Plain(c[p]);
    } else if c[p + 1] == LOWER_U {
      x := EscapeAccepted(c, p, e);
    } else if p + 1 == e {
      x := Cut;
      CutRead(c, p);
    } else {
      x := Short(c[p + 1]);
    }
  }

  lemma EscapeAccepted(c: seq<Byte>, p: nat, e: nat) returns (x: Piece)
    requires p < e < |c| && c[p] == BACKSLASH && c[p + 1] == LOWER_U && Utf16Literal(c, p, e).Some?
    ensures PieceTaken(x) && !x.Cut? && StartsWith(c, p, RenderPiece(x)) && p + |RenderPiece(x)| <= e
    ensures Utf16Literal(c, p, e) == Some(Escape(PieceMeaning(x), |RenderPiece(x)|))
  {
    hide *;
    EscapeKinds(c, p, e);
    var h := HexAt(c, p + 2);
    if HighSurrogate(ParseHex4(c, p + 2)) {
      var l := HexAt(c, p + 8);
      x := Pair(h, l);
      PairAt(c, p, h, l);
      PairRead(c, p, e, h, l);
    } else {
      x := Unit(h);
      UnitAt(c, p, h);
      UnitRead(c, p, e, h);
    }
  }

  lemma EscapeKinds(c: seq<Byte>, p: nat, e: nat)
    requires p < e < |c| && Utf16Literal(c, p, e).Some?
    ensures p + 6 <= e && !LowSurrogate(ParseHex4(c, p + 2))
    ensures HighSurrogate(ParseHex4(c, p + 2))
        ==> p + 12 <= e && c[p + 6] == BACKSLASH && c[p + 7] == LOWER_U && LowSurrogate(ParseHex4(c, p + 8))
  {
    hide ParseHex4, Utf8;
  }

  lemma HexAt(c: seq<Byte>, p: nat) returns (h: Hex4)
    requires p + 4 <= |c|
    ensures StartsWith(c, p, h.Text()) && ParseHex4(c, p) == h.Read()
  {
    h := Hex4(c[p], c[p + 1], c[p + 2], c[p + 3]);
  }

  lemma UnitAt(c: seq<Byte>, p: nat, h: Hex4)
    requires p + 6 <= |c| && c[p] == BACKSLASH && c[p + 1] == LOWER_U && StartsWith(c, p + 2, h.Text())
    ensures StartsWith(c, p, RenderPiece(Unit(h))) && |RenderPiece(Unit(h))| == 6
    ensures !HighSurrogate(h.Read()) && !LowSurrogate(h.Read()) ==> PieceTaken(Unit(h))
  {
    hide HighSurrogate, LowSurrogate, Hex4.Read;
    var u := [BACKSLASH, LOWER_U];
    assert c[p..p + 2] == u;
    Join(c, p, u, h.Text());
  }

  lemma PairText(h: Hex4, l: Hex4)
    ensures RenderPiece(Pair(h, l)) == RenderPiece(Unit(h)) + RenderPiece(Unit(l)) && |RenderPiece(Pair(h, l))| == 12
    ensures HighSurrogate(h.Read()) && LowSurrogate(l.Read()) ==> PieceTaken(Pair(h, l))
  {
    hide HighSurrogate, LowSurrogate, Hex4.Read;
    var u := [BACKSLASH, LOWER_U];
    Assoc3(u + h.Text(), u, l.Text());
  }

  lemma PairAt(c: seq<Byte>, p: nat, h: Hex4, l: Hex4)
    requires p + 12 <= |c| && c[p] == BACKSLASH && c[p + 1] == LOWER_U && StartsWith(c, p + 2, h.Text())
    requires c[p + 6] == BACKSLASH && c[p + 7] == LOWER_U && StartsWith(c, p + 8, l.Text())
    ensures StartsWith(c, p, RenderPiece(Pair(h, l))) && |RenderPiece(Pair(h, l))| == 12
    ensures HighSurrogate(h.Read()) && LowSurrogate(l.Read()) ==> PieceTaken(Pair(h, l))
  {
    hide *;
    UnitAt(c, p, h);
    UnitAt(c, p + 6, l);
    PairText(h, l);
    Join(c, p, RenderPiece(Unit(h)), RenderPiece(Unit(l)));
  }

  lemma {:induction false} PiecesAccepted(c: seq<Byte>, p: nat, e: nat) returns (ps: seq<Piece>)
    requires p <= e < |c| && c[e] == QUOTE && Unescape(c, p, e).Some?
    ensures PiecesTaken(ps) && StartsWith(c, p, RenderPieces(ps)) && p + |RenderPieces(ps)| == e
    ensures PiecesMeaning(ps) == Unescape(c, p, e).value
    decreases e - p
  {
    hide StartsWith, PieceTaken, PieceMeaning, RenderPiece, Unescape;
    if p == e {
      ps := [];
      NoPiece(c, p);
      EmptyAt(c, p);
    } else {
      var x := PieceAccepted(c, p, e);
      if x.Cut? {
        ps := [x];
        CutLast(ps);
        var b: seq<Byte> := [BACKSLASH];
        assert RenderPieces(ps) == b + [] == b;
      } else {
        var rest := PiecesAccepted(c, p + |RenderPiece(x)|, e);
        ps := [x] + rest;
        assert ps[1..] == rest;
        Join(c, p, RenderPiece(x), RenderPieces(rest));
      }
    }
  }

  lemma EmptyAt(c: seq<Byte>, p: nat)
    requires p <= |c|
    ensures StartsWith(c, p, [])
  {}

  lemma StringAccepted(c: seq<Byte>, o: nat) returns (ps: seq<Piece>)
    requires o < |c| && ParseString(c, o).Ok?
    ensures StringTaken(ps) && StartsWith(c, o, RenderString(ps))
    ensures ParseString(c, o) == Ok(CString(PiecesMeaning(ps)), o + |RenderString(ps)|)
  {
    hide PiecesTaken, Closed, PiecesMeaning, RenderPieces, CString, Unescape;
    var e := EndOfString(c, o + 1).value;
    ps := PiecesAccepted(c, o + 1, e);
    ClosedUpTo(c, o + 1);
    var t := RenderPieces(ps);
    assert c[o + 1..e] == t;
    HasByte(c, o, QUOTE);
    HasByte(c, e, QUOTE);
    Join(c, o, [QUOTE], t);
    Join(c, o, [QUOTE] + t, [QUOTE]);
  }

  // ---- numbers ----

  lemma {:induction false} BehindDigits(s: seq<Byte>, i: nat)
    requires i <= |s|
    ensures var j := DigitsEnd(s, i); j < |s| ==> !Digit(s[j])
    decreases |s| - i
  {
    if i < |s| && Digit(s[i]) {
      BehindDigits(s, i + 1);
    }
  }

  lemma {:induction false} BehindNumber(c: seq<Byte>, o: nat)
    requires o <= |c|
    ensures var q := NumberEnd(c, o); q < |c| ==> !NumberByte(c[q])
    decreases |c| - o
  {
    if o < |c| && NumberByte(c[o]) {
      BehindNumber(c, o + 1);
    }
  }

  /** The digits at i, and that they do not go on. */
  lemma DigitsAt(s: seq<Byte>, i: nat) returns (d: seq<Byte>)
    requires i <= |s|
    ensures AllDigits(d) && StartsWith(s, i, d) && DigitsEnd(s, i) == i + |d| && d == s[i..i + |d|]
    ensures i + |d| < |s| ==> !Digit(s[i + |d|])
  {
    BehindDigits(s, i);
    d := s[i..DigitsEnd(s, i)];
    forall k | 0 <= k < |d| ensures Digit(d[k]) {
      assert d[k] == s[i + k];
    }
  }

  lemma ExponentParts(s: seq<Byte>, i: nat)
    requires i <= |s| && ExponentIn(s, i).Some?
    ensures var x := ExponentIn(s, i).value; var k := i + 1 + |x.sign|;
            && i + 1 <= k <= |s| && s[i] == x.mark && ExponentMark(x.mark)
            && (x.sign == [] || x.sign == [PLUS] || x.sign == [MINUS]) && (x.sign != [] ==> s[i + 1] == x.sign[0])
            && x.digits != [] && x.digits == s[k..DigitsEnd(s, k)]
  {
    hide DigitsEnd;
  }

  lemma NoneExponent(s: seq<Byte>, i: nat)
    requires i <= |s| && ExponentIn(s, i).None?
    ensures !ExponentAt(s, i)
  {
    if i < |s| && ExponentMark(s[i]) {
      var k := if i + 1 < |s| && (s[i + 1] == PLUS || s[i + 1] == MINUS) then i + 2 else i + 1;
      NoDigits(s, k);
      hide DigitsEnd;
    }
  }

  lemma NoDigits(s: seq<Byte>, k: nat)
    requires k <= |s| && DigitsEnd(s, k) == k
    ensures k < |s| ==> !Digit(s[k])
  {}

  lemma ExponentAccepted(s: seq<Byte>, i: nat)
    requires i <= |s|
    ensures var e := ExponentIn(s, i);
            && (e.Some? ==> ExponentOk(e.value)) && StartsWith(s, i, ExponentText(e))
            && var q := i + |ExponentText(e)|; if e.None? then !ExponentAt(s, i) else q < |s| ==> !Digit(s[q])
  {
    hide *;
    var e := ExponentIn(s, i);
    if e.Some? {
      var x := e.value;
      ExponentParts(s, i);
      var d := DigitsAt(s, i + 1 + |x.sign|);
      ExponentJoined(s, i, x, d);
    } else {
      NoneExponent(s, i);
      EmptyAt(s, i);
      NoExponentText();
    }
  }

  lemma NoExponentText()
    ensures ExponentText(None) == []
  {}

  lemma ExponentJoined(s: seq<Byte>, i: nat, x: Exponent, d: seq<Byte>)
    requires i < |s| && s[i] == x.mark && ExponentMark(x.mark)
    requires x.sign == [] || x.sign == [PLUS] || x.sign == [MINUS]
    requires i + 1 + |x.sign| <= |s| && (x.sign != [] ==> s[i + 1] == x.sign[0])
    requires d == x.digits != [] && AllDigits(d) && StartsWith(s, i + 1 + |x.sign|, d)
    ensures ExponentOk(x) && StartsWith(s, i, ExponentText(Some(x)))
    ensures |ExponentText(Some(x))| == 1 + |x.sign| + |d|
  {
    hide StartsWith, AllDigits, ExponentMark;
    HasByte(s, i, x.mark);
    if x.sign == [] {
      EmptyAt(s, i + 1);
    } else {
      HasByte(s, i + 1, x.sign[0]);
    }
    Join(s, i, [x.mark], x.sign);
    Join(s, i, [x.mark] + x.sign, d);
  }

  lemma NumeralPlaces(s: seq<Byte>, i: nat, negative: bool)
    requires i <= |s| && NumeralIn(s, i, negative).Some?
    ensures var n := NumeralIn(s, i, negative).value; var point := DigitsEnd(s, i);
            && n.negative == negative && n.digits == s[i..point]
            && (n.fraction.Some? <==> point < |s| && s[point] == POINT)
            && (n.fraction.None? ==> n.digits != [] && n.exponent == ExponentIn(s, point))
            && (n.fraction.Some? ==> var end := DigitsEnd(s, point + 1);
                  && n.fraction.value == s[point + 1..end] && n.exponent == ExponentIn(s, end)
                  && (n.digits != [] || n.fraction.value != []))
  {
    hide DigitsEnd, ExponentIn;
  }

  /** What strtod finds at i is written there and does not go on. */
  lemma NumeralAccepted(s: seq<Byte>, i: nat, negative: bool)
    requires i <= |s| && NumeralIn(s, i, negative).Some? && (negative || i == |s| || Digit(s[i]))
    ensures var n := NumeralIn(s, i, negative).value; var t := RenderNumeral(n.(negative := false));
            n.negative == negative && NumeralTaken(n) && StartsWith(s, i, t) && NumeralEnds(s, i + |t|, n)
  {
    hide *;
    var n := NumeralIn(s, i, negative).value;
    NumeralPlaces(s, i, negative);
    var d := DigitsAt(s, i);
    var point := i + |d|;
    if n.fraction.None? {
      ExponentAccepted(s, point);
      WithoutFraction(n);
      NumeralJoined(s, i, n, point);
      IntegerAccepted(s, point, n);
    } else {
      var f := DigitsAt(s, point + 1);
      HasByte(s, point, POINT);
      Join(s, point, [POINT], f);
      Join(s, i, d, [POINT] + f);
      DigitsBegin(s, i, d, negative);
      FractionShape(n);
      ExponentAccepted(s, point + 1 + |f|);
      NumeralJoined(s, i, n, point + 1 + |f|);
      FractionAccepted(s, point + 1 + |f|, n);
    }
  }

  lemma WithoutFraction(n: Numeral)
    requires n.fraction.None?
    ensures n.digits + FractionText(n.fraction) == n.digits && |FractionText(n.fraction)| == 0
  {}

  lemma FractionShape(n: Numeral)
    requires n.fraction.Some?
    ensures FractionText(n.fraction) == [POINT] + n.fraction.value
  {}

  /** Without a minus sign a number begins with a digit. */
  lemma DigitsBegin(s: seq<Byte>, i: nat, d: seq<Byte>, negative: bool)
    requires i < |s| && (negative || Digit(s[i])) && (i + |d| < |s| ==> !Digit(s[i + |d|]))
    ensures !negative ==> d != []
  {}

  lemma IntegerAccepted(s: seq<Byte>, point: nat, n: Numeral)
    requires n.fraction.None? && n.digits != [] && AllDigits(n.digits) && point <= |s|
    requires point < |s| ==> !Digit(s[point]) && s[point] != POINT
    requires StartsWith(s, point, ExponentText(n.exponent)) && (n.exponent.Some? ==> ExponentOk(n.exponent.value))
    requires var q := point + |ExponentText(n.exponent)|;
             if n.exponent.None? then !ExponentAt(s, point) else q < |s| ==> !Digit(s[q])
    ensures NumeralTaken(n) && NumeralEnds(s, point + |ExponentText(n.exponent)|, n)
  {
    InBounds(s, point, ExponentText(n.exponent));
    hide StartsWith, ExponentAt, AllDigits, ExponentOk, Digit;
    assert n.exponent.None? ==> |ExponentText(n.exponent)| == 0;
  }

  lemma FractionAccepted(s: seq<Byte>, end: nat, n: Numeral)
    requires n.fraction.Some? && AllDigits(n.digits) && AllDigits(n.fraction.value) && end <= |s|
    requires n.digits != [] || (n.negative && n.fraction.value != [])
    requires end < |s| ==> !Digit(s[end])
    requires StartsWith(s, end, ExponentText(n.exponent)) && (n.exponent.Some? ==> ExponentOk(n.exponent.value))
    requires var q := end + |ExponentText(n.exponent)|;
             if n.exponent.None? then !ExponentAt(s, end) else q < |s| ==> !Digit(s[q])
    ensures NumeralTaken(n) && NumeralEnds(s, end + |ExponentText(n.exponent)|, n)
  {
    InBounds(s, end, ExponentText(n.exponent));
    hide StartsWith, ExponentAt, AllDigits, ExponentOk, Digit;
    assert n.exponent.None? ==> |ExponentText(n.exponent)| == 0;
  }

  lemma NumeralJoined(s: seq<Byte>, i: nat, n: Numeral, q: nat)
    requires StartsWith(s, i, n.digits + FractionText(n.fraction)) && StartsWith(s, q, ExponentText(n.exponent))
    requires q == i + |n.digits| + |FractionText(n.fraction)|
    ensures var t := RenderNumeral(n.(negative := false));
            StartsWith(s, i, t) && |t| == q - i + |ExponentText(n.exponent)|
  {
    hide StartsWith, ExponentText;
    var a := n.digits + FractionText(n.fraction);
    Join(s, i, a, ExponentText(n.exponent));
    assert RenderNumeral(n.(negative := false)) == a + ExponentText(n.exponent);
  }

  /** strtod on a text that begins with a minus sign or a digit. */
  lemma StrtodAccepted(s: seq<Byte>) returns (n: Numeral)
    requires Strtod(s).Some? && s != [] && (s[0] == MINUS || Digit(s[0]))
    ensures NumeralTaken(n)
    ensures var t := RenderNumeral(n);
            StartsWith(s, 0, t) && NumeralEnds(s, |t|, n) && Strtod(s) == Some((NumeralMeaning(n), |t|))
  {
    hide StartsWith, NumeralTaken, NumeralEnds, NumeralMeaning, NumeralIn;
    var neg := s[0] == MINUS;
    var start := if neg then 1 else 0;
    NumeralAccepted(s, start, neg);
    n := NumeralIn(s, start, neg).value;
    SignJoined(s, n);
  }

  lemma SignJoined(s: seq<Byte>, n: Numeral)
    requires s != [] && (n.negative <==> s[0] == MINUS)
    requires StartsWith(s, if n.negative then 1 else 0, RenderNumeral(n.(negative := false)))
    ensures StartsWith(s, 0, RenderNumeral(n))
    ensures |RenderNumeral(n)| == (if n.negative then 1 else 0) + |RenderNumeral(n.(negative := false))|
  {
    hide StartsWith, FractionText, ExponentText;
    var u := RenderNumeral(n.(negative := false));
    if n.negative {
      HasByte(s, 0, MINUS);
      Join(s, 0, [MINUS], u);
      assert RenderNumeral(n) == [MINUS] + u;
    } else {
      assert n.(negative := false) == n;
    }
  }

  lemma NumberAccepted(c: seq<Byte>, o: nat) returns (x: Syntax)
    requires o < |c| && (c[o] == MINUS || Digit(c[o])) && ParseNumber(c, o).Ok?
    ensures x.NumberS? && Taken(x) && StartsWith(c, o, Render(x)) && NumeralEnds(c, o + |Render(x)|, x.numeral)
    ensures ParseNumber(c, o) == Ok(Held(Denotes(x)), o + |Render(x)|)
  {
    hide *;
    var s := NumberSpan(c, o);
    var n := StrtodAccepted(s);
    x := NumberS(n);
    NumberShape(n);
    PrefixAt(c, o, s, RenderNumeral(n));
    EndsInside(c, o, s, |RenderNumeral(n)|, n);
    NumberRead(c, o, n);
  }

  lemma NumberShape(n: Numeral)
    ensures Render(NumberS(n)) == RenderNumeral(n) && (Taken(NumberS(n)) <==> NumeralTaken(n))
  {}

  /** The bytes that parse_number hands to strtod. */
  lemma NumberSpan(c: seq<Byte>, o: nat) returns (s: seq<Byte>)
    requires o < |c| && (c[o] == MINUS || Digit(c[o])) && ParseNumber(c, o).Ok?
    ensures s != [] && s[0] == c[o] && Strtod(s).Some? && StartsWith(c, o, s)
    ensures o + |s| < |c| ==> !NumberByte(c[o + |s|])
  {
    BehindNumber(c, o);
    var q := NumberEnd(c, o);
    s := c[o..q];
    assert q > o && s[0] == c[o];
    hide Strtod, NumberEnd;
  }

  lemma PrefixAt(c: seq<Byte>, o: nat, s: seq<Byte>, t: seq<Byte>)
    requires StartsWith(c, o, s) && StartsWith(s, 0, t)
    ensures StartsWith(c, o, t)
  {
    assert s == t + s[|t|..];
    Split(c, o, t, s[|t|..]);
  }

  /** A number that does not go on in s does not go on in c either, as s takes all bytes of numbers. */
  lemma EndsInside(c: seq<Byte>, o: nat, s: seq<Byte>, q: nat, n: Numeral)
    requires StartsWith(c, o, s) && NumeralEnds(s, q, n)
    requires o + |s| < |c| ==> !NumberByte(c[o + |s|])
    ensures NumeralEnds(c, o + q, n)
  {
    assert forall k | 0 <= k < |s| :: s[k] == c[o..o + |s|][k] == c[o + k];
  }

  // ---- white space ----

  /** White space is skipped up to p. */
  lemma WhiteAccepted(c: seq<Byte>, o: nat) returns (w: White)
    requires SkipWhite(c, o) < |c| && c[SkipWhite(c, o)] > 32
    ensures o < |c| && StartsWith(c, o, w) && SkipWhite(c, o) == o + |w|
  {
    w := c[o..SkipWhite(c, o)];
  }

  /** No value begins with white space. */
  lemma NoValueAtWhite(c: seq<Byte>, o: nat, depth: nat)
    requires o < |c| && c[o] <= 32
    ensures ParseValue(c, o, depth) == Fail && ParseString(c, o) == Fail
  {
    if StartsWith(c, o, NULL_TEXT) {
      ByteAt(c, o, NULL_TEXT, 0);
    }
    if StartsWith(c, o, FALSE_TEXT) {
      ByteAt(c, o, FALSE_TEXT, 0);
    }
    if StartsWith(c, o, TRUE_TEXT) {
      ByteAt(c, o, TRUE_TEXT, 0);
    }
  }

  lemma ValueWithin(c: seq<Byte>, o: nat, depth: nat)
    requires ParseValue(c, o, depth).Ok?
    ensures o < |c| && c[o] > 32
  {
    hide ParseString, ParseNumber, ParseArray, ParseObject;
    if o < |c| && c[o] <= 32 {
      NoValueAtWhite(c, o, depth);
    }
  }

  // ---- values ----

  /** A value read at o: the tree of its text. */
  ghost predicate ValueAt(c: seq<Byte>, o: nat, depth: nat, x: Syntax, q: nat) {
    && Taken(x) && StartsWith(c, o, Render(x)) && q == o + |Render(x)| && (x.NumberS? ==> NumeralEnds(c, q, x.numeral))
    && depth + Nesting(x) <= CJSON_NESTING_LIMIT
  }

  lemma {:induction false} ValueAccepted(c: seq<Byte>, o: nat, depth: nat) returns (x: Syntax)
    requires ParseValue(c, o, depth).Ok? && depth <= CJSON_NESTING_LIMIT
    ensures var r := ParseValue(c, o, depth); ValueAt(c, o, depth, x, r.next) && r.item == Held(Denotes(x))
    decreases |c| - o, 3
  {
    hide ParseString, ParseNumber, ParseArray, ParseObject, StartsWith, NumeralEnds, StringTaken, CString;
    if StartsWith(c, o, NULL_TEXT) {
      x := NullS;
    } else if StartsWith(c, o, FALSE_TEXT) {
      x := FalseS;
    } else if StartsWith(c, o, TRUE_TEXT) {
      x := TrueS;
    } else if c[o] == QUOTE {
      hide RenderString, PiecesMeaning;
      var ps := StringAccepted(c, o);
      x := StringS(ps);
    } else if c[o] == MINUS || Digit(c[o]) {
      hide Taken, Render, Denotes, Held;
      x := NumberAccepted(c, o);
      ScalarNesting(x);
    } else if c[o] == LBRACKET {
      hide Taken, Render, Denotes, Held, Nesting;
      x := ArrayAccepted(c, o, depth);
    } else {
      hide Taken, Render, Denotes, Held, Nesting;
      x := ObjectAccepted(c, o, depth);
    }
  }

  lemma ScalarNesting(x: Syntax)
    requires x.NumberS?
    ensures Nesting(x) == 0
  {}

  lemma EmptyAccepted(c: seq<Byte>, o: nat, open: Byte, close: Byte) returns (w: White)
    requires o < |c| && c[o] == open && close > 32
    requires var p := SkipWhite(c, o + 1); p < |c| && c[p] == close
    ensures StartsWith(c, o, [open] + w + [close]) && SkipWhite(c, o + 1) + 1 == o + |[open] + w + [close]|
  {
    hide StartsWith, SkipWhite;
    w := WhiteAccepted(c, o + 1);
    HasByte(c, o, open);
    HasByte(c, o + 1 + |w|, close);
    Join(c, o, [open], w);
    Join(c, o, [open] + w, [close]);
  }

  lemma {:induction false} ArrayAccepted(c: seq<Byte>, o: nat, depth: nat) returns (x: Syntax)
    requires o < |c| && c[o] == LBRACKET && ParseArray(c, o, depth).Ok?
    ensures !x.NumberS?
    ensures var r := ParseArray(c, o, depth); ValueAt(c, o, depth, x, r.next) && r.item == Held(Denotes(x))
    decreases |c| - o, 2
  {
    hide SkipWhite, ParseElements, StartsWith, RenderElements, Held, HeldItems, DenotesElements, ElementsNesting, Taken;
    var p := SkipWhite(c, o + 1);
    if p < |c| && c[p] == RBRACKET {
      var w := EmptyAccepted(c, o, LBRACKET, RBRACKET);
      x := EmptyArrayS(w);
      EmptyHeld(w);
    } else {
      StepBack(c, o, depth + 1);
      ElementsFromWhite(c, o, depth + 1);
      var es := ElementsAccepted(c, o, depth + 1);
      x := ArrayS(es);
      HasByte(c, o, LBRACKET);
      Join(c, o, [LBRACKET], RenderElements(es) + [RBRACKET]);
      Assoc3([LBRACKET], RenderElements(es), [RBRACKET]);
      ArrayHeld(es);
    }
  }

  lemma EmptyHeld(w: White)
    ensures Held(Denotes(EmptyArrayS(w))) == Array([]) && Held(Denotes(EmptyObjectS(w))) == Object([])
    ensures Taken(EmptyArrayS(w)) && Taken(EmptyObjectS(w))
  {}

  lemma ArrayHeld(es: seq<Element>)
    requires es != [] && forall e | e in es :: Taken(e.value)
    ensures Held(Denotes(ArrayS(es))) == Array(HeldItems(DenotesElements(es))) && Taken(ArrayS(es))
  {
    hide DenotesElements, HeldItems;
  }

  lemma ObjectHeld(fs: seq<Field>)
    requires fs != [] && forall f | f in fs :: StringTaken(f.name) && Taken(f.value)
    ensures Held(Denotes(ObjectS(fs))) == Object(HeldMembers(DenotesFields(fs))) && Taken(ObjectS(fs))
  {
    hide DenotesFields, HeldMembers, StringTaken;
  }

  /** parse_array steps back in front of the first element, and so stands on no white space. */
  lemma StepBack(c: seq<Byte>, o: nat, depth: nat)
    requires o < |c|
    requires var p := SkipWhite(c, o + 1);
             o < p < |c| && (ParseElements(c, p - 1, depth).Ok? || ParseMembers(c, p - 1, depth).Ok?)
    ensures c[SkipWhite(c, o + 1)] > 32
  {
    var p := SkipWhite(c, o + 1);
    if c[p] <= 32 {
      WhiteEnd(c, o + 1);
      hide SkipWhite, ParseValue, ParseString;
      NoValueAtWhite(c, p, depth);
    }
  }

  lemma WhiteEnd(c: seq<Byte>, o: nat)
    requires SkipWhite(c, o) < |c| && c[SkipWhite(c, o)] <= 32
    ensures SkipWhite(c, SkipWhite(c, o)) == SkipWhite(c, o)
  {}

  /** White space, the value at p, and white space up to the mark at q. */
  lemma ElementAccepted(c: seq<Byte>, o: nat, depth: nat, q: nat) returns (e: Element)
    requires depth <= CJSON_NESTING_LIMIT && q < |c| && c[q] > 32
    requires var r := ParseValue(c, SkipWhite(c, o), depth); r.Ok? && SkipWhite(c, r.next) == q
    ensures var r := ParseValue(c, SkipWhite(c, o), depth); r.item == Held(Denotes(e.value))
    ensures Taken(e.value) && StartsWith(c, o, RenderElement(e)) && q == o + |RenderElement(e)|
    ensures depth + Nesting(e.value) <= CJSON_NESTING_LIMIT
    decreases |c| - SkipWhite(c, o), 4
  {
    hide SkipWhite, ParseValue, StartsWith, Render, Denotes, Held, Taken, Nesting;
    var p := SkipWhite(c, o);
    ValueWithin(c, p, depth);
    var w := WhiteAccepted(c, o);
    var x := ValueAccepted(c, p, depth);
    var w' := WhiteAccepted(c, p + |Render(x)|);
    e := Element(w, x, w');
    Join(c, o, w, Render(x));
    Join(c, o, w + Render(x), w');
  }

  lemma {:induction false} ElementsAccepted(c: seq<Byte>, o: nat, depth: nat) returns (es: seq<Element>)
    requires o < |c| && ParseElements(c, o, depth).Ok? && depth <= CJSON_NESTING_LIMIT
    ensures es != [] && (forall e | e in es :: Taken(e.value))
    ensures StartsWith(c, o + 1, RenderElements(es) + [RBRACKET])
    ensures ParseElements(c, o, depth) == Ok(HeldItems(DenotesElements(es)), o + 1 + |RenderElements(es)| + 1)
    ensures depth + ElementsNesting(es) <= CJSON_NESTING_LIMIT
    decreases |c| - o, 0
  {
    hide SkipWhite, ParseValue, StartsWith, RenderElement, Denotes, Held, HeldItems, DenotesElements, Taken, Nesting;
    var v := ParseValue(c, SkipWhite(c, o + 1), depth);
    SkipsForward(c, o + 1);
    var q := SkipWhite(c, v.next);
    var e := ElementAccepted(c, o + 1, depth, q);
    HasByte(c, q, c[q]);
    if c[q] == COMMA {
      var rest := ElementsAccepted(c, q, depth);
      es := [e] + rest;
      assert es[1..] == rest;
      HeldElements(es);
      Join(c, q, [COMMA], RenderElements(rest) + [RBRACKET]);
      Assoc3([COMMA], RenderElements(rest), [RBRACKET]);
      Join(c, o + 1, RenderElement(e), [COMMA] + RenderElements(rest) + [RBRACKET]);
      RestOfElements(es, [RBRACKET]);
    } else {
      es := [e];
      HeldElements(es);
      Join(c, o + 1, RenderElement(e), [RBRACKET]);
    }
  }

  lemma SkipsForward(c: seq<Byte>, o: nat)
    ensures SkipWhite(c, o) >= o
  {}

  // ---- objects ----

  lemma {:induction false} ObjectAccepted(c: seq<Byte>, o: nat, depth: nat) returns (x: Syntax)
    requires o < |c| && c[o] == LBRACE && ParseObject(c, o, depth).Ok?
    ensures !x.NumberS?
    ensures var r := ParseObject(c, o, depth); ValueAt(c, o, depth, x, r.next) && r.item == Held(Denotes(x))
    decreases |c| - o, 2
  {
    hide SkipWhite, ParseMembers, StartsWith, RenderFields, Held, HeldMembers, DenotesFields, FieldsNesting, Taken;
    var p := SkipWhite(c, o + 1);
    if p < |c| && c[p] == RBRACE {
      var w := EmptyAccepted(c, o, LBRACE, RBRACE);
      x := EmptyObjectS(w);
      EmptyHeld(w);
    } else {
      StepBack(c, o, depth + 1);
      MembersFromWhite(c, o, depth + 1);
      var fs := FieldsAccepted(c, o, depth + 1);
      x := ObjectS(fs);
      HasByte(c, o, LBRACE);
      Join(c, o, [LBRACE], RenderFields(fs) + [RBRACE]);
      Assoc3([LBRACE], RenderFields(fs), [RBRACE]);
      ObjectHeld(fs);
    }
  }

  /** White space and a name, then white space up to the colon at p. */
  lemma NameAccepted(c: seq<Byte>, o: nat, p: nat) returns (w: White, ps: seq<Piece>, w': White)
    requires SkipWhite(c, o) < |c| && p < |c| && c[p] == COLON
    requires var n := ParseString(c, SkipWhite(c, o)); n.Ok? && SkipWhite(c, n.next) == p
    ensures StringTaken(ps) && ParseString(c, SkipWhite(c, o)).item == CString(PiecesMeaning(ps))
    ensures StartsWith(c, o, w + RenderString(ps) + w') && p == o + |w| + |RenderString(ps)| + |w'|
  {
    hide SkipWhite, ParseString, StartsWith, RenderString, StringTaken, CString, PiecesMeaning;
    var a := SkipWhite(c, o);
    if c[a] <= 32 {
      NoValueAtWhite(c, a, 0);
    }
    w := WhiteAccepted(c, o);
    ps := StringAccepted(c, a);
    w' := WhiteAccepted(c, a + |RenderString(ps)|);
    Join(c, o, w, RenderString(ps));
    Join(c, o, w + RenderString(ps), w');
  }

  lemma FieldAccepted(c: seq<Byte>, o: nat, depth: nat, q: nat) returns (f: Field)
    requires o < |c| && depth <= CJSON_NESTING_LIMIT && q < |c| && c[q] > 32
    requires var r := ParseMember(c, o, depth); r.Ok? && SkipWhite(c, r.next) == q
    ensures ParseMember(c, o, depth).item == HeldMember(DenotesField(f))
    ensures StringTaken(f.name) && Taken(f.value) && StartsWith(c, o + 1, RenderField(f))
    ensures q == o + 1 + |RenderField(f)|
    ensures depth + Nesting(f.value) <= CJSON_NESTING_LIMIT
    decreases |c| - o, 0
  {
    hide SkipWhite, ParseValue, ParseString, StartsWith, RenderElement, RenderString, Denotes, Held, Taken, Nesting,
         StringTaken, CString, PiecesMeaning;
    var n := ParseString(c, SkipWhite(c, o + 1));
    SkipsForward(c, o + 1);
    var p := SkipWhite(c, n.next);
    SkipsForward(c, n.next);
    var w, ps, w' := NameAccepted(c, o + 1, p);
    SkipsForward(c, p + 1);
    var e := ElementAccepted(c, p + 1, depth, q);
    f := Field(w, ps, w', e.before, e.value, e.after);
    FieldJoined(c, o + 1, f, e);
  }

  lemma FieldJoined(c: seq<Byte>, o: nat, f: Field, e: Element)
    requires f.beforeValue == e.before && f.value == e.value && f.after == e.after
    requires var t := f.before + RenderString(f.name) + f.afterName;
             && StartsWith(c, o, t) && o + |t| < |c| && c[o + |t|] == COLON
             && StartsWith(c, o + |t| + 1, RenderElement(e))
    ensures StartsWith(c, o, RenderField(f))
    ensures |RenderField(f)| == |f.before| + |RenderString(f.name)| + |f.afterName| + 1 + |RenderElement(e)|
  {
    hide StartsWith, RenderString, Render;
    var t := f.before + RenderString(f.name) + f.afterName;
    HasByte(c, o + |t|, COLON);
    Join(c, o, t, [COLON]);
    Join(c, o, t + [COLON], RenderElement(e));
    FieldTextOf(t + [COLON], e.before, Render(e.value), e.after);
  }

  lemma FieldTextOf(a: seq<Byte>, b: seq<Byte>, c: seq<Byte>, d: seq<Byte>)
    ensures a + b + c + d == a + (b + c + d)
  {}

  lemma {:induction false} FieldsAccepted(c: seq<Byte>, o: nat, depth: nat) returns (fs: seq<Field>)
    requires o < |c| && ParseMembers(c, o, depth).Ok? && depth <= CJSON_NESTING_LIMIT
    ensures fs != [] && (forall f | f in fs :: StringTaken(f.name) && Taken(f.value))
    ensures StartsWith(c, o + 1, RenderFields(fs) + [RBRACE])
    ensures ParseMembers(c, o, depth) == Ok(HeldMembers(DenotesFields(fs)), o + 1 + |RenderFields(fs)| + 1)
    ensures depth + FieldsNesting(fs) <= CJSON_NESTING_LIMIT
    decreases |c| - o, 1
  {
    hide SkipWhite, ParseMember, StartsWith, RenderField, DenotesField, HeldMember, HeldMembers, DenotesFields, Taken,
         Nesting, StringTaken;
    var m := ParseMember(c, o, depth);
    var q := SkipWhite(c, m.next);
    SkipsForward(c, m.next);
    var f := FieldAccepted(c, o, depth, q);
    HasByte(c, q, c[q]);
    if c[q] == COMMA {
      var rest := FieldsAccepted(c, q, depth);
      fs := [f] + rest;
      assert fs[1..] == rest;
      HeldFields(fs);
      Join(c, q, [COMMA], RenderFields(rest) + [RBRACE]);
      Assoc3([COMMA], RenderFields(rest), [RBRACE]);
      Join(c, o + 1, RenderField(f), [COMMA] + RenderFields(rest) + [RBRACE]);
      RestOfFields(fs, [RBRACE]);
    } else {
      fs := [f];
      HeldFields(fs);
      Join(c, o + 1, RenderField(f), [RBRACE]);
    }
  }

  /** parse_value accepts exactly the values that it takes, and reads each for what the library holds of it. */
  lemma ValueIff(c: seq<Byte>, o: nat, depth: nat, q: nat, v: Value)
    requires depth <= CJSON_NESTING_LIMIT
    ensures ParseValue(c, o, depth) == Ok(v, q) <==> exists x :: ValueAt(c, o, depth, x, q) && v == Held(Denotes(x))
  {
    hide ParseValue, Taken, Denotes, Held, Render, StartsWith, NumeralEnds, Nesting;
    if ParseValue(c, o, depth) == Ok(v, q) {
      var x := ValueAccepted(c, o, depth);
      assert ValueAt(c, o, depth, x, q) && v == Held(Denotes(x));
    }
    if x :| ValueAt(c, o, depth, x, q) && v == Held(Denotes(x)) {
      ValueRead(c, o, depth, x);
    }
  }

  // ---- texts ----

  /** A NUL-terminated text: behind a byte order mark, if there is one, white space, a value, white space. */
  ghost predicate TextShape(c: seq<Byte>, w: White, x: Syntax, w': White) {
    SkipBom(c) <= |c| && c[SkipBom(c)..] == w + Render(x) + w' + [0]
  }

  ghost predicate TextOf(c: seq<Byte>, w: White, x: Syntax, w': White) { Taken(x) && TextShape(c, w, x, w') }

  lemma TextSplit(c: seq<Byte>, w: White, x: Syntax, w': White)
    requires TextShape(c, w, x, w') && (Taken(x) || Legible(x))
    ensures var b := SkipBom(c) + |w|; var r := Render(x);
            && StartsWith(c, SkipBom(c), w) && StartsWith(c, b, r) && StartsWith(c, b + |r|, w' + [0])
            && |c| == b + |r| + |w'| + 1 && r != [] && c[b] > 32
  {
    hide Render, StartsWith, Taken, Legible, SkipBom;
    var r := Render(x);
    WholeFrom(c, SkipBom(c), w + r + w' + [0]);
    Assoc4(w, r, w', [0]);
    Split(c, SkipBom(c), w, r + (w' + [0]));
    Split(c, SkipBom(c) + |w|, r, w' + [0]);
    FirstByte(x);
    ByteAt(c, SkipBom(c) + |w|, r, 0);
  }

  lemma WholeFrom(c: seq<Byte>, o: nat, t: seq<Byte>)
    requires o <= |c| && c[o..] == t
    ensures StartsWith(c, o, t) && |c| == o + |t|
  {}

  lemma TextOfRead(c: seq<Byte>, w: White, x: Syntax, w': White)
    requires TextOf(c, w, x, w') && Nesting(x) <= CJSON_NESTING_LIMIT
    ensures Parse(c, true) == Ok(Held(Denotes(x)), |c| - 1)
  {
    hide *;
    TextTaken(c, w, x, w');
    TextSplit(c, w, x, w');
    var b, r := SkipBom(c), Render(x);
    InBounds(c, b + |w|, r);
    WhiteThen(c, b, w, b + |w|);
    NulEndsNumber();
    AfterValue(c, b + |w| + |r|, w', 0);
    ValueRead(c, b + |w|, 0, x);
    TailOf(c, b + |w| + |r|, w');
    BehindBom(c, b + |w|, Held(Denotes(x)), b + |w| + |r|, |c| - 1);
  }

  lemma TextTaken(c: seq<Byte>, w: White, x: Syntax, w': White)
    requires TextOf(c, w, x, w')
    ensures Taken(x) && TextShape(c, w, x, w')
  {}

  lemma BehindBom(c: seq<Byte>, p: nat, v: Value, q: nat, end: nat)
    requires SkipWhite(c, SkipBom(c)) == p && ParseValue(c, p, 0) == Ok(v, q)
    requires end < |c| && SkipWhite(c, q) == end && c[end] == 0
    ensures Parse(c, true) == Ok(v, end)
  {
    hide ParseValue;
  }

  lemma ParseParts(c: seq<Byte>)
    requires Parse(c, true).Ok?
    ensures c != [] && SkipBom(c) < |c|
    ensures var r := ParseValue(c, SkipWhite(c, SkipBom(c)), 0);
            r.Ok? && SkipWhite(c, r.next) < |c| && c[SkipWhite(c, r.next)] == 0
            && Parse(c, true) == Ok(r.item, SkipWhite(c, r.next))
  {
    hide ParseValue, SkipWhite;
  }

  /** White space and a NUL at which the parser stops: it is the last byte. */
  lemma EndAccepted(c: seq<Byte>, o: nat) returns (w: White)
    requires SkipWhite(c, o) < |c| && c[SkipWhite(c, o)] == 0
    ensures o < |c| && SkipWhite(c, o) == |c| - 1 && c[o..] == w + [0]
  {
    w := c[o..|c| - 1];
  }

  lemma TextAccepted(c: seq<Byte>) returns (w: White, x: Syntax, w': White)
    requires Parse(c, true).Ok?
    ensures TextOf(c, w, x, w') && Nesting(x) <= CJSON_NESTING_LIMIT
    ensures Parse(c, true) == Ok(Held(Denotes(x)), |c| - 1)
  {
    hide *;
    ParseParts(c);
    var b := SkipBom(c);
    var p := SkipWhite(c, b);
    ValueWithin(c, p, 0);
    w := WhiteAccepted(c, b);
    x := ValueAccepted(c, p, 0);
    ValueParts(c, p, 0, x, ParseValue(c, p, 0).next);
    w' := EndAccepted(c, p + |Render(x)|);
    TextJoined(c, w, x, w');
  }

  lemma ValueParts(c: seq<Byte>, o: nat, depth: nat, x: Syntax, q: nat)
    requires ValueAt(c, o, depth, x, q)
    ensures Taken(x) && StartsWith(c, o, Render(x)) && q == o + |Render(x)| && depth + Nesting(x) <= CJSON_NESTING_LIMIT
  {}

  lemma TextJoined(c: seq<Byte>, w: White, x: Syntax, w': White)
    requires Taken(x) && StartsWith(c, SkipBom(c), w) && StartsWith(c, SkipBom(c) + |w|, Render(x))
    requires var q := SkipBom(c) + |w| + |Render(x)|; q <= |c| && c[q..] == w' + [0]
    ensures TextOf(c, w, x, w')
  {
    hide Taken, Render, SkipBom;
    Join(c, SkipBom(c), w, Render(x));
    var q := SkipBom(c) + |w| + |Render(x)|;
    assert c[SkipBom(c)..] == c[SkipBom(c)..q] + c[q..];
    Assoc3(w + Render(x), w', [0]);
  }

  /** With require_null_terminated set, cJSON_ParseWithOpts accepts exactly the texts that consist of white space and
      one value that it takes, nested no deeper than its limit, and it reads them for what the library holds of the
      value. */
  lemma AcceptedIff(c: seq<Byte>, v: Value, end: nat)
    ensures Parse(c, true) == Ok(v, end)
       <==> end + 1 == |c| && exists w: White, x, w': White :: Reads(c, w, x, w', v)
  {
    hide Parse, TextOf, Nesting, Held, Denotes;
    if Parse(c, true) == Ok(v, end) {
      var w, x, w' := TextAccepted(c);
      assert Reads(c, w, x, w', v);
    }
    if end + 1 == |c| {
      if w: White, x, w': White :| Reads(c, w, x, w', v) {
        TextOfRead(c, w, x, w');
      }
    }
  }

  ghost predicate Reads(c: seq<Byte>, w: White, x: Syntax, w': White, v: Value) {
    TextOf(c, w, x, w') && Nesting(x) <= CJSON_NESTING_LIMIT && v == Held(Denotes(x))
  }

  // ---- the beginning of a text ----

  /** Up to end: a byte order mark, if there is one, white space and a value that does not go on. */
  ghost predicate PrefixShape(c: seq<Byte>, w: White, x: Syntax, end: nat) {
    && SkipBom(c) <= end <= |c| && c[SkipBom(c)..end] == w + Render(x)
    && (x.NumberS? ==> NumeralEnds(c, end, x.numeral))
  }

  ghost predicate PrefixOf(c: seq<Byte>, w: White, x: Syntax, end: nat) { Taken(x) && PrefixShape(c, w, x, end) }

  lemma PrefixSplit(c: seq<Byte>, w: White, x: Syntax, end: nat)
    requires PrefixShape(c, w, x, end) && (Taken(x) || Legible(x))
    ensures var b := SkipBom(c) + |w|;
            StartsWith(c, SkipBom(c), w) && end == b + |Render(x)| && b < |c| && c[b] > 32
    ensures Taken(x) && Nesting(x) <= CJSON_NESTING_LIMIT ==> ValueAt(c, SkipBom(c) + |w|, 0, x, end)
  {
    hide Render, StartsWith, Taken, Legible, SkipBom, Nesting, NumeralEnds;
    var r, o := Render(x), SkipBom(c);
    SliceStarts(c, o, end, w + r);
    Split(c, o, w, r);
    FirstByte(x);
    InBounds(c, o + |w|, r);
    ByteAt(c, o + |w|, r, 0);
  }

  lemma SliceStarts(c: seq<Byte>, o: nat, end: nat, t: seq<Byte>)
    requires o <= end <= |c| && c[o..end] == t
    ensures StartsWith(c, o, t) && end == o + |t|
  {}

  lemma PrefixRead(c: seq<Byte>, w: White, x: Syntax, end: nat)
    requires PrefixOf(c, w, x, end) && Nesting(x) <= CJSON_NESTING_LIMIT
    ensures Parse(c, false) == Ok(Held(Denotes(x)), end)
  {
    hide *;
    PrefixTaken(c, w, x, end);
    PrefixSplit(c, w, x, end);
    WhiteThen(c, SkipBom(c), w, SkipBom(c) + |w|);
    ValueAtRead(c, SkipBom(c) + |w|, x, end);
    FirstPart(c, Held(Denotes(x)), end);
  }

  lemma PrefixTaken(c: seq<Byte>, w: White, x: Syntax, end: nat)
    requires PrefixOf(c, w, x, end)
    ensures Taken(x) && PrefixShape(c, w, x, end)
  {}

  lemma ValueAtRead(c: seq<Byte>, o: nat, x: Syntax, q: nat)
    requires ValueAt(c, o, 0, x, q)
    ensures ParseValue(c, o, 0) == Ok(Held(Denotes(x)), q)
  {
    hide Taken, StartsWith, Render, NumeralEnds, Nesting, ParseValue, Held, Denotes;
    ValueRead(c, o, 0, x);
  }

  lemma FirstPart(c: seq<Byte>, v: Value, q: nat)
    requires c != []
    ensures Parse(c, false) == Ok(v, q) <==> ParseValue(c, SkipWhite(c, SkipBom(c)), 0) == Ok(v, q)
  {
    hide ParseValue, SkipWhite, SkipBom;
  }

  lemma PrefixAccepted(c: seq<Byte>) returns (w: White, x: Syntax)
    requires Parse(c, false).Ok?
    ensures PrefixOf(c, w, x, Parse(c, false).next) && Nesting(x) <= CJSON_NESTING_LIMIT
    ensures Parse(c, false).item == Held(Denotes(x))
  {
    hide *;
    var v, end := Parse(c, false).item, Parse(c, false).next;
    NotEmpty(c);
    FirstPart(c, v, end);
    var p := SkipWhite(c, SkipBom(c));
    ValueWithin(c, p, 0);
    w := WhiteAccepted(c, SkipBom(c));
    x := ValueAccepted(c, p, 0);
    PrefixJoined(c, w, x, end);
  }

  lemma NotEmpty(c: seq<Byte>)
    requires Parse(c, false).Ok?
    ensures c != []
  {}

  lemma PrefixJoined(c: seq<Byte>, w: White, x: Syntax, end: nat)
    requires StartsWith(c, SkipBom(c), w) && ValueAt(c, SkipBom(c) + |w|, 0, x, end)
    ensures PrefixOf(c, w, x, end) && Nesting(x) <= CJSON_NESTING_LIMIT
  {
    hide Taken, Render, SkipBom, NumeralEnds, Nesting, StartsWith;
    Join(c, SkipBom(c), w, Render(x));
    StartsWithIs(c, SkipBom(c), w + Render(x));
  }

  /** Without it, as cJSON_Parse calls it, it accepts exactly what begins with white space and one value that
      it takes, whatever comes behind, and says where the value ends. */
  lemma PrefixAcceptedIff(c: seq<Byte>, v: Value, end: nat)
    ensures Parse(c, false) == Ok(v, end) <==> exists w: White, x :: BeginsWith(c, w, x, end, v)
  {
    hide Parse, PrefixOf, Nesting, Held, Denotes;
    if Parse(c, false) == Ok(v, end) {
      var w, x := PrefixAccepted(c);
      assert BeginsWith(c, w, x, end, v);
    }
    if w: White, x :| BeginsWith(c, w, x, end, v) {
      PrefixRead(c, w, x, end);
    }
  }

  ghost predicate BeginsWith(c: seq<Byte>, w: White, x: Syntax, end: nat, v: Value) {
    PrefixOf(c, w, x, end) && Nesting(x) <= CJSON_NESTING_LIMIT && v == Held(Denotes(x))
  }
}
