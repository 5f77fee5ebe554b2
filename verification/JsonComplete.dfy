/** The parser reads every text of a syntax tree that it takes, and so every JSON text, for what the
    library holds of the value that the text denotes, as long as arrays and objects are not nested too
    deeply. */
module JsonComplete {
  import opened Wrappers
  import opened Bytes
  import opened JsonText
  import opened JsonParse

  lemma ByteAt(c: seq<Byte>, o: nat, s: seq<Byte>, i: nat)
    requires StartsWith(c, o, s) && i < |s|
    ensures c[o + i] == s[i]
  {
    assert c[o..o + |s|][i] == s[i];
  }

  lemma Split(c: seq<Byte>, o: nat, a: seq<Byte>, b: seq<Byte>)
    requires StartsWith(c, o, a + b)
    ensures StartsWith(c, o, a) && StartsWith(c, o + |a|, b)
  {
    var s := c[o..o + |a + b|];
    assert c[o..o + |a|] == s[..|a|] == a;
    assert c[o + |a|..o + |a| + |b|] == s[|a|..] == b;
  }

  lemma Assoc3(a: seq<Byte>, b: seq<Byte>, c: seq<Byte>)
    ensures a + b + c == a + (b + c)
  {}

  lemma Assoc4(a: seq<Byte>, b: seq<Byte>, c: seq<Byte>, d: seq<Byte>)
    ensures a + b + c + d == a + (b + (c + d))
  {}

  // ---- white space ----

  lemma {:induction false} SkipRun(c: seq<Byte>, o: nat, w: seq<Byte>)
    requires StartsWith(c, o, w) && (forall i | 0 <= i < |w| :: w[i] <= 32)
    requires o + |w| < |c| && c[o + |w|] > 32
    ensures SkipEnd(c, o) == o + |w|
    decreases |w|
  {
    if w != [] {
      ByteAt(c, o, w, 0);
      assert w == [w[0]] + w[1..];
      Split(c, o, [w[0]], w[1..]);
      SkipRun(c, o + 1, w[1..]);
    }
  }

  lemma SkipsWhite(c: seq<Byte>, o: nat, w: White)
    requires StartsWith(c, o, w) && o + |w| < |c| && c[o + |w|] > 32
    ensures SkipWhite(c, o) == o + |w|
  {
    SkipRun(c, o, w);
  }

  // ---- strings ----

  lemma Hex4Read(c: seq<Byte>, p: nat, h: Hex4)
    requires StartsWith(c, p, h.Text())
    ensures ParseHex4(c, p) == h.Read()
  {
    FourBytes(c, p, h);
  }

  lemma FourBytes(c: seq<Byte>, p: nat, h: Hex4)
    requires StartsWith(c, p, h.Text())
    ensures c[p] == h.a && c[p + 1] == h.b && c[p + 2] == h.c && c[p + 3] == h.d
  {
    ByteAt(c, p, h.Text(), 0);
    ByteAt(c, p, h.Text(), 1);
    ByteAt(c, p, h.Text(), 2);
    ByteAt(c, p, h.Text(), 3);
  }

  lemma UnitRead(c: seq<Byte>, p: nat, e: nat, h: Hex4)
    requires PieceTaken(Unit(h)) && StartsWith(c, p, RenderPiece(Unit(h))) && p + 6 <= e < |c|
    ensures Utf16Literal(c, p, e) == Some(Escape(PieceMeaning(Unit(h)), 6))
  {
    Split(c, p, [BACKSLASH, LOWER_U], h.Text());
    Hex4Read(c, p + 2, h);
  }

  lemma PairRead(c: seq<Byte>, p: nat, e: nat, x: Hex4, y: Hex4)
    requires PieceTaken(Pair(x, y)) && StartsWith(c, p, RenderPiece(Pair(x, y))) && p + 12 <= e < |c|
    ensures Utf16Literal(c, p, e) == Some(Escape(PieceMeaning(Pair(x, y)), 12))
  {
    PairSplit(c, p, x, y);
    Hex4Read(c, p + 2, x);
    Hex4Read(c, p + 8, y);
    PairStep(c, p, e, x.Read(), y.Read());
  }

  lemma PairStep(c: seq<Byte>, p: nat, e: nat, first: int, second: int)
    requires p + 12 <= e < |c| && ParseHex4(c, p + 2) == first && ParseHex4(c, p + 8) == second
    requires HighSurrogate(first) && LowSurrogate(second) && c[p + 6] == BACKSLASH && c[p + 7] == LOWER_U
    ensures Utf16Literal(c, p, e) == Some(Escape(Utf8(PairCode(first, second)), 12))
  {
    hide ParseHex4, Utf8;
  }

  lemma PairSplit(c: seq<Byte>, p: nat, x: Hex4, y: Hex4)
    requires StartsWith(c, p, RenderPiece(Pair(x, y)))
    ensures StartsWith(c, p + 2, x.Text()) && StartsWith(c, p + 8, y.Text())
    ensures c[p + 6] == BACKSLASH && c[p + 7] == LOWER_U
  {
    var u := [BACKSLASH, LOWER_U];
    Split(c, p, u + x.Text() + u, y.Text());
    Split(c, p, u + x.Text(), u);
    Split(c, p, u, x.Text());
    ByteAt(c, p + 6, u, 0);
    ByteAt(c, p + 6, u, 1);
  }

  /** The first pass stops at the closing quote. */
  lemma {:induction false} EndBehindClosed(c: seq<Byte>, p: nat, t: seq<Byte>)
    requires Closed(t) && StartsWith(c, p, t) && p + |t| < |c| && c[p + |t|] == QUOTE
    ensures EndOfString(c, p) == Some(p + |t|)
    decreases |t|
  {
    hide StartsWith;
    if t != [] {
      ByteAt(c, p, t, 0);
      var n := if t[0] == BACKSLASH then 2 else 1;
      assert t == t[..n] + t[n..];
      Split(c, p, t[..n], t[n..]);
      EndBehindClosed(c, p + n, t[n..]);
    }
  }

  /** The second pass reads one piece for what it means. */
  lemma UnescapePiece(c: seq<Byte>, p: nat, e: nat, x: Piece)
    requires PieceTaken(x) && !x.Cut? && StartsWith(c, p, RenderPiece(x)) && p + |RenderPiece(x)| <= e < |c|
    ensures Unescape(c, p, e) == Prepend(PieceMeaning(x), Unescape(c, p + |RenderPiece(x)|, e))
  {
    var r := RenderPiece(x);
    ByteAt(c, p, r, 0);
    if |r| > 1 {
      ByteAt(c, p, r, 1);
    }
    match x
    case Plain(b) =>
    case Short(m) =>
    case Unit(h) => UnitRead(c, p, e, h);
    case Pair(y, z) => PairRead(c, p, e, y, z);
  }

  lemma CutRead(c: seq<Byte>, p: nat)
    requires p + 1 < |c| && c[p] == BACKSLASH && c[p + 1] == QUOTE
    ensures Unescape(c, p, p + 1) == Some([QUOTE])
  {
    var q: seq<Byte> := [QUOTE];
    assert q + [] == q;
    assert Unescape(c, p + 2, p + 1) == Some([]);
  }

  lemma NoPiece(c: seq<Byte>, p: nat)
    requires p < |c|
    ensures Unescape(c, p, p) == Some([])
  {}

  lemma {:induction false} PiecesRead(c: seq<Byte>, p: nat, ps: seq<Piece>)
    requires PiecesTaken(ps) && StartsWith(c, p, RenderPieces(ps))
    requires p + |RenderPieces(ps)| < |c| && c[p + |RenderPieces(ps)|] == QUOTE
    ensures Unescape(c, p, p + |RenderPieces(ps)|) == Some(PiecesMeaning(ps))
    decreases |ps|
  {
    hide StartsWith, EndOfString, Unescape, PieceTaken, PieceMeaning, RenderPiece;
    if ps == [] {
      NoPiece(c, p);
    } else {
      var a, b := RenderPiece(ps[0]), RenderPieces(ps[1..]);
      Split(c, p, a, b);
      if ps[0].Cut? {
        CutLast(ps);
        ByteAt(c, p, a, 0);
        CutRead(c, p);
      } else {
        PiecesRead(c, p + |a|, ps[1..]);
        UnescapePiece(c, p, p + |a| + |b|, ps[0]);
      }
    }
  }

  lemma CutLast(ps: seq<Piece>)
    requires PiecesTaken(ps) && ps != [] && ps[0].Cut?
    ensures RenderPiece(ps[0]) == [BACKSLASH] && RenderPieces(ps[1..]) == [] && PiecesMeaning(ps) == [QUOTE]
  {
    assert ps[1..] == [];
    var q: seq<Byte> := [QUOTE];
    assert q + [] == q;
  }

  lemma StringRead(c: seq<Byte>, o: nat, ps: seq<Piece>)
    requires StringTaken(ps) && StartsWith(c, o, RenderString(ps))
    ensures ParseString(c, o) == Ok(CString(PiecesMeaning(ps)), o + |RenderString(ps)|)
  {
    hide StartsWith, Closed, PiecesTaken, RenderPieces, EndOfString, Unescape, PiecesMeaning, ParseString, CString;
    var t := RenderPieces(ps);
    Split(c, o, [QUOTE] + t, [QUOTE]);
    Split(c, o, [QUOTE], t);
    InBounds(c, o + 1 + |t|, [QUOTE]);
    ByteAt(c, o, [QUOTE], 0);
    ByteAt(c, o + 1 + |t|, [QUOTE], 0);
    EndBehindClosed(c, o + 1, t);
    PiecesRead(c, o + 1, ps);
    StringOutcome(c, o, o + 1 + |t|, PiecesMeaning(ps));
    StringLength(ps);
  }

  lemma StringLength(ps: seq<Piece>)
    ensures |RenderString(ps)| == |RenderPieces(ps)| + 2
  {}

  lemma StringOutcome(c: seq<Byte>, o: nat, e: nat, s: seq<Byte>)
    requires o < |c| && c[o] == QUOTE && EndOfString(c, o + 1) == Some(e) && Unescape(c, o + 1, e) == Some(s)
    ensures ParseString(c, o) == Ok(CString(s), e + 1)
  {
    hide EndOfString, Unescape, CString;
  }

  // ---- numbers ----

  /** An exponent that strtod would take stands at q. */
  ghost predicate ExponentAt(c: seq<Byte>, q: nat) {
    q + 1 < |c| && ExponentMark(c[q])
    && (Digit(c[q + 1]) || ((c[q + 1] == PLUS || c[q + 1] == MINUS) && q + 2 < |c| && Digit(c[q + 2])))
  }

  /** Nothing that strtod would take for more of the number n stands behind it. */
  ghost predicate NumeralEnds(c: seq<Byte>, q: nat, n: Numeral) {
    && q <= |c| && (q < |c| ==> !Digit(c[q]))
    && (n.exponent.None? ==> !ExponentAt(c, q))
    && (n.exponent.None? && n.fraction.None? && q < |c| ==> c[q] != POINT)
  }

  lemma {:induction false} NumberRun(c: seq<Byte>, o: nat, s: seq<Byte>)
    requires StartsWith(c, o, s) && forall i | 0 <= i < |s| :: NumberByte(s[i])
    ensures NumberEnd(c, o) >= o + |s|
    decreases |s|
  {
    if s != [] {
      ByteAt(c, o, s, 0);
      assert s == [s[0]] + s[1..];
      Split(c, o, [s[0]], s[1..]);
      NumberRun(c, o + 1, s[1..]);
    }
  }

  lemma {:induction false} DigitsRun(s: seq<Byte>, i: nat, d: seq<Byte>)
    requires StartsWith(s, i, d) && AllDigits(d) && (i + |d| < |s| ==> !Digit(s[i + |d|]))
    ensures DigitsEnd(s, i) == i + |d| && s[i..i + |d|] == d
    decreases |d|
  {
    if d != [] {
      ByteAt(s, i, d, 0);
      assert d == [d[0]] + d[1..];
      Split(s, i, [d[0]], d[1..]);
      assert Digit(d[0]);
      forall k | 0 <= k < |d[1..]| ensures Digit(d[1..][k]) {
        assert Digit(d[k + 1]);
      }
      DigitsRun(s, i + 1, d[1..]);
    }
  }

  lemma ExponentFound(s: seq<Byte>, i: nat, e: Option<Exponent>)
    requires StartsWith(s, i, ExponentText(e)) && (e.Some? ==> ExponentOk(e.value))
    requires var q := i + |ExponentText(e)|; if e.None? then !ExponentAt(s, i) else q < |s| ==> !Digit(s[q])
    ensures ExponentIn(s, i) == e
  {
    hide StartsWith, AllDigits, ExponentAt;
    InBounds(s, i, ExponentText(e));
    if e.None? {
      NoExponent(s, i);
    } else {
      var x := e.value;
      Split(s, i, [x.mark] + x.sign, x.digits);
      Split(s, i, [x.mark], x.sign);
      ByteAt(s, i, [x.mark], 0);
      var k := i + 1 + |x.sign|;
      if x.sign != [] {
        ByteAt(s, i + 1, x.sign, 0);
      }
      ByteAt(s, k, x.digits, 0);
      FirstIsDigit(x.digits);
      DigitsRun(s, k, x.digits);
      StartsWithIs(s, i + 1, x.sign);
    }
  }

  lemma FirstIsDigit(d: seq<Byte>)
    requires d != [] && AllDigits(d)
    ensures Digit(d[0])
  {}

  lemma StartsWithIs(c: seq<Byte>, o: nat, s: seq<Byte>)
    requires StartsWith(c, o, s)
    ensures o + |s| <= |c| && c[o..o + |s|] == s
  {}

  lemma NoExponent(s: seq<Byte>, i: nat)
    requires i <= |s| && !ExponentAt(s, i)
    ensures ExponentIn(s, i) == None
  {}

  /** strtod finds the number whose text stands at i, if that does not go on. */
  lemma NumeralFound(s: seq<Byte>, i: nat, n: Numeral)
    requires NumeralTaken(n)
    requires var t := RenderNumeral(n.(negative := false)); StartsWith(s, i, t) && NumeralEnds(s, i + |t|, n)
    ensures i <= |s| && NumeralIn(s, i, n.negative) == Some(n)
  {
    hide *;
    var f, e := FractionText(n.fraction), ExponentText(n.exponent);
    NumeralParts(n);
    InBounds(s, i, n.digits + f + e);
    Split(s, i, n.digits + f, e);
    Split(s, i, n.digits, f);
    var point := i + |n.digits|;
    BehindParts(s, point, n);
    ExponentFound(s, point + |f|, n.exponent);
    DigitsRun(s, i, n.digits);
    if n.fraction.None? {
      NoFraction(s, i, n);
    } else {
      FractionFound(s, point, n.fraction.value);
      WithFraction(s, i, n);
    }
  }

  lemma NumeralParts(n: Numeral)
    requires NumeralTaken(n)
    ensures RenderNumeral(n.(negative := false)) == n.digits + FractionText(n.fraction) + ExponentText(n.exponent)
    ensures AllDigits(n.digits) && (n.fraction.Some? ==> AllDigits(n.fraction.value))
    ensures n.exponent.Some? ==> ExponentOk(n.exponent.value)
    ensures n.fraction.None? ==> FractionText(n.fraction) == [] && n.digits != []
    ensures n.fraction.Some? ==> n.digits != [] || n.fraction.value != []
    ensures n.fraction.Some? ==> FractionText(n.fraction) == [POINT] + n.fraction.value
  {
    hide ExponentText, ExponentOk, AllDigits;
  }

  /** The digits end where they should, as neither a point nor an exponent begins with a digit. */
  lemma BehindParts(s: seq<Byte>, point: nat, n: Numeral)
    requires var f, e := FractionText(n.fraction), ExponentText(n.exponent);
             && StartsWith(s, point, f) && StartsWith(s, point + |f|, e) && NumeralEnds(s, point + |f| + |e|, n)
    requires n.exponent.Some? ==> ExponentOk(n.exponent.value)
    ensures var f, e := FractionText(n.fraction), ExponentText(n.exponent);
            && (n.exponent.None? ==> !ExponentAt(s, point + |f|) && |e| == 0)
            && (point + |f| + |e| < |s| ==> !Digit(s[point + |f| + |e|]))
            && (point + |f| < |s| ==> !Digit(s[point + |f|]))
            && (point < |s| ==> !Digit(s[point]) && (n.fraction.None? ==> s[point] != POINT))
  {
    hide StartsWith, ExponentAt;
    var f, e := FractionText(n.fraction), ExponentText(n.exponent);
    if n.exponent.Some? {
      ByteAt(s, point + |f|, e, 0);
    }
    if n.fraction.Some? {
      ByteAt(s, point, f, 0);
    }
  }

  lemma FractionFound(s: seq<Byte>, point: nat, d: seq<Byte>)
    requires StartsWith(s, point, [POINT] + d) && AllDigits(d)
    requires var end := point + |[POINT] + d|; end < |s| ==> !Digit(s[end])
    ensures point < |s| && s[point] == POINT && DigitsEnd(s, point + 1) == point + 1 + |d| <= |s|
    ensures s[point + 1..point + 1 + |d|] == d
  {
    hide StartsWith, AllDigits;
    InBounds(s, point, [POINT] + d);
    ByteAt(s, point, [POINT] + d, 0);
    Split(s, point, [POINT], d);
    DigitsRun(s, point + 1, d);
  }

  lemma NoFraction(s: seq<Byte>, i: nat, n: Numeral)
    requires i + |n.digits| <= |s| && DigitsEnd(s, i) == i + |n.digits| && s[i..i + |n.digits|] == n.digits
    requires n.fraction.None? && n.digits != [] && ExponentIn(s, i + |n.digits|) == n.exponent
    requires i + |n.digits| < |s| ==> s[i + |n.digits|] != POINT
    ensures NumeralIn(s, i, n.negative) == Some(n)
  {
    hide DigitsEnd, ExponentIn;
  }

  lemma WithFraction(s: seq<Byte>, i: nat, n: Numeral)
    requires i + |n.digits| < |s| && DigitsEnd(s, i) == i + |n.digits| && s[i..i + |n.digits|] == n.digits
    requires n.fraction.Some? && (n.digits != [] || n.fraction.value != []) && s[i + |n.digits|] == POINT
    requires var p := i + |n.digits| + 1; var end := p + |n.fraction.value|;
             end <= |s| && DigitsEnd(s, p) == end && s[p..end] == n.fraction.value && ExponentIn(s, end) == n.exponent
    ensures NumeralIn(s, i, n.negative) == Some(n)
  {
    hide DigitsEnd, ExponentIn;
  }

  lemma NumeralBytes(n: Numeral, i: nat)
    requires NumeralTaken(n) && i < |RenderNumeral(n)|
    ensures NumberByte(RenderNumeral(n)[i])
  {
    var a := if n.negative then 1 else 0;
    var f, e := FractionText(n.fraction), ExponentText(n.exponent);
    if a <= i < a + |n.digits| {
      assert Digit(n.digits[i - a]);
    } else if a + |n.digits| < i < a + |n.digits| + |f| {
      assert Digit(n.fraction.value[i - a - |n.digits| - 1]);
    } else if i >= a + |n.digits| + |f| {
      ExponentBytes(n.exponent.value, i - a - |n.digits| - |f|);
    }
  }

  lemma ExponentBytes(e: Exponent, i: nat)
    requires ExponentOk(e) && i < |ExponentText(Some(e))|
    ensures NumberByte(ExponentText(Some(e))[i])
  {
    if i > |e.sign| {
      assert Digit(e.digits[i - 1 - |e.sign|]);
    }
  }

  lemma NumberRead(c: seq<Byte>, o: nat, n: Numeral)
    requires NumeralTaken(n) && StartsWith(c, o, RenderNumeral(n)) && NumeralEnds(c, o + |RenderNumeral(n)|, n)
    ensures ParseNumber(c, o) == Ok(Held(Denotes(NumberS(n))), o + |RenderNumeral(n)|)
    ensures SpanNumeral(c, o) == Some(n)
  {
    hide *;
    InBounds(c, o, RenderNumeral(n));
    var s := SpanOf(c, o, n);
    StrtodFound(s, n);
    NumberOutcome(c, o, s, n);
  }

  /** The number with which the bytes that parse_number looks at begin. */
  function SpanNumeral(c: seq<Byte>, o: nat): Option<Numeral>
    requires o <= |c|
  {
    NumeralOf(c[o..NumberEnd(c, o)])
  }

  function NumeralOf(s: seq<Byte>): Option<Numeral> {
    var start := if s != [] && (s[0] == PLUS || s[0] == MINUS) then 1 else 0;
    NumeralIn(s, start, start == 1 && s[0] == MINUS)
  }

  lemma SpanOf(c: seq<Byte>, o: nat, n: Numeral) returns (s: seq<Byte>)
    requires NumeralTaken(n) && StartsWith(c, o, RenderNumeral(n)) && NumeralEnds(c, o + |RenderNumeral(n)|, n)
    ensures o <= NumberEnd(c, o) <= |c| && s == c[o..NumberEnd(c, o)]
    ensures StartsWith(s, 0, RenderNumeral(n)) && NumeralEnds(s, |RenderNumeral(n)|, n)
  {
    var t := RenderNumeral(n);
    forall i | 0 <= i < |t| ensures NumberByte(t[i]) {
      NumeralBytes(n, i);
    }
    NumberRun(c, o, t);
    hide RenderNumeral, NumeralTaken;
    s := c[o..NumberEnd(c, o)];
    assert s[0..|t|] == c[o..o + |t|];
    assert forall k | 0 <= k < |s| :: s[k] == c[o + k];
  }

  lemma StrtodFound(s: seq<Byte>, n: Numeral)
    requires NumeralTaken(n) && StartsWith(s, 0, RenderNumeral(n)) && NumeralEnds(s, |RenderNumeral(n)|, n)
    ensures Strtod(s) == Some((NumeralMeaning(n), |RenderNumeral(n)|)) && NumeralOf(s) == Some(n)
  {
    hide NumeralMeaning, StartsWith, NumeralEnds;
    SignSplit(s, n);
    hide RenderNumeral, NumeralTaken;
    NumeralFound(s, if n.negative then 1 else 0, n);
    hide NumeralIn;
  }

  lemma SignSplit(s: seq<Byte>, n: Numeral)
    requires NumeralTaken(n) && StartsWith(s, 0, RenderNumeral(n))
    ensures s != [] && (n.negative <==> s[0] == MINUS) && s[0] != PLUS
    ensures var i := if n.negative then 1 else 0; var u := RenderNumeral(n.(negative := false));
            StartsWith(s, i, u) && |RenderNumeral(n)| == i + |u|
  {
    var u := RenderNumeral(n.(negative := false));
    var sign: seq<Byte> := if n.negative then [MINUS] else [];
    assert RenderNumeral(n) == sign + u;
    Split(s, 0, sign, u);
    ByteAt(s, 0, RenderNumeral(n), 0);
    InBounds(s, 0, RenderNumeral(n));
    assert n.digits != [] ==> Digit(n.digits[0]);
  }

  lemma NumberOutcome(c: seq<Byte>, o: nat, s: seq<Byte>, n: Numeral)
    requires o < |c| && o <= NumberEnd(c, o) <= |c| && s == c[o..NumberEnd(c, o)]
    requires Strtod(s) == Some((NumeralMeaning(n), |RenderNumeral(n)|)) && NumeralOf(s) == Some(n)
    ensures ParseNumber(c, o) == Ok(Held(Denotes(NumberS(n))), o + |RenderNumeral(n)|)
    ensures SpanNumeral(c, o) == Some(n)
  {
    hide Strtod, NumeralOf, NumeralMeaning, RenderNumeral, ValueInt, NumberEnd;
  }

  // ---- values ----

  lemma {:induction false} ValueRead(c: seq<Byte>, o: nat, depth: nat, x: Syntax)
    requires Taken(x) && StartsWith(c, o, Render(x)) && (x.NumberS? ==> NumeralEnds(c, o + |Render(x)|, x.numeral))
    requires depth + Nesting(x) <= CJSON_NESTING_LIMIT
    ensures ParseValue(c, o, depth) == Ok(Held(Denotes(x)), o + |Render(x)|)
    decreases x, 1
  {
    hide StartsWith, SkipWhite, ParseValue, ParseString, ParseNumber, ParseElements, ParseMembers, NumeralEnds,
         NumeralTaken,
         RenderNumeral, NumeralMeaning, ValueInt,
         StringTaken, HeldItems, HeldMembers, DenotesElements, DenotesFields, RenderElements, RenderFields, CString;
    FirstByte(x);
    ByteAt(c, o, Render(x), 0);
    InBounds(c, o, Render(x));
    Dispatch(c, o, depth, x);
    match x
    case NullS =>
    case FalseS =>
    case TrueS =>
    case NumberS(n) => NumberRead(c, o, n);
    case StringS(ps) =>
      hide Render, PiecesMeaning, CString;
      StringRead(c, o, ps);
      StringDenotes(ps);
    case EmptyArrayS(w) => EmptyRead(c, o, LBRACKET, w, RBRACKET);
    case ArrayS(es) =>
      hide ParseArray;
      ArrayRead(c, o, depth, es);
    case EmptyObjectS(w) => EmptyRead(c, o, LBRACE, w, RBRACE);
    case ObjectS(fs) =>
      hide ParseObject;
      ObjectRead(c, o, depth, fs);
  }

  lemma StringDenotes(ps: seq<Piece>)
    requires StringTaken(ps)
    ensures Held(Denotes(StringS(ps))) == String(CString(PiecesMeaning(ps))) && Render(StringS(ps)) == RenderString(ps)
  {}

  lemma {:induction false} ArrayRead(c: seq<Byte>, o: nat, depth: nat, es: seq<Element>)
    requires es != [] && (forall e | e in es :: Taken(e.value))
    requires o < |c| && StartsWith(c, o, [LBRACKET] + RenderElements(es) + [RBRACKET])
    requires depth + 1 + ElementsNesting(es) <= CJSON_NESTING_LIMIT
    ensures ParseArray(c, o, depth) == Ok(Array(HeldItems(DenotesElements(es))), o + 1 + |RenderElements(es)| + 1)
    decreases ArrayS(es), 0
  {
    hide StartsWith, SkipWhite, ParseElements, Taken, DenotesElements, RenderElements, ElementsNesting;
    Bracketed(c, o, LBRACKET, RenderElements(es), RBRACKET);
    ElementsRead(c, o, depth + 1, es);
    FirstElement(c, o + 1, es);
    ElementsFromWhite(c, o, depth + 1);
  }

  lemma {:induction false} ObjectRead(c: seq<Byte>, o: nat, depth: nat, fs: seq<Field>)
    requires fs != [] && (forall f | f in fs :: StringTaken(f.name) && Taken(f.value))
    requires o < |c| && StartsWith(c, o, [LBRACE] + RenderFields(fs) + [RBRACE])
    requires depth + 1 + FieldsNesting(fs) <= CJSON_NESTING_LIMIT
    ensures ParseObject(c, o, depth) == Ok(Object(HeldMembers(DenotesFields(fs))), o + 1 + |RenderFields(fs)| + 1)
    decreases ObjectS(fs), 0
  {
    hide StartsWith, SkipWhite, ParseMembers, Taken, DenotesFields, RenderFields, FieldsNesting, StringTaken;
    Bracketed(c, o, LBRACE, RenderFields(fs), RBRACE);
    FieldsRead(c, o, depth + 1, fs);
    FirstField(c, o + 1, fs);
    MembersFromWhite(c, o, depth + 1);
  }

  lemma Bracketed(c: seq<Byte>, o: nat, open: Byte, s: seq<Byte>, close: Byte)
    requires StartsWith(c, o, [open] + s + [close])
    ensures StartsWith(c, o + 1, s + [close])
  {
    Assoc3([open], s, [close]);
    Split(c, o, [open], s + [close]);
  }

  lemma EmptyRead(c: seq<Byte>, o: nat, open: Byte, w: White, close: Byte)
    requires StartsWith(c, o, [open] + w + [close]) && close > 32
    ensures o + 1 + |w| < |c| && SkipWhite(c, o + 1) == o + 1 + |w| && c[o + 1 + |w|] == close
  {
    Bracketed(c, o, open, w, close);
    Split(c, o + 1, w, [close]);
    ByteAt(c, o + 1 + |w|, [close], 0);
    SkipsWhite(c, o + 1, w);
  }

  /** A text that begins with none of n, f, t is none of the three literals, and these are told apart
      by their first byte. */
  lemma NotALiteral(c: seq<Byte>, o: nat, x: Syntax)
    requires Taken(x) && StartsWith(c, o, Render(x))
    ensures StartsWith(c, o, NULL_TEXT) <==> x.NullS?
    ensures StartsWith(c, o, FALSE_TEXT) <==> x.FalseS?
    ensures StartsWith(c, o, TRUE_TEXT) <==> x.TrueS?
  {
    FirstByte(x);
    ByteAt(c, o, Render(x), 0);
    if StartsWith(c, o, NULL_TEXT) {
      ByteAt(c, o, NULL_TEXT, 0);
    }
    if StartsWith(c, o, FALSE_TEXT) {
      ByteAt(c, o, FALSE_TEXT, 0);
    }
    if StartsWith(c, o, TRUE_TEXT) {
      ByteAt(c, o, TRUE_TEXT, 0);
    }
  }

  /** parse_value looks at the first byte to tell what comes. */
  lemma Dispatch(c: seq<Byte>, o: nat, depth: nat, x: Syntax)
    requires Taken(x) && StartsWith(c, o, Render(x)) && o < |c|
    ensures x.NullS? || x.FalseS? || x.TrueS? ==> ParseValue(c, o, depth) == Ok(Held(Denotes(x)), o + |Render(x)|)
    ensures x.NumberS? ==> ParseValue(c, o, depth) == ParseNumber(c, o)
    ensures x.StringS? ==> var s := ParseString(c, o);
              s.Ok? ==> ParseValue(c, o, depth) == Ok(String(s.item), s.next)
    ensures x.EmptyArrayS? || x.ArrayS? ==> ParseValue(c, o, depth) == ParseArray(c, o, depth)
    ensures x.EmptyObjectS? || x.ObjectS? ==> ParseValue(c, o, depth) == ParseObject(c, o, depth)
  {
    ByteAt(c, o, Render(x), 0);
    NotALiteral(c, o, x);
    hide StartsWith, ParseNumber, ParseString, ParseArray, ParseObject, RenderElements, RenderFields, RenderString;
  }

  /** Skipping white space twice is skipping it once, so parse_array's step back in front of the
      first element changes nothing. */
  lemma ElementsFromWhite(c: seq<Byte>, o: nat, depth: nat)
    requires o + 1 < |c| && c[SkipWhite(c, o + 1)] > 32
    ensures ParseElements(c, SkipWhite(c, o + 1) - 1, depth) == ParseElements(c, o, depth)
  {}

  lemma MembersFromWhite(c: seq<Byte>, o: nat, depth: nat)
    requires o + 1 < |c| && c[SkipWhite(c, o + 1)] > 32
    ensures ParseMembers(c, SkipWhite(c, o + 1) - 1, depth) == ParseMembers(c, o, depth)
  {
    hide *;
    WhiteTwice(c, o + 1);
    SameMembers(c, o, SkipWhite(c, o + 1) - 1, depth);
  }

  lemma WhiteTwice(c: seq<Byte>, o: nat)
    requires o < |c| && c[SkipWhite(c, o)] > 32
    ensures SkipWhite(c, SkipWhite(c, o)) == SkipWhite(c, o)
  {}

  lemma SameMembers(c: seq<Byte>, a: nat, b: nat, depth: nat)
    requires a + 1 < |c| && b + 1 < |c| && SkipWhite(c, a + 1) == SkipWhite(c, b + 1)
    ensures ParseMembers(c, a, depth) == ParseMembers(c, b, depth)
  {
    hide SkipWhite, ParseString, ParseValue;
    assert ParseMember(c, a, depth) == ParseMember(c, b, depth);
    hide ParseMember;
  }

  lemma FirstElement(c: seq<Byte>, o: nat, es: seq<Element>)
    requires es != [] && StartsWith(c, o, RenderElements(es) + [RBRACKET])
    requires Taken(es[0].value) || Legible(es[0].value)
    ensures o < |c| && SkipWhite(c, o) < |c| && c[SkipWhite(c, o)] > 32 && c[SkipWhite(c, o)] != RBRACKET
  {
    hide StartsWith, Taken, Legible, Render, SkipWhite;
    var e := es[0];
    var rest := if |es| == 1 then [RBRACKET] else [COMMA] + RenderElements(es[1..]) + [RBRACKET];
    assert RenderElements(es) + [RBRACKET] == RenderElement(e) + rest by { RestOfElements(es, [RBRACKET]); }
    hide RenderElements;
    Assoc4(e.before, Render(e.value), e.after, rest);
    Split(c, o, e.before, Render(e.value) + (e.after + rest));
    Split(c, o + |e.before|, Render(e.value), e.after + rest);
    FirstByte(e.value);
    ByteAt(c, o + |e.before|, Render(e.value), 0);
    WhiteThen(c, o, e.before, o + |e.before|);
  }

  lemma RestOfElements(es: seq<Element>, end: seq<Byte>)
    requires es != []
    ensures RenderElements(es) + end
         == RenderElement(es[0]) + (if |es| == 1 then end else [COMMA] + RenderElements(es[1..]) + end)
  {
    if |es| > 1 {
      hide RenderElement;
      Assoc4(RenderElement(es[0]), [COMMA], RenderElements(es[1..]), end);
      Assoc3([COMMA], RenderElements(es[1..]), end);
    }
  }

  lemma WhiteThen(c: seq<Byte>, o: nat, w: White, q: nat)
    requires StartsWith(c, o, w) && q == o + |w| && q < |c| && c[q] > 32
    ensures SkipWhite(c, o) == q
  {
    SkipsWhite(c, o, w);
  }

  /** One element: white space, the value, white space, and then a byte that is not white space. */
  lemma ElementRead(c: seq<Byte>, o: nat, depth: nat, e: Element, mark: Byte)
    requires Taken(e.value) && StartsWith(c, o, RenderElement(e) + [mark]) && mark > 32 && !NumberByte(mark)
    requires depth + Nesting(e.value) <= CJSON_NESTING_LIMIT
    ensures var p := SkipWhite(c, o); var v := ParseValue(c, p, depth);
            v.Ok? && v.item == Held(Denotes(e.value)) && SkipWhite(c, v.next) == o + |RenderElement(e)|
    ensures o + |RenderElement(e)| < |c| && c[o + |RenderElement(e)|] == mark
    decreases e.value, 2
  {
    hide StartsWith, Taken, Denotes, Nesting, ParseValue, SkipWhite, Render, NumeralEnds;
    var r, t := Render(e.value), e.after + [mark];
    Assoc4(e.before, r, e.after, [mark]);
    Split(c, o, e.before, r + t);
    var p := o + |e.before|;
    Split(c, p, r, t);
    FirstByte(e.value);
    ByteAt(c, p, r, 0);
    WhiteThen(c, o, e.before, p);
    var q := p + |r|;
    Split(c, q, e.after, [mark]);
    ByteAt(c, q + |e.after|, [mark], 0);
    AfterValue(c, q, e.after, mark);
    ValueRead(c, p, depth, e.value);
    WhiteThen(c, q, e.after, q + |e.after|);
  }

  lemma AfterValue(c: seq<Byte>, q: nat, w: White, mark: Byte)
    requires StartsWith(c, q, w + [mark]) && !NumberByte(mark)
    ensures forall n :: NumeralEnds(c, q, n)
  {
    ByteAt(c, q, w + [mark], 0);
  }

  /** parse_array's loop on an element that ends at q, before a bracket or before a comma. */
  lemma ElementsStep(c: seq<Byte>, o: nat, depth: nat, v: Value, q: nat)
    requires o < |c| && q < |c|
    requires var r := ParseValue(c, SkipWhite(c, o + 1), depth); r.Ok? && r.item == v && SkipWhite(c, r.next) == q
    ensures c[q] == RBRACKET ==> ParseElements(c, o, depth) == Ok([v], q + 1)
    ensures c[q] == COMMA ==> var rest := ParseElements(c, q, depth);
              rest.Ok? ==> ParseElements(c, o, depth) == Ok([v] + rest.item, rest.next)
  {}

  lemma HeldElements(es: seq<Element>)
    requires es != []
    ensures var v := Held(Denotes(es[0].value));
            HeldItems(DenotesElements(es)) == [v] + HeldItems(DenotesElements(es[1..]))
            && (|es| == 1 ==> HeldItems(DenotesElements(es)) == [v])
  {
    hide Held, Denotes;
    assert DenotesElements(es)[1..] == DenotesElements(es[1..]);
  }

  lemma HeldFields(fs: seq<Field>)
    requires fs != []
    ensures var m := HeldMember(DenotesField(fs[0]));
            HeldMembers(DenotesFields(fs)) == [m] + HeldMembers(DenotesFields(fs[1..]))
            && (|fs| == 1 ==> HeldMembers(DenotesFields(fs)) == [m])
  {
    hide HeldMember, DenotesField;
    assert DenotesFields(fs)[1..] == DenotesFields(fs[1..]);
  }

  lemma {:induction false} ElementsRead(c: seq<Byte>, o: nat, depth: nat, es: seq<Element>)
    requires es != [] && (forall e | e in es :: Taken(e.value))
    requires StartsWith(c, o + 1, RenderElements(es) + [RBRACKET])
    requires depth + ElementsNesting(es) <= CJSON_NESTING_LIMIT
    ensures ParseElements(c, o, depth) == Ok(HeldItems(DenotesElements(es)), o + 1 + |RenderElements(es)| + 1)
    decreases es, 0
  {
    hide StartsWith, Taken, SkipWhite, RenderElement, ParseElements, ParseValue, Denotes, Held, HeldItems;
    var e := es[0];
    var q := o + 1 + |RenderElement(e)|;
    HeldElements(es);
    if |es| == 1 {
      ElementRead(c, o + 1, depth, e, RBRACKET);
      ElementsStep(c, o, depth, Held(Denotes(e.value)), q);
    } else {
      var rest := RenderElements(es[1..]) + [RBRACKET];
      RestOfElements(es, [RBRACKET]);
      Assoc3([COMMA], RenderElements(es[1..]), [RBRACKET]);
      Assoc3(RenderElement(e), [COMMA], rest);
      Split(c, o + 1, RenderElement(e) + [COMMA], rest);
      ElementRead(c, o + 1, depth, e, COMMA);
      ElementsRead(c, q, depth, es[1..]);
      ElementsStep(c, o, depth, Held(Denotes(e.value)), q);
    }
  }

  lemma FieldRead(c: seq<Byte>, o: nat, depth: nat, f: Field, mark: Byte)
    requires StringTaken(f.name) && Taken(f.value) && StartsWith(c, o + 1, RenderField(f) + [mark])
    requires mark > 32 && !NumberByte(mark) && depth + Nesting(f.value) <= CJSON_NESTING_LIMIT
    ensures o < |c|
    ensures var m := ParseMember(c, o, depth);
            m.Ok? && m.item == HeldMember(DenotesField(f)) && SkipWhite(c, m.next) == o + 1 + |RenderField(f)|
    ensures o + 1 + |RenderField(f)| < |c| && c[o + 1 + |RenderField(f)|] == mark
    decreases f.value, 3
  {
    hide StartsWith, Taken, SkipWhite, ParseValue, ParseString, RenderField, RenderElement, Denotes, Held, Nesting,
         StringTaken;
    var p := FieldName(c, o, f, mark);
    ElementRead(c, p + 1, depth, ValuePart(f), mark);
    MemberStep(c, o, depth, CString(PiecesMeaning(f.name)), p, Held(Denotes(f.value)));
  }

  lemma MemberStep(c: seq<Byte>, o: nat, depth: nat, name: seq<Byte>, p: nat, v: Value)
    requires o + 1 < |c| && p < |c| && c[p] == COLON && SkipWhite(c, o + 1) < |c|
    requires var n := ParseString(c, SkipWhite(c, o + 1)); n.Ok? && n.item == name && SkipWhite(c, n.next) == p
    requires var r := ParseValue(c, SkipWhite(c, p + 1), depth); r.Ok? && r.item == v
    ensures ParseMember(c, o, depth) == Ok(Member(name, v), ParseValue(c, SkipWhite(c, p + 1), depth).next)
  {}

  /** The part of a member behind the colon has the shape of an array element. */
  function ValuePart(f: Field): (e: Element)
    ensures e.value == f.value
  {
    Element(f.beforeValue, f.value, f.after)
  }

  lemma FieldShape(f: Field, end: seq<Byte>)
    ensures RenderField(f) + end
         == f.before + (RenderString(f.name) + (f.afterName + ([COLON] + (RenderElement(ValuePart(f)) + end))))
    ensures |RenderField(f)| == |f.before| + |RenderString(f.name)| + |f.afterName| + 1 + |RenderElement(ValuePart(f))|
  {
    hide Render, RenderString;
    FieldShapeOf(f.before, RenderString(f.name), f.afterName, f.beforeValue, Render(f.value), f.after, end);
  }

  lemma FieldShapeOf(a: seq<Byte>, b: seq<Byte>, c: seq<Byte>, d: seq<Byte>, e: seq<Byte>, f: seq<Byte>, g: seq<Byte>)
    ensures a + b + c + [COLON] + d + e + f + g == a + (b + (c + ([COLON] + (d + e + f + g))))
  {}

  /** The name of a member is read up to the colon at p. */
  lemma FieldName(c: seq<Byte>, o: nat, f: Field, mark: Byte) returns (p: nat)
    requires StringTaken(f.name) && StartsWith(c, o + 1, RenderField(f) + [mark])
    ensures p + 1 + |RenderElement(ValuePart(f))| == o + 1 + |RenderField(f)|
    ensures StartsWith(c, p + 1, RenderElement(ValuePart(f)) + [mark])
    ensures o + 1 < |c|
    ensures SkipWhite(c, o + 1) < |c|
    ensures var n := ParseString(c, SkipWhite(c, o + 1));
            n.Ok? && n.item == CString(PiecesMeaning(f.name)) && SkipWhite(c, n.next) == p
    ensures p < |c| && c[p] == COLON
  {
    hide StartsWith, SkipWhite, RenderField, RenderElement, ParseString;
    FieldShape(f, [mark]);
    p := NameRead(c, o + 1, f.before, f.name, f.afterName, [COLON] + (RenderElement(ValuePart(f)) + [mark]));
    ByteAt(c, p, [COLON] + (RenderElement(ValuePart(f)) + [mark]), 0);
    Split(c, p, [COLON], RenderElement(ValuePart(f)) + [mark]);
    WhiteThen(c, p - |f.afterName|, f.afterName, p);
  }

  /** White space and a quoted string, then white space up to p. */
  lemma NameRead(c: seq<Byte>, o: nat, w: White, ps: seq<Piece>, w': White, t: seq<Byte>) returns (p: nat)
    requires StringTaken(ps) && StartsWith(c, o, w + (RenderString(ps) + (w' + t)))
    ensures p == o + |w| + |RenderString(ps)| + |w'|
    ensures o < |c| && SkipWhite(c, o) < |c|
    ensures ParseString(c, SkipWhite(c, o)) == Ok(CString(PiecesMeaning(ps)), o + |w| + |RenderString(ps)|)
    ensures StartsWith(c, o + |w| + |RenderString(ps)|, w') && StartsWith(c, p, t)
    ensures c[SkipWhite(c, o)] == QUOTE
  {
    hide StartsWith, SkipWhite, ParseString, RenderString, PiecesMeaning, CString, StringTaken;
    var n := RenderString(ps);
    Split(c, o, w, n + (w' + t));
    var a := o + |w|;
    Split(c, a, n, w' + t);
    QuoteAt(c, a, ps);
    WhiteThen(c, o, w, a);
    StringRead(c, a, ps);
    Split(c, a + |n|, w', t);
    p := a + |n| + |w'|;
  }

  lemma QuoteAt(c: seq<Byte>, a: nat, ps: seq<Piece>)
    requires StartsWith(c, a, RenderString(ps))
    ensures a < |c| && c[a] == QUOTE
  {
    ByteAt(c, a, RenderString(ps), 0);
  }

  lemma InBounds(c: seq<Byte>, o: nat, s: seq<Byte>)
    requires StartsWith(c, o, s)
    ensures o + |s| <= |c|
  {}

  lemma FirstField(c: seq<Byte>, o: nat, fs: seq<Field>)
    requires fs != [] && StartsWith(c, o, RenderFields(fs) + [RBRACE])
    ensures o < |c| && SkipWhite(c, o) < |c| && c[SkipWhite(c, o)] == QUOTE
  {
    hide StartsWith, SkipWhite, RenderElement, RenderField, RenderString;
    var f := fs[0];
    var rest := if |fs| == 1 then [RBRACE] else [COMMA] + RenderFields(fs[1..]) + [RBRACE];
    RestOfFields(fs, [RBRACE]);
    FieldShape(f, rest);
    var n, t := RenderString(f.name), f.afterName + ([COLON] + (RenderElement(ValuePart(f)) + rest));
    Split(c, o, f.before, n + t);
    Split(c, o + |f.before|, n, t);
    QuoteAt(c, o + |f.before|, f.name);
    WhiteThen(c, o, f.before, o + |f.before|);
  }

  lemma RestOfFields(fs: seq<Field>, end: seq<Byte>)
    requires fs != []
    ensures RenderFields(fs) + end
         == RenderField(fs[0]) + (if |fs| == 1 then end else [COMMA] + RenderFields(fs[1..]) + end)
  {
    if |fs| > 1 {
      hide RenderField;
      Assoc4(RenderField(fs[0]), [COMMA], RenderFields(fs[1..]), end);
      Assoc3([COMMA], RenderFields(fs[1..]), end);
    }
  }

  lemma MembersStep(c: seq<Byte>, o: nat, depth: nat, m: Member, q: nat)
    requires o < |c| && q < |c|
    requires var r := ParseMember(c, o, depth); r.Ok? && r.item == m && SkipWhite(c, r.next) == q
    ensures c[q] == RBRACE ==> ParseMembers(c, o, depth) == Ok([m], q + 1)
    ensures c[q] == COMMA ==> var rest := ParseMembers(c, q, depth);
              rest.Ok? ==> ParseMembers(c, o, depth) == Ok([m] + rest.item, rest.next)
  {}

  lemma {:induction false} FieldsRead(c: seq<Byte>, o: nat, depth: nat, fs: seq<Field>)
    requires fs != [] && (forall f | f in fs :: StringTaken(f.name) && Taken(f.value))
    requires StartsWith(c, o + 1, RenderFields(fs) + [RBRACE])
    requires depth + FieldsNesting(fs) <= CJSON_NESTING_LIMIT
    ensures ParseMembers(c, o, depth) == Ok(HeldMembers(DenotesFields(fs)), o + 1 + |RenderFields(fs)| + 1)
    decreases fs, 0
  {
    hide StartsWith, Taken, SkipWhite, RenderField, StringTaken, ParseMember, ParseMembers, DenotesField,
         HeldMember, HeldMembers;
    var f := fs[0];
    var q := o + 1 + |RenderField(f)|;
    HeldFields(fs);
    if |fs| == 1 {
      FieldRead(c, o, depth, f, RBRACE);
      MembersStep(c, o, depth, HeldMember(DenotesField(f)), q);
    } else {
      var rest := RenderFields(fs[1..]) + [RBRACE];
      RestOfFields(fs, [RBRACE]);
      Assoc3([COMMA], RenderFields(fs[1..]), [RBRACE]);
      Assoc3(RenderField(f), [COMMA], rest);
      Split(c, o + 1, RenderField(f) + [COMMA], rest);
      FieldRead(c, o, depth, f, COMMA);
      FieldsRead(c, q, depth, fs[1..]);
      MembersStep(c, o, depth, HeldMember(DenotesField(f)), q);
    }
  }

  // ---- texts ----

  /** With only white space, no byte past 32, up to the end, the parser stops on the last byte. */
  lemma {:induction false} SkipToEnd(c: seq<Byte>, o: nat)
    requires o <= |c| && forall i | o <= i < |c| :: c[i] <= 32
    ensures SkipEnd(c, o) == |c|
    decreases |c| - o
  {
    if o < |c| {
      SkipToEnd(c, o + 1);
    }
  }

  lemma AtStart(a: seq<Byte>, b: seq<Byte>, c: seq<Byte>, d: seq<Byte>)
    ensures StartsWith(a + b + c + d, 0, a + (b + (c + d)))
  {
    Assoc4(a, b, c, d);
  }

  lemma NoByteOrderMark(c: seq<Byte>, before: White)
    requires StartsWith(c, 0, before) && |before| < |c| && c[|before|] < 128
    ensures SkipBom(c) == 0
  {
    if before != [] {
      ByteAt(c, 0, before, 0);
    }
  }

  /** Behind the value, the parser skips the white space and the NUL, and steps back onto the NUL. */
  lemma TailOf(c: seq<Byte>, q: nat, w: White)
    requires StartsWith(c, q, w + [0]) && |c| == q + |w| + 1
    ensures SkipWhite(c, q) == q + |w| && c[q + |w|] == 0
  {
    forall i | q <= i < |c| ensures c[i] <= 32 {
      ByteAt(c, q, w + [0], i - q);
    }
    SkipToEnd(c, q);
    ByteAt(c, q, w + [0], |w|);
  }

  /** Where the value and the white space behind it are in the text. */
  lemma TextParts(before: White, x: Syntax, after: White)
    requires Taken(x) || Legible(x)
    ensures var r := Render(x);
            var c := before + r + after + [0];
            && r != [] && |before| < |c| && StartsWith(c, |before|, r) && StartsWith(c, |before| + |r|, after + [0])
            && SkipWhite(c, 0) == |before| && SkipBom(c) == 0
  {
    hide StartsWith, Render, Taken, Legible, SkipWhite, SkipBom;
    var r := Render(x);
    var c := before + r + after + [0];
    FirstByte(x);
    AtStart(before, r, after, [0]);
    Split(c, 0, before, r + (after + [0]));
    Split(c, |before|, r, after + [0]);
    ByteAt(c, |before|, r, 0);
    WhiteThen(c, 0, before, |before|);
    NoByteOrderMark(c, before);
  }

  /** A NUL-terminated JSON text is read for its value: up to the NUL, if the terminator is asked for, and up
      to the end of the value otherwise. */
  lemma TextRead(before: White, x: Syntax, after: White)
    requires Taken(x) && Nesting(x) <= CJSON_NESTING_LIMIT
    ensures var text := before + Render(x) + after;
            && Parse(text + [0], true) == Ok(Held(Denotes(x)), |text|)
            && Parse(text + [0], false) == Ok(Held(Denotes(x)), |before + Render(x)|)
  {
    hide *;
    var r := Render(x);
    var text := before + r + after;
    var c := text + [0];
    TextParts(before, x, after);
    var q := |before| + |r|;
    TailOf(c, q, after);
    NulEndsNumber();
    AfterValue(c, q, after, 0);
    ValueRead(c, |before|, 0, x);
    ParseOutcome(c, |before|, Held(Denotes(x)), q, |text|);
  }

  lemma NulEndsNumber()
    ensures !NumberByte(0)
  {}

  lemma ParseOutcome(c: seq<Byte>, p: nat, v: Value, q: nat, end: nat)
    requires SkipBom(c) == 0 && p < |c| && SkipWhite(c, 0) == p && ParseValue(c, p, 0) == Ok(v, q)
    requires end < |c| && SkipWhite(c, q) == end && c[end] == 0
    ensures Parse(c, true) == Ok(v, end) && Parse(c, false) == Ok(v, q)
  {}
}
