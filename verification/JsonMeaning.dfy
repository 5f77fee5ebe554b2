/** What becomes of the meaning of a JSON text (RFC 8259) when the library reads it: a string is cut at its
    first NUL. Beside the number itself, valueint has it without its fraction, or the nearest bound of int. */
module JsonMeaning {
  import opened Bytes
  import opened Wrappers
  import opened JsonText
  import opened JsonParse
  import opened JsonComplete
  import opened JsonUnique
  import P = JsonPrint

  /** The piece denotes a NUL: in a JSON text this is the escape of four zeros. */
  predicate NulPiece(p: Piece) {
    match p
    case Plain(b) => b == 0
    case Unit(h) => h.Read() == 0
    case _ => false
  }

  predicate WithoutNul(ps: seq<Piece>) { forall i | 0 <= i < |ps| :: !NulPiece(ps[i]) }

  predicate IsInt(x: real) { x == x.Floor as real && INT_MIN <= x.Floor <= INT_MAX }

  /** No string or name writes a NUL. */
  predicate WithoutNuls(c: Syntax) {
    match c
    case StringS(ps) => WithoutNul(ps)
    case ArrayS(es) => forall e | e in es :: WithoutNuls(e.value)
    case ObjectS(fs) => forall f | f in fs :: WithoutNul(f.name) && WithoutNuls(f.value)
    case _ => true
  }

  /** Every number is an integer that fits into an int. */
  predicate Integers(c: Syntax) {
    match c
    case NumberS(n) => IsInt(NumeralMeaning(n))
    case ArrayS(es) => forall e | e in es :: Integers(e.value)
    case ObjectS(fs) => forall f | f in fs :: Integers(f.value)
    case _ => true
  }

  lemma PieceNul(p: Piece)
    ensures NulFree(PieceMeaning(p)) <==> !NulPiece(p)
  {
    if NulPiece(p) {
      assert PieceMeaning(p)[0] == 0;
    } else {
      match p
      case Unit(h) => Utf8NulFree(h.Read());
      case Pair(x, y) => Utf8NulFree(PairCode(x.Read(), y.Read()));
      case _ =>
    }
  }

  lemma Utf8NulFree(c: int)
    requires 0 < c <= 0x10FFFF
    ensures NulFree(Utf8(c))
  {}

  lemma NulFreeJoined(a: seq<Byte>, b: seq<Byte>)
    ensures NulFree(a + b) <==> NulFree(a) && NulFree(b)
  {
    if NulFree(a + b) {
      assert forall i | 0 <= i < |a| :: a[i] == (a + b)[i];
      assert forall i | 0 <= i < |b| :: b[i] == (a + b)[|a| + i];
    }
  }

  lemma {:induction false} PiecesNul(ps: seq<Piece>)
    ensures NulFree(PiecesMeaning(ps)) <==> WithoutNul(ps)
    decreases |ps|
  {
    hide PieceMeaning, NulPiece;
    if ps != [] {
      var a, b := PieceMeaning(ps[0]), PiecesMeaning(ps[1..]);
      PieceNul(ps[0]);
      PiecesNul(ps[1..]);
      NulFreeJoined(a, b);
      assert forall i | 0 < i < |ps| :: ps[i] == ps[1..][i - 1];
    }
  }

  lemma StringHeld(ps: seq<Piece>)
    ensures CString(PiecesMeaning(ps)) == PiecesMeaning(ps) <==> WithoutNul(ps)
  {
    PiecesNul(ps);
    if WithoutNul(ps) {
      CStringWithoutNul(PiecesMeaning(ps));
    }
  }

  /** The library holds exactly what the text denotes if and only if no string or name writes a NUL. */
  lemma {:induction false} HeldIff(c: Syntax)
    ensures Held(Denotes(c)) == Denotes(c) <==> WithoutNuls(c)
    decreases c, 1
  {
    hide CString, PiecesMeaning, WithoutNul, NumeralMeaning, ValueInt;
    match c
    case StringS(ps) => StringHeld(ps);
    case ArrayS(es) => HeldElementsIff(es);
    case ObjectS(fs) => HeldFieldsIff(fs);
    case _ =>
  }

  lemma {:induction false} HeldElementsIff(es: seq<Element>)
    ensures HeldItems(DenotesElements(es)) == DenotesElements(es) <==> forall e | e in es :: WithoutNuls(e.value)
    decreases es, 0
  {
    hide Held, Denotes, WithoutNuls;
    if es != [] {
      HeldIff(es[0].value);
      HeldElementsIff(es[1..]);
      HeldElements(es);
      var v, vs := Denotes(es[0].value), DenotesElements(es[1..]);
      assert DenotesElements(es) == [v] + vs;
      OneMore(Held(v), HeldItems(vs), v, vs);
      assert es == [es[0]] + es[1..];
    }
  }

  lemma OneMore<T>(x: T, xs: seq<T>, y: T, ys: seq<T>)
    ensures [x] + xs == [y] + ys <==> x == y && xs == ys
  {
    if [x] + xs == [y] + ys {
      assert ([x] + xs)[0] == x && ([y] + ys)[0] == y;
      assert ([x] + xs)[1..] == xs && ([y] + ys)[1..] == ys;
    }
  }

  lemma {:induction false} HeldFieldsIff(fs: seq<Field>)
    ensures HeldMembers(DenotesFields(fs)) == DenotesFields(fs)
       <==> forall f | f in fs :: WithoutNul(f.name) && WithoutNuls(f.value)
    decreases fs, 0
  {
    hide Held, Denotes, WithoutNuls, WithoutNul, CString, PiecesMeaning;
    if fs != [] {
      HeldIff(fs[0].value);
      StringHeld(fs[0].name);
      HeldFieldsIff(fs[1..]);
      HeldFields(fs);
      var m, ms := DenotesField(fs[0]), DenotesFields(fs[1..]);
      assert DenotesFields(fs) == [m] + ms;
      OneMore(HeldMember(m), HeldMembers(ms), m, ms);
      assert fs == [fs[0]] + fs[1..];
    }
  }

  /** In what is held every number equals its valueint if and only if every number of the text is an integer
      that fits into an int. */
  lemma {:induction false} IntsExactIff(c: Syntax)
    ensures P.IntsExact(Held(Denotes(c))) <==> Integers(c)
    decreases c, 1
  {
    hide CString, PiecesMeaning, NumeralMeaning, ValueInt;
    match c
    case NumberS(n) =>
      P.ValueIntIff(NumeralMeaning(n));
      IntBounds(NumeralMeaning(n));
    case ArrayS(es) => IntElementsIff(es);
    case ObjectS(fs) => IntFieldsIff(fs);
    case _ =>
  }

  lemma IntBounds(x: real)
    ensures INT_MIN <= ValueInt(x) <= INT_MAX
  {}

  lemma {:induction false} IntElementsIff(es: seq<Element>)
    ensures (forall v | v in HeldItems(DenotesElements(es)) :: P.IntsExact(v))
       <==> forall e | e in es :: Integers(e.value)
    decreases es, 0
  {
    hide Held, Denotes, Integers, P.IntsExact;
    if es != [] {
      IntsExactIff(es[0].value);
      IntElementsIff(es[1..]);
      HeldElements(es);
      assert es == [es[0]] + es[1..];
    }
  }

  lemma {:induction false} IntFieldsIff(fs: seq<Field>)
    ensures (forall m | m in HeldMembers(DenotesFields(fs)) :: P.IntsExact(m.value))
       <==> forall f | f in fs :: Integers(f.value)
    decreases fs, 0
  {
    hide Held, Denotes, Integers, P.IntsExact, CString, PiecesMeaning;
    if fs != [] {
      IntsExactIff(fs[0].value);
      IntFieldsIff(fs[1..]);
      HeldFields(fs);
      assert fs == [fs[0]] + fs[1..];
    }
  }

  /** In a JSON text a NUL is written as the escape of four zeros. */
  lemma NulEscape(p: Piece)
    requires PieceOk(p)
    ensures NulPiece(p) <==> p == Unit(Hex4(48, 48, 48, 48))
  {}

  /** A JSON text is parsed for the value it denotes, and up to its end, if and only if it is nested within the
      limit, no half of a surrogate pair stands alone and no string or name in it has the escape of four zeros;
      and every valueint is the number itself if and only if every number is an integer that fits into an int.
      Without the terminator being asked for, it is the same value. */
  lemma MeaningRead(t: seq<Byte>, before: White, x: Syntax, after: White)
    requires JsonOf(t, before, x, after)
    ensures var r := Parse(t + [0], true);
            && (r.Ok? <==> Nesting(x) <= CJSON_NESTING_LIMIT && Paired(x))
            && (r == Ok(Denotes(x), |t|) <==> Nesting(x) <= CJSON_NESTING_LIMIT && Paired(x) && WithoutNuls(x))
            && (r.Ok? ==> (P.IntsExact(r.item) <==> Integers(x)))
            && Parse(t + [0], false) == (if r.Ok? then Ok(r.item, |before + Render(x)|) else Fail)
  {
    hide *;
    JsonAcceptedIff(t, before, x, after);
    HeldIff(x);
    IntsExactIff(x);
  }

  /** The string a\u0000b is read as the string a. */
  lemma NulLost()
    ensures var x := StringS([Plain(97), Unit(Hex4(48, 48, 48, 48)), Plain(98)]);
            SyntaxOk(x) && Denotes(x) == String([97, 0, 98])
            && Parse(Render(x) + [0], true) == Ok(String([97]), |Render(x)|)
  {
    var nul := Unit(Hex4(48, 48, 48, 48));
    var ps := [Plain(97), nul, Plain(98)];
    var x := StringS(ps);
    assert PieceMeaning(nul) == [0];
    assert ps[1..] == [nul, Plain(98)] && ps[1..][1..] == [Plain(98)];
    assert PiecesMeaning([Plain(98)]) == [98];
    assert PiecesMeaning(ps[1..]) == [0, 98];
    assert PiecesMeaning(ps) == [97, 0, 98];
    assert CString([97, 0, 98]) == [97] by {
      CStringUpTo([97], [98]);
      CStringWithoutNul([97]);
      assert [97] + [0] + [98] == [97, 0, 98];
    }
    ReadAlone(x);
  }

  /** The valueint of 2147483648 is 2147483647. */
  lemma BigNumberAsInt()
    ensures var x := NumberS(Numeral(false, BIG_DIGITS, None, None));
            SyntaxOk(x) && Parse(Render(x) + [0], true) == Ok(Number(2147483648.0, 2147483647), 10)
  {
    BigDigits();
    var d := BIG_DIGITS;
    assert d + [] == d;
    ReadAlone(NumberS(Numeral(false, d, None, None)));
  }

  const BIG_DIGITS: seq<Byte> := [50, 49, 52, 55, 52, 56, 51, 54, 52, 56]

  lemma BigDigits()
    ensures AllDigits(BIG_DIGITS) && DigitsValue(BIG_DIGITS) == 2147483648
  {
    hide AllDigits, DigitsValue;
    var e: seq<Byte> := [50, 49, 52, 55, 52];
    FiveDigits(50, 49, 52, 55, 52);
    FiveMore(e, 56, 51, 54, 52, 56);
    assert e + [56, 51, 54, 52, 56] == BIG_DIGITS;
  }

  /** The valueint of 1.5 is 1, and that of 1.5e1 is 15. */
  lemma FractionAsInt()
    ensures var x := NumberS(Numeral(false, [49], Some([53]), None));
            SyntaxOk(x) && Parse(Render(x) + [0], true) == Ok(Number(1.5, 1), 3)
    ensures var x := NumberS(Numeral(false, [49], Some([53]), Some(Exponent(101, [], [49]))));
            SyntaxOk(x) && Parse(Render(x) + [0], true) == Ok(Number(15.0, 15), 5)
  {
    TwoDigits();
    var n := Numeral(false, [49], Some([53]), None);
    var m := Numeral(false, [49], Some([53]), Some(Exponent(101, [], [49])));
    hide DigitsValue, AllDigits;
    assert n.digits + n.fraction.value == [49, 53];
    assert NumeralMeaning(n) == 15.0 * Power10(-1) == 1.5;
    assert NumeralMeaning(m) == 15.0 * Power10(0) == 15.0;
    ReadAlone(NumberS(n));
    ReadAlone(NumberS(m));
  }

  lemma TwoDigits()
    ensures AllDigits([49]) && AllDigits([53]) && AllDigits([49, 53])
    ensures DigitsValue([49]) == 1 && DigitsValue([49, 53]) == 15
  {
    hide AllDigits, DigitsValue;
    NoDigitsValue();
    NextDigit([], 49);
    NextDigit([], 53);
    NextDigit([49], 53);
    assert [] + [49] == [49] && [] + [53] == [53] && [49] + [53] == [49, 53];
  }

  lemma FiveMore(d: seq<Byte>, a: Byte, b: Byte, c: Byte, e: Byte, f: Byte)
    requires AllDigits(d) && Digit(a) && Digit(b) && Digit(c) && Digit(e) && Digit(f)
    ensures AllDigits(d + [a, b, c, e, f])
    ensures DigitsValue(d + [a, b, c, e, f])
         == DigitsValue(d) * 10_0000 + (a - 48) * 1_0000 + (b - 48) * 1000 + (c - 48) * 100 + (e - 48) * 10 + (f - 48)
  {
    hide AllDigits, DigitsValue;
    NextDigit(d, a);
    NextDigit(d + [a], b);
    NextDigit(d + [a] + [b], c);
    NextDigit(d + [a] + [b] + [c], e);
    NextDigit(d + [a] + [b] + [c] + [e], f);
    assert d + [a] + [b] + [c] + [e] + [f] == d + [a, b, c, e, f];
  }

  lemma FiveDigits(a: Byte, b: Byte, c: Byte, e: Byte, f: Byte)
    requires Digit(a) && Digit(b) && Digit(c) && Digit(e) && Digit(f)
    ensures AllDigits([a, b, c, e, f])
    ensures DigitsValue([a, b, c, e, f])
         == (a - 48) * 1_0000 + (b - 48) * 1000 + (c - 48) * 100 + (e - 48) * 10 + (f - 48)
  {
    FiveMore([], a, b, c, e, f);
    assert [] + [a, b, c, e, f] == [a, b, c, e, f];
  }

  /** A text without white space around it. */
  lemma ReadAlone(x: Syntax)
    requires SyntaxOk(x) && Paired(x) && Nesting(x) == 0
    ensures Parse(Render(x) + [0], true) == Ok(Held(Denotes(x)), |Render(x)|)
  {
    hide *;
    SyntaxTaken(x);
    TextRead([], x, []);
    assert [] + Render(x) + [] == Render(x);
  }
}
