/** A text has one syntax tree at most, among the trees of RFC 8259 and those that the parser takes. So the tree
    tells whether an accepted text is JSON, and whether a JSON text is accepted. */
module JsonUnique {
  import opened Bytes
  import opened Wrappers
  import opened JsonText
  import opened JsonParse
  import opened JsonComplete
  import opened JsonAccepted
  import opened JsonUtf8
  import P = JsonPrint

  lemma SameSlice(c: seq<Byte>, o: nat, a: seq<Byte>, b: seq<Byte>)
    requires StartsWith(c, o, a) && StartsWith(c, o, b) && |a| == |b|
    ensures a == b
  {}

  // ---- strings and numbers ----

  /** The piece that a text of pieces begins with. */
  function PieceIn(t: seq<Byte>): Piece
    requires t != []
  {
    if t[0] != BACKSLASH then Plain(t[0])
    else if |t| == 1 then Cut
    else if t[1] != LOWER_U || |t| < 6 then Short(t[1])
    else if HighSurrogate(HexIn(t, 2).Read()) && LowEscape(t) then Pair(HexIn(t, 2), HexIn(t, 8))
    else Unit(HexIn(t, 2))
  }

  /** Behind the first six bytes stands the escape of the second half of a surrogate pair. */
  predicate LowEscape(t: seq<Byte>) {
    |t| >= 12 && t[6] == BACKSLASH && t[7] == LOWER_U && LowSurrogate(HexIn(t, 8).Read())
  }

  function HexIn(t: seq<Byte>, i: nat): Hex4
    requires i + 4 <= |t|
  {
    Hex4(t[i], t[i + 1], t[i + 2], t[i + 3])
  }

  /** Behind a first half that stands alone there is no second half. */
  lemma NoLowEscape(ps: seq<Piece>)
    requires PiecesLegible(ps) && ps != [] && ps[0].Unit? && HighSurrogate(ps[0].h.Read())
    ensures !LowEscape(RenderPieces(ps))
  {
    var t, rest := RenderPieces(ps), RenderPieces(ps[1..]);
    assert t[6..] == rest;
    if LowEscape(t) {
      assert rest[0] == BACKSLASH && rest[1] == LOWER_U;
      assert HexIn(t, 8) == HexIn(rest, 2);
      SecondPiece(ps);
    }
  }

  lemma SecondPiece(ps: seq<Piece>)
    requires PiecesLegible(ps) && ps != [] && ps[0].Unit? && HighSurrogate(ps[0].h.Read())
    requires var rest := RenderPieces(ps[1..]); |rest| >= 6 && rest[0] == BACKSLASH && rest[1] == LOWER_U
    ensures !LowSurrogate(HexIn(RenderPieces(ps[1..]), 2).Read())
  {
    hide Hex4.Read;
    var x, more := ps[1], RenderPieces(ps[2..]);
    assert ps[1..][0] == x && ps[1..][1..] == ps[2..];
    assert !SplitPair(ps[0], x) && PieceLegible(x);
    match x
    case Plain(b) => assert false;
    case Short(m) => assert false;
    case Cut => assert false;
    case Unit(h) => HexHere(h, more);
    case Pair(h, l) =>
      Assoc3([BACKSLASH, LOWER_U] + h.Text(), [BACKSLASH, LOWER_U], l.Text());
      var u, v := [BACKSLASH, LOWER_U] + h.Text(), [BACKSLASH, LOWER_U] + l.Text();
      Assoc3(u, v, more);
      HexHere(h, v + more);
  }

  lemma HexHere(h: Hex4, rest: seq<Byte>)
    ensures HexIn([BACKSLASH, LOWER_U] + h.Text() + rest, 2) == h
  {
    var t := [BACKSLASH, LOWER_U] + h.Text() + rest;
    assert t[2] == h.a && t[3] == h.b && t[4] == h.c && t[5] == h.d;
  }

  lemma PieceFound(ps: seq<Piece>)
    requires PiecesLegible(ps) && ps != []
    ensures RenderPieces(ps) != [] && PieceIn(RenderPieces(ps)) == ps[0]
  {
    hide Hex4.Read;
    var x, rest := ps[0], RenderPieces(ps[1..]);
    assert PieceLegible(x);
    match x
    case Cut => assert ps[1..] == [];
    case Unit(h) =>
      HexHere(h, rest);
      if HighSurrogate(h.Read()) {
        NoLowEscape(ps);
      }
    case Pair(h, l) => PairFound(h, l, rest);
    case _ =>
  }

  lemma PairFound(h: Hex4, l: Hex4, rest: seq<Byte>)
    requires HighSurrogate(h.Read()) && LowSurrogate(l.Read())
    ensures PieceIn(RenderPiece(Pair(h, l)) + rest) == Pair(h, l)
  {
    hide Hex4.Read, HighSurrogate, LowSurrogate;
    var t := [BACKSLASH, LOWER_U] + h.Text() + [BACKSLASH, LOWER_U] + l.Text() + rest;
    assert t[2] == h.a && t[3] == h.b && t[4] == h.c && t[5] == h.d;
    assert t[8] == l.a && t[9] == l.b && t[10] == l.c && t[11] == l.d;
  }

  lemma LegibleTail(ps: seq<Piece>)
    requires PiecesLegible(ps) && ps != []
    ensures PiecesLegible(ps[1..])
  {
    hide PieceLegible, SplitPair;
    var rest := ps[1..];
    forall i | 0 < i < |rest| ensures !SplitPair(rest[i - 1], rest[i]) {
      assert !SplitPair(ps[i], ps[i + 1]);
    }
  }

  lemma {:induction false} SamePieces(ps: seq<Piece>, qs: seq<Piece>)
    requires PiecesLegible(ps) && PiecesLegible(qs) && RenderPieces(ps) == RenderPieces(qs)
    ensures ps == qs
    decreases |ps|
  {
    hide PieceIn, RenderPiece, PieceLegible, PairsJoined;
    if ps != [] {
      PieceFound(ps);
    }
    if qs != [] {
      PieceFound(qs);
    }
    if ps != [] {
      var n := |RenderPiece(ps[0])|;
      assert RenderPieces(ps)[n..] == RenderPieces(ps[1..]) && RenderPieces(qs)[n..] == RenderPieces(qs[1..]);
      LegibleTail(ps);
      LegibleTail(qs);
      SamePieces(ps[1..], qs[1..]);
      assert ps == [ps[0]] + ps[1..] && qs == [qs[0]] + qs[1..];
    }
  }

  /** The text of a string ends where the first pass over it does. */
  lemma StringSpan(c: seq<Byte>, o: nat, ps: seq<Piece>)
    requires StringLegible(ps) && StartsWith(c, o, RenderString(ps))
    ensures StartsWith(c, o + 1, RenderPieces(ps)) && EndOfString(c, o + 1) == Some(o + 1 + |RenderPieces(ps)|)
  {
    hide StartsWith, Closed, PiecesLegible, RenderPieces, EndOfString;
    var t := RenderPieces(ps);
    Split(c, o, [QUOTE] + t, [QUOTE]);
    Split(c, o, [QUOTE], t);
    InBounds(c, o + 1 + |t|, [QUOTE]);
    ByteAt(c, o + 1 + |t|, [QUOTE], 0);
    EndBehindClosed(c, o + 1, t);
  }

  lemma SameString(c: seq<Byte>, o: nat, ps: seq<Piece>, qs: seq<Piece>)
    requires StringLegible(ps) && StartsWith(c, o, RenderString(ps))
    requires StringLegible(qs) && StartsWith(c, o, RenderString(qs))
    ensures ps == qs
  {
    hide StartsWith, Closed, RenderPieces, PiecesLegible, EndOfString, RenderString;
    StringSpan(c, o, ps);
    StringSpan(c, o, qs);
    SameSlice(c, o + 1, RenderPieces(ps), RenderPieces(qs));
    SamePieces(ps, qs);
  }

  lemma SameNumber(c: seq<Byte>, o: nat, x: Syntax, y: Syntax)
    requires x.NumberS? && ValueHere(c, o, x) && y.NumberS? && ValueHere(c, o, y)
    ensures x == y
  {
    hide NumeralEnds, StartsWith, NumeralTaken, RenderNumeral, Held, Denotes, SpanNumeral, ParseNumber;
    InBounds(c, o, Render(x));
    NumberRead(c, o, x.numeral);
    NumberRead(c, o, y.numeral);
  }

  // ---- values ----

  ghost predicate ValueHere(c: seq<Byte>, o: nat, x: Syntax) {
    Legible(x) && StartsWith(c, o, Render(x)) && (x.NumberS? ==> NumeralEnds(c, o + |Render(x)|, x.numeral))
  }

  /** The first byte tells what kind of value it is. */
  lemma Kind(c: seq<Byte>, o: nat, x: Syntax)
    requires ValueHere(c, o, x)
    ensures o < |c|
    ensures (c[o] == 110 <==> x.NullS?) && (c[o] == 102 <==> x.FalseS?) && (c[o] == 116 <==> x.TrueS?)
    ensures (c[o] == QUOTE <==> x.StringS?) && (c[o] == LBRACKET <==> x.EmptyArrayS? || x.ArrayS?)
    ensures c[o] == LBRACE <==> x.EmptyObjectS? || x.ObjectS?
  {
    hide StartsWith, NumeralEnds, RenderElements, RenderFields, RenderPieces;
    FirstByte(x);
    InBounds(c, o, Render(x));
    ByteAt(c, o, Render(x), 0);
    if x.NumberS? {
      assert x.numeral.digits != [] ==> Digit(x.numeral.digits[0]);
    }
  }

  lemma EmptyKind(c: seq<Byte>, o: nat, open: Byte, w: White, close: Byte)
    requires StartsWith(c, o, [open] + w + [close]) && close > 32
    ensures o + 1 + |w| < |c| && SkipWhite(c, o + 1) == o + 1 + |w| && c[o + 1 + |w|] == close
    ensures StartsWith(c, o + 1, w)
  {
    hide StartsWith, SkipWhite;
    EmptyRead(c, o, open, w, close);
    Bracketed(c, o, open, w, close);
    Split(c, o + 1, w, [close]);
  }

  lemma {:induction false} SameValue(c: seq<Byte>, o: nat, x: Syntax, y: Syntax)
    requires ValueHere(c, o, x) && ValueHere(c, o, y)
    ensures x == y
    decreases x, 1
  {
    Kind(c, o, x);
    Kind(c, o, y);
    hide StartsWith, NumeralEnds, StringLegible, SkipWhite, RenderString, RenderElements, RenderFields;
    if x.StringS? {
      SameString(c, o, x.ps, y.ps);
    } else if x.EmptyArrayS? || x.ArrayS? {
      hide Legible;
      SameArray(c, o, x, y);
    } else if x.EmptyObjectS? || x.ObjectS? {
      hide Legible;
      SameObject(c, o, x, y);
    } else if x.NumberS? {
      SameNumber(c, o, x, y);
    }
  }

  lemma {:induction false} SameArray(c: seq<Byte>, o: nat, x: Syntax, y: Syntax)
    requires ValueHere(c, o, x) && (x.EmptyArrayS? || x.ArrayS?)
    requires ValueHere(c, o, y) && (y.EmptyArrayS? || y.ArrayS?)
    ensures x == y
    decreases x, 0
  {
    hide StartsWith, NumeralEnds, SkipWhite, RenderElements;
    ArrayKind(c, o, x);
    ArrayKind(c, o, y);
    if x.EmptyArrayS? {
      SameSlice(c, o + 1, x.inner, y.inner);
    } else {
      SameElements(c, o + 1, x.elements, y.elements);
    }
  }

  lemma ArrayKind(c: seq<Byte>, o: nat, x: Syntax)
    requires ValueHere(c, o, x) && (x.EmptyArrayS? || x.ArrayS?)
    ensures SkipWhite(c, o + 1) < |c| && (c[SkipWhite(c, o + 1)] == RBRACKET <==> x.EmptyArrayS?)
    ensures x.EmptyArrayS? ==> StartsWith(c, o + 1, x.inner) && SkipWhite(c, o + 1) == o + 1 + |x.inner|
    ensures x.ArrayS? ==> StartsWith(c, o + 1, RenderElements(x.elements) + [RBRACKET])
  {
    hide StartsWith, NumeralEnds, SkipWhite, RenderElements;
    if x.EmptyArrayS? {
      EmptyKind(c, o, LBRACKET, x.inner, RBRACKET);
    } else {
      Bracketed(c, o, LBRACKET, RenderElements(x.elements), RBRACKET);
      FirstElement(c, o + 1, x.elements);
    }
  }

  /** Where the parts of an element are. */
  lemma ElementShape(c: seq<Byte>, o: nat, e: Element, mark: Byte)
    requires Legible(e.value) && StartsWith(c, o, RenderElement(e) + [mark]) && mark > 32 && !NumberByte(mark)
    ensures var p := SkipWhite(c, o);
            && p == o + |e.before| && StartsWith(c, o, e.before) && ValueHere(c, p, e.value)
            && var q := p + |Render(e.value)|;
               StartsWith(c, q, e.after) && SkipWhite(c, q) == q + |e.after| == o + |RenderElement(e)|
               && SkipWhite(c, q) < |c| && c[SkipWhite(c, q)] == mark
  {
    hide StartsWith, Legible, SkipWhite, Render, NumeralEnds;
    var r, t := Render(e.value), e.after + [mark];
    Assoc4(e.before, r, e.after, [mark]);
    Split(c, o, e.before, r + t);
    var p := o + |e.before|;
    Split(c, p, r, t);
    FirstByte(e.value);
    InBounds(c, p, r);
    ByteAt(c, p, r, 0);
    WhiteThen(c, o, e.before, p);
    var q := p + |r|;
    Split(c, q, e.after, [mark]);
    InBounds(c, q + |e.after|, [mark]);
    ByteAt(c, q + |e.after|, [mark], 0);
    AfterValue(c, q, e.after, mark);
    WhiteThen(c, q, e.after, q + |e.after|);
  }

  lemma {:induction false} SameElement(c: seq<Byte>, o: nat, e: Element, mark: Byte, f: Element, mark': Byte)
    requires Legible(e.value) && StartsWith(c, o, RenderElement(e) + [mark]) && mark > 32 && !NumberByte(mark)
    requires Legible(f.value) && StartsWith(c, o, RenderElement(f) + [mark']) && mark' > 32 && !NumberByte(mark')
    ensures e == f && mark == mark'
    decreases e.value, 2
  {
    hide StartsWith, Legible, SkipWhite, Render, ValueHere, RenderElement;
    ElementShape(c, o, e, mark);
    ElementShape(c, o, f, mark');
    SameSlice(c, o, e.before, f.before);
    SameValue(c, SkipWhite(c, o), e.value, f.value);
    SameSlice(c, SkipWhite(c, o) + |Render(e.value)|, e.after, f.after);
  }

  function MarkBehind(n: nat, close: Byte): Byte { if n == 1 then close else COMMA }

  lemma ElementsSplit(c: seq<Byte>, o: nat, es: seq<Element>)
    requires es != [] && StartsWith(c, o, RenderElements(es) + [RBRACKET])
    ensures StartsWith(c, o, RenderElement(es[0]) + [MarkBehind(|es|, RBRACKET)])
    ensures |es| > 1 ==> StartsWith(c, o + |RenderElement(es[0])| + 1, RenderElements(es[1..]) + [RBRACKET])
  {
    hide StartsWith, RenderElement;
    RestOfElements(es, [RBRACKET]);
    if |es| > 1 {
      var r, rest := RenderElement(es[0]), RenderElements(es[1..]) + [RBRACKET];
      Assoc3([COMMA], RenderElements(es[1..]), [RBRACKET]);
      Assoc3(r, [COMMA], rest);
      Split(c, o, r + [COMMA], rest);
    }
  }

  lemma {:induction false} SameElements(c: seq<Byte>, o: nat, es: seq<Element>, fs: seq<Element>)
    requires es != [] && (forall e | e in es :: Legible(e.value)) && StartsWith(c, o, RenderElements(es) + [RBRACKET])
    requires fs != [] && (forall f | f in fs :: Legible(f.value)) && StartsWith(c, o, RenderElements(fs) + [RBRACKET])
    ensures es == fs
    decreases es, 0
  {
    hide StartsWith, Legible, RenderElement, RenderElements;
    ElementsSplit(c, o, es);
    ElementsSplit(c, o, fs);
    SameElement(c, o, es[0], MarkBehind(|es|, RBRACKET), fs[0], MarkBehind(|fs|, RBRACKET));
    if |es| > 1 {
      SameElements(c, o + |RenderElement(es[0])| + 1, es[1..], fs[1..]);
      assert es == [es[0]] + es[1..] && fs == [fs[0]] + fs[1..];
    }
  }

  // ---- objects ----

  lemma {:induction false} SameObject(c: seq<Byte>, o: nat, x: Syntax, y: Syntax)
    requires ValueHere(c, o, x) && (x.EmptyObjectS? || x.ObjectS?)
    requires ValueHere(c, o, y) && (y.EmptyObjectS? || y.ObjectS?)
    ensures x == y
    decreases x, 0
  {
    hide StartsWith, NumeralEnds, SkipWhite, RenderFields, StringLegible;
    ObjectKind(c, o, x);
    ObjectKind(c, o, y);
    if x.EmptyObjectS? {
      SameSlice(c, o + 1, x.inner, y.inner);
    } else {
      SameFields(c, o + 1, x.fields, y.fields);
    }
  }

  lemma ObjectKind(c: seq<Byte>, o: nat, x: Syntax)
    requires ValueHere(c, o, x) && (x.EmptyObjectS? || x.ObjectS?)
    ensures SkipWhite(c, o + 1) < |c| && (c[SkipWhite(c, o + 1)] == RBRACE <==> x.EmptyObjectS?)
    ensures x.EmptyObjectS? ==> StartsWith(c, o + 1, x.inner) && SkipWhite(c, o + 1) == o + 1 + |x.inner|
    ensures x.ObjectS? ==> StartsWith(c, o + 1, RenderFields(x.fields) + [RBRACE])
  {
    hide StartsWith, NumeralEnds, SkipWhite, RenderFields, StringLegible;
    if x.EmptyObjectS? {
      EmptyKind(c, o, LBRACE, x.inner, RBRACE);
    } else {
      Bracketed(c, o, LBRACE, RenderFields(x.fields), RBRACE);
      FirstField(c, o + 1, x.fields);
    }
  }

  /** Where the parts of a name and its colon are. */
  lemma NameShape(c: seq<Byte>, o: nat, f: Field, mark: Byte)
    requires StartsWith(c, o, RenderField(f) + [mark])
    ensures var p := SkipWhite(c, o);
            && p == o + |f.before| && StartsWith(c, o, f.before) && StartsWith(c, p, RenderString(f.name))
            && var q := p + |RenderString(f.name)|;
               StartsWith(c, q, f.afterName) && SkipWhite(c, q) == q + |f.afterName|
               && StartsWith(c, SkipWhite(c, q) + 1, RenderElement(ValuePart(f)) + [mark])
  {
    hide StartsWith, SkipWhite, RenderField, RenderElement, RenderString, StringLegible;
    FieldShape(f, [mark]);
    var n, v := RenderString(f.name), RenderElement(ValuePart(f)) + [mark];
    Split(c, o, f.before, n + (f.afterName + ([COLON] + v)));
    var p := o + |f.before|;
    Split(c, p, n, f.afterName + ([COLON] + v));
    QuoteAt(c, p, f.name);
    WhiteThen(c, o, f.before, p);
    Split(c, p + |n|, f.afterName, [COLON] + v);
    var q := p + |n| + |f.afterName|;
    Split(c, q, [COLON], v);
    InBounds(c, q, [COLON]);
    ByteAt(c, q, [COLON], 0);
    WhiteThen(c, p + |n|, f.afterName, q);
  }

  lemma {:induction false} SameField(c: seq<Byte>, o: nat, f: Field, mark: Byte, g: Field, mark': Byte)
    requires StringLegible(f.name) && Legible(f.value) && StartsWith(c, o, RenderField(f) + [mark])
    requires StringLegible(g.name) && Legible(g.value) && StartsWith(c, o, RenderField(g) + [mark'])
    requires mark > 32 && !NumberByte(mark) && mark' > 32 && !NumberByte(mark')
    ensures f == g && mark == mark'
    decreases f.value, 3
  {
    hide StartsWith, SkipWhite, RenderField, RenderElement, RenderString, StringLegible, Legible;
    NameShape(c, o, f, mark);
    NameShape(c, o, g, mark');
    SameSlice(c, o, f.before, g.before);
    SameString(c, SkipWhite(c, o), f.name, g.name);
    var q := SkipWhite(c, o) + |RenderString(f.name)|;
    SameSlice(c, q, f.afterName, g.afterName);
    SameElement(c, SkipWhite(c, q) + 1, ValuePart(f), mark, ValuePart(g), mark');
  }

  lemma FieldsSplit(c: seq<Byte>, o: nat, fs: seq<Field>)
    requires fs != [] && StartsWith(c, o, RenderFields(fs) + [RBRACE])
    ensures StartsWith(c, o, RenderField(fs[0]) + [MarkBehind(|fs|, RBRACE)])
    ensures |fs| > 1 ==> StartsWith(c, o + |RenderField(fs[0])| + 1, RenderFields(fs[1..]) + [RBRACE])
  {
    hide StartsWith, RenderField;
    RestOfFields(fs, [RBRACE]);
    if |fs| > 1 {
      var r, rest := RenderField(fs[0]), RenderFields(fs[1..]) + [RBRACE];
      Assoc3([COMMA], RenderFields(fs[1..]), [RBRACE]);
      Assoc3(r, [COMMA], rest);
      Split(c, o, r + [COMMA], rest);
    }
  }

  lemma {:induction false} SameFields(c: seq<Byte>, o: nat, fs: seq<Field>, gs: seq<Field>)
    requires fs != [] && (forall f | f in fs :: StringLegible(f.name) && Legible(f.value))
    requires gs != [] && (forall f | f in gs :: StringLegible(f.name) && Legible(f.value))
    requires StartsWith(c, o, RenderFields(fs) + [RBRACE]) && StartsWith(c, o, RenderFields(gs) + [RBRACE])
    ensures fs == gs
    decreases fs, 0
  {
    hide StartsWith, Legible, RenderField, RenderFields, StringLegible;
    FieldsSplit(c, o, fs);
    FieldsSplit(c, o, gs);
    SameField(c, o, fs[0], MarkBehind(|fs|, RBRACE), gs[0], MarkBehind(|gs|, RBRACE));
    if |fs| > 1 {
      SameFields(c, o + |RenderField(fs[0])| + 1, fs[1..], gs[1..]);
      assert fs == [fs[0]] + fs[1..] && gs == [gs[0]] + gs[1..];
    }
  }

  // ---- texts ----

  lemma TextHere(c: seq<Byte>, w: White, x: Syntax, w': White)
    requires Legible(x) && TextShape(c, w, x, w')
    ensures var p := SkipWhite(c, SkipBom(c));
            && p == SkipBom(c) + |w| && StartsWith(c, SkipBom(c), w) && ValueHere(c, p, x)
            && StartsWith(c, p + |Render(x)|, w') && |c| == p + |Render(x)| + |w'| + 1
  {
    hide StartsWith, SkipWhite, Render, NumeralEnds, SkipBom, Legible;
    TextSplit(c, w, x, w');
    var b := SkipBom(c);
    InBounds(c, b + |w|, Render(x));
    WhiteThen(c, b, w, b + |w|);
    var q := b + |w| + |Render(x)|;
    NulEndsNumber();
    AfterValue(c, q, w', 0);
    Split(c, q, w', [0]);
  }

  /** A text has one tree. */
  lemma TextUnique(c: seq<Byte>, w: White, x: Syntax, w': White, v: White, y: Syntax, v': White)
    requires Legible(x) && TextShape(c, w, x, w') && Legible(y) && TextShape(c, v, y, v')
    ensures w == v && x == y && w' == v'
  {
    hide *;
    TextHere(c, w, x, w');
    TextHere(c, v, y, v');
    SameSlice(c, SkipBom(c), w, v);
    SameValue(c, SkipWhite(c, SkipBom(c)), x, y);
    SameSlice(c, SkipWhite(c, SkipBom(c)) + |Render(x)|, w', v');
  }

  /** What a text begins with has one tree, and one end. */
  lemma PrefixUnique(c: seq<Byte>, w: White, x: Syntax, end: nat, v: White, y: Syntax, end': nat)
    requires Legible(x) && PrefixShape(c, w, x, end) && Legible(y) && PrefixShape(c, v, y, end')
    ensures w == v && x == y && end == end'
  {
    hide *;
    PrefixHere(c, w, x, end);
    PrefixHere(c, v, y, end');
    SameSlice(c, SkipBom(c), w, v);
    SameValue(c, SkipWhite(c, SkipBom(c)), x, y);
  }

  lemma PrefixHere(c: seq<Byte>, w: White, x: Syntax, end: nat)
    requires Legible(x) && PrefixShape(c, w, x, end)
    ensures var p := SkipWhite(c, SkipBom(c));
            && p == SkipBom(c) + |w| && StartsWith(c, SkipBom(c), w) && ValueHere(c, p, x) && end == p + |Render(x)|
  {
    PrefixSplit(c, w, x, end);
    hide StartsWith, SkipWhite, Render, NumeralEnds, SkipBom, Legible;
    WhiteThen(c, SkipBom(c), w, SkipBom(c) + |w|);
    SliceStarts(c, SkipBom(c), end, w + Render(x));
    Split(c, SkipBom(c), w, Render(x));
  }

  lemma TextTree(c: seq<Byte>, w: White, x: Syntax, w': White)
    requires TextOf(c, w, x, w')
    ensures Legible(x) && Paired(x) && TextShape(c, w, x, w')
  {
    TakenIff(x);
  }

  lemma PrefixTree(c: seq<Byte>, w: White, x: Syntax, end: nat)
    requires PrefixOf(c, w, x, end)
    ensures Legible(x) && Paired(x) && PrefixShape(c, w, x, end)
  {
    TakenIff(x);
  }

  /** The grammar of RFC 8259 on bytes: a value with white space around it. */
  ghost predicate JsonOf(t: seq<Byte>, w: White, x: Syntax, w': White) {
    WhiteOk(w) && SyntaxOk(x) && WhiteOk(w') && t == w + Render(x) + w'
  }

  lemma JsonIs(t: seq<Byte>, w: White, x: Syntax, w': White)
    requires WhiteOk(w) && SyntaxOk(x) && WhiteOk(w') && t == w + Render(x) + w'
    ensures JsonOf(t, w, x, w')
  {}

  /** RFC 8259: the text is UTF-8 and follows the grammar. A byte from 128 up, which the grammar on bytes lets stand
      in a string, is then part of a character. */
  ghost predicate IsJson(t: seq<Byte>) {
    Utf8Text(t) && exists w: White, x, w': White :: JsonOf(t, w, x, w')
  }

  /** A JSON text is a text of its tree. */
  lemma JsonShape(t: seq<Byte>, w: White, x: Syntax, w': White)
    requires JsonOf(t, w, x, w')
    ensures SkipBom(t + [0]) == 0 && Legible(x) && (Taken(x) <==> Paired(x)) && TextShape(t + [0], w, x, w')
  {
    SyntaxLegible(x);
    SyntaxTaken(x);
    hide SyntaxOk, Legible, Taken, Render, SkipBom;
    TextParts(w, x, w');
    var c := t + [0];
    assert c[0..] == c;
  }

  /** An accepted text is JSON exactly when it is UTF-8, there is no byte order mark, its white space consists of
      blanks, tabs and line ends, and its tree is one of the grammar. */
  lemma JsonIff(t: seq<Byte>, w: White, x: Syntax, w': White)
    requires TextOf(t + [0], w, x, w')
    ensures IsJson(t) <==> Utf8Text(t) && SkipBom(t + [0]) == 0 && WhiteOk(w) && SyntaxOk(x) && WhiteOk(w')
  {
    TextTree(t + [0], w, x, w');
    hide SyntaxOk, Taken, Legible, Paired, Render, SkipBom, WhiteOk, TextOf, Utf8Text;
    if v: White, y, v': White :| JsonOf(t, v, y, v') {
      JsonShape(t, v, y, v');
      TextUnique(t + [0], w, x, w', v, y, v');
    }
    if SkipBom(t + [0]) == 0 && WhiteOk(w) && SyntaxOk(x) && WhiteOk(w') {
      var c := t + [0];
      assert c[0..] == c;
      assert t == c[..|c| - 1] == w + Render(x) + w';
      assert JsonOf(t, w, x, w');
    }
  }

  /** The part of a text that was read is JSON under the same condition. */
  lemma PrefixJsonIff(c: seq<Byte>, w: White, x: Syntax, end: nat)
    requires PrefixOf(c, w, x, end)
    ensures end <= |c|
    ensures IsJson(c[..end]) <==> Utf8Text(c[..end]) && SkipBom(c) == 0 && WhiteOk(w) && SyntaxOk(x)
  {
    PrefixAlone(c, w, x, end);
    hide *;
    JsonIff(c[..end], w, x, []);
    NoWhite();
  }

  lemma NoWhite()
    ensures WhiteOk([])
  {}

  lemma PrefixAlone(c: seq<Byte>, w: White, x: Syntax, end: nat)
    requires PrefixOf(c, w, x, end)
    ensures end <= |c| && SkipBom(c[..end] + [0]) == SkipBom(c) && TextOf(c[..end] + [0], w, x, [])
  {
    PrefixSplit(c, w, x, end);
    FirstByte(x);
    hide Render, Taken, Legible, NumeralEnds, SkipBom;
    BomAlone(c, w + Render(x), end);
    var d := c[..end] + [0];
    assert d[SkipBom(c)..] == c[SkipBom(c)..end] + [0];
    assert w + Render(x) + [] + [0] == w + Render(x) + [0];
  }

  lemma BomAlone(c: seq<Byte>, t: seq<Byte>, end: nat)
    requires SkipBom(c) < end <= |c| && c[SkipBom(c)..end] == t && t[0] < 128
    ensures SkipBom(c[..end] + [0]) == SkipBom(c)
  {
    var d := c[..end] + [0];
    if SkipBom(c) == 3 {
      assert d[..3] == c[..3];
    } else {
      assert d[0] == c[0] == t[0];
    }
  }

  /** A JSON text is accepted exactly when its value is not nested too deeply and no half of a surrogate pair
      stands alone in a string or name. */
  lemma JsonAcceptedIff(t: seq<Byte>, w: White, x: Syntax, w': White)
    requires JsonOf(t, w, x, w')
    ensures Parse(t + [0], true)
         == if Nesting(x) <= CJSON_NESTING_LIMIT && Paired(x) then Ok(Held(Denotes(x)), |t|) else Fail
    ensures Parse(t + [0], false)
         == if Nesting(x) <= CJSON_NESTING_LIMIT && Paired(x) then Ok(Held(Denotes(x)), |w + Render(x)|) else Fail
  {
    hide *;
    var c := t + [0];
    JsonShape(t, w, x, w');
    if Parse(c, true).Ok? {
      var v, y, v' := TextAccepted(c);
      TextTree(c, v, y, v');
      TextUnique(c, w, x, w', v, y, v');
    }
    if Parse(c, false).Ok? {
      var v, y := PrefixAccepted(c);
      PrefixTree(c, v, y, Parse(c, false).next);
      TextPrefix(c, w, x, w');
      PrefixUnique(c, w, x, SkipBom(c) + |w| + |Render(x)|, v, y, Parse(c, false).next);
    }
    if Nesting(x) <= CJSON_NESTING_LIMIT && Paired(x) {
      JsonParts(t, w, x, w');
      TextRead(w, x, w');
    }
  }

  lemma JsonParts(t: seq<Byte>, w: White, x: Syntax, w': White)
    requires JsonOf(t, w, x, w')
    ensures t == w + Render(x) + w'
  {}

  /** The text 1 x is no JSON; asked for the terminator the parser refuses it, and otherwise it reads 1. */
  lemma RestIgnored()
    ensures var t: seq<Byte> := [49, 32, 120];
            Parse(t + [0], false) == Ok(Number(1.0, 1), 1) && Parse(t + [0], true) == Fail && !IsJson(t)
  {
    var t: seq<Byte> := [49, 32, 120];
    var c := t + [0];
    var x := DigitsOnly([49]);
    ReadsOne([49]);
    assert c[0..1] == [] + [49];
    assert SkipBom(c) == 0 && !Digit(32) && PrefixOf(c, [], x, 1);
    PrefixRead(c, [], x, 1);
    NotToEnd(c);
    hide *;
    if IsJson(t) {
      JsonRead(t);
    }
  }

  lemma JsonRead(t: seq<Byte>)
    requires IsJson(t)
    ensures Parse(t + [0], false).Ok? <==> Parse(t + [0], true).Ok?
  {
    hide SyntaxOk, Taken, Legible, Render, Parse, Nesting, WhiteOk, Utf8Text;
    var w: White, x, w': White :| JsonOf(t, w, x, w');
    JsonAcceptedIff(t, w, x, w');
  }

  /** A text begins with its value. */
  lemma TextPrefix(c: seq<Byte>, w: White, x: Syntax, w': White)
    requires Legible(x) && TextShape(c, w, x, w')
    ensures PrefixShape(c, w, x, SkipBom(c) + |w| + |Render(x)|)
  {
    TextSplit(c, w, x, w');
    hide StartsWith, Render, NumeralEnds, SkipBom, Legible;
    var q := SkipBom(c) + |w| + |Render(x)|;
    NulEndsNumber();
    AfterValue(c, q, w', 0);
    Join(c, SkipBom(c), w, Render(x));
    InBounds(c, SkipBom(c), w + Render(x));
    StartsWithIs(c, SkipBom(c), w + Render(x));
  }

  lemma NotToEnd(c: seq<Byte>)
    requires c == [49, 32, 120, 0] && Parse(c, false) == Ok(Number(1.0, 1), 1)
    ensures Parse(c, true) == Fail
  {
    hide ParseValue;
    assert SkipEnd(c, 1) == SkipEnd(c, 2) == 2;
  }

  /** What is accepted although it is not JSON. */
  lemma AcceptedNotJson(w: White, x: Syntax, w': White)
    requires Taken(x) && Nesting(x) <= CJSON_NESTING_LIMIT
    requires !(WhiteOk(w) && SyntaxOk(x) && WhiteOk(w') && Utf8Text(w + Render(x) + w'))
    ensures var t := w + Render(x) + w'; Parse(t + [0], true) == Ok(Held(Denotes(x)), |t|) && !IsJson(t)
  {
    hide *;
    var t := w + Render(x) + w';
    TextRead(w, x, w');
    PlainText(w, x, w');
    JsonIff(t, w, x, w');
  }

  lemma PlainText(w: White, x: Syntax, w': White)
    requires Taken(x)
    ensures TextOf(w + Render(x) + w' + [0], w, x, w')
  {
    hide Taken, Render, SkipBom;
    TextParts(w, x, w');
    var c := w + Render(x) + w' + [0];
    assert c[0..] == c;
  }

  /** The text printed for a value is JSON exactly if every string and name in it is UTF-8. */
  lemma PrintedJsonIff(v: Value, fmt: bool)
    requires P.Printable(v)
    ensures IsJson(P.Text(v, fmt, 0)) <==> StringsUtf8(v)
  {
    hide *;
    var t := P.Text(v, fmt, 0);
    TextUtf8(v, fmt, 0);
    P.PrettyMeaning(v, fmt, 0);
    P.PrettyText(v, fmt, 0);
    NoWhite();
    assert [] + t + [] == t;
    JsonIs(t, [], P.Pretty(v, fmt, 0), []);
    if Utf8Text(t) {
      JsonFound(t, [], P.Pretty(v, fmt, 0), []);
    } else if IsJson(t) {
      JsonIsUtf8(t);
    }
  }

  lemma JsonIsUtf8(t: seq<Byte>)
    requires IsJson(t)
    ensures Utf8Text(t)
  {}

  /** The string of an escape of half a surrogate pair is JSON, and it is refused. */
  lemma HalfPairRefused(h: Hex4)
    requires h.Ok() && Surrogate(h.Code())
    ensures var t := [34, 92, 117, h.a, h.b, h.c, h.d, 34];
            IsJson(t) && Parse(t + [0], true) == Fail && Parse(t + [0], false) == Fail
  {
    var x := StringS([Unit(h)]);
    HalfPairText(h);
    hide *;
    var t := [34, 92, 117, h.a, h.b, h.c, h.d, 34];
    NoWhite();
    assert [] + t + [] == t;
    JsonIs(t, [], x, []);
    EscapeAscii(h);
    JsonFound(t, [], x, []);
    JsonAcceptedIff(t, [], x, []);
  }

  lemma JsonFound(t: seq<Byte>, w: White, x: Syntax, w': White)
    requires JsonOf(t, w, x, w') && Utf8Text(t)
    ensures IsJson(t)
  {}

  lemma EscapeAscii(h: Hex4)
    requires h.Ok()
    ensures Utf8Text([34, 92, 117, h.a, h.b, h.c, h.d, 34])
  {
    AsciiText([34, 92, 117, h.a, h.b, h.c, h.d, 34]);
  }

  lemma HalfPairText(h: Hex4)
    requires h.Ok() && Surrogate(h.Code())
    ensures var x := StringS([Unit(h)]);
            SyntaxOk(x) && !Paired(x) && Render(x) == [34, 92, 117, h.a, h.b, h.c, h.d, 34]
  {
    var ps := [Unit(h)];
    assert RenderPiece(ps[0]) == [92, 117, h.a, h.b, h.c, h.d];
    assert RenderPieces(ps) == RenderPiece(ps[0]) + [] == RenderPiece(ps[0]);
    assert !PiecePaired(ps[0]);
  }

  /** The strings of the escapes ud800 and udc00. */
  lemma LoneSurrogatesRefused()
    ensures forall t | t == [34, 92, 117, 100, 56, 48, 48, 34] || t == [34, 92, 117, 100, 99, 48, 48, 34] ::
              IsJson(t) && Parse(t + [0], true) == Fail && Parse(t + [0], false) == Fail
  {
    assert Hex4(100, 56, 48, 48).Code() == 0xD800 && Hex4(100, 99, 48, 48).Code() == 0xDC00;
    hide IsJson, Parse;
    HalfPairRefused(Hex4(100, 56, 48, 48));
    HalfPairRefused(Hex4(100, 99, 48, 48));
  }

  /** The numeral of some digits. */
  function DigitsOnly(d: seq<Byte>): Syntax { NumberS(Numeral(false, d, None, None)) }

  lemma ReadsOne(d: seq<Byte>)
    requires d == [49] || d == [48, 49]
    ensures var x := DigitsOnly(d); Taken(x) && Render(x) == d && Nesting(x) == 0 && Held(Denotes(x)) == Number(1.0, 1)
    ensures d == [48, 49] ==> !SyntaxOk(DigitsOnly(d))
  {
    DigitsOne(d);
    DigitsRender(d);
    hide *;
    HeldDigits(d);
  }

  lemma DigitsOne(d: seq<Byte>)
    requires d == [49] || d == [48, 49]
    ensures AllDigits(d) && DigitsValue(d) == 1
  {
    hide AllDigits, DigitsValue;
    NoDigitsValue();
    NextDigit([], 49);
    NextDigit([], 48);
    NextDigit([48], 49);
    assert [] + [49] == [49] && [] + [48] == [48] && [48] + [49] == [48, 49];
  }

  lemma DigitsRender(d: seq<Byte>)
    requires d != [] && AllDigits(d)
    ensures var x := DigitsOnly(d); Taken(x) && Render(x) == d && Nesting(x) == 0
    ensures SyntaxOk(DigitsOnly(d)) ==> |d| == 1 || d[0] != 48
  {
    hide AllDigits;
    assert [] + d + [] + [] == d;
  }

  lemma HeldDigits(d: seq<Byte>)
    requires AllDigits(d) && DigitsValue(d) == 1
    ensures Held(Denotes(DigitsOnly(d))) == Number(1.0, 1)
  {
    hide AllDigits, DigitsValue;
    assert d + [] == d;
    assert Power10(0) == 1.0;
  }

  /** A control character in front of a value. */
  lemma ControlSkipped()
    ensures var t: seq<Byte> := [1, 49]; Parse(t + [0], true) == Ok(Number(1.0, 1), 2) && !IsJson(t)
  {
    ReadsOne([49]);
    var w: White := [1];
    assert w[0] == 1 && !WhiteOk(w);
    hide *;
    AcceptedNotJson(w, DigitsOnly([49]), []);
    assert [1] + [49] + [] == [1, 49];
  }

  /** A number with a leading zero. */
  lemma LeadingZeroTaken()
    ensures var t: seq<Byte> := [48, 49]; Parse(t + [0], true) == Ok(Number(1.0, 1), 2) && !IsJson(t)
  {
    ReadsOne([48, 49]);
    hide *;
    AcceptedNotJson([], DigitsOnly([48, 49]), []);
    assert [] + [48, 49] + [] == [48, 49];
  }

  /** A string with a \u escape of four bytes that are no digits: it is read as the empty string. */
  lemma NoHexTaken()
    ensures var t: seq<Byte> := [34, 92, 117, 122, 122, 122, 122, 34];
            Parse(t + [0], true) == Ok(String([]), 8) && !IsJson(t)
  {
    var x := StringS([NO_HEX]);
    NoHexText();
    NoHexRefused();
    hide *;
    AcceptedNotJson([], x, []);
    var t: seq<Byte> := [34, 92, 117, 122, 122, 122, 122, 34];
    assert [] + t + [] == t;
  }

  /** A string of one byte that is no UTF-8. */
  lemma RawByteTaken()
    ensures var t: seq<Byte> := [34, 255, 34]; Parse(t + [0], true) == Ok(String([255]), 3) && !IsJson(t)
  {
    var t: seq<Byte> := [34, 255, 34];
    RawByteText();
    assert t[1..] == [255, 34];
    assert !Utf8Text([255, 34]) && !Utf8Text(t);
    hide *;
    assert [] + t + [] == t;
    AcceptedNotJson([], StringS([Plain(255)]), []);
  }

  lemma RawByteText()
    ensures var x := StringS([Plain(255)]);
            Taken(x) && Nesting(x) == 0 && Render(x) == [34, 255, 34] && Held(Denotes(x)) == String([255])
  {
    var ps := [Plain(255)];
    assert RenderPieces(ps) == [255] + [] == [255];
    assert PiecesMeaning(ps) == [255] + [] == [255];
    CStringWithoutNul([255]);
    ClosedPlain(255, []);
    assert [255] + [] == [255];
  }

  const NO_HEX: Piece := Unit(Hex4(122, 122, 122, 122))

  lemma NoHexText()
    ensures Render(StringS([NO_HEX])) == [34, 92, 117, 122, 122, 122, 122, 34]
    ensures Taken(StringS([NO_HEX])) && Nesting(StringS([NO_HEX])) == 0
  {
    hide Closed;
    assert RenderPiece(NO_HEX) == [92, 117, 122, 122, 122, 122];
    assert RenderPieces([NO_HEX]) == RenderPiece(NO_HEX) + [] == RenderPiece(NO_HEX);
    NoHexClosed();
  }

  lemma NoHexRefused()
    ensures !SyntaxOk(StringS([NO_HEX])) && Held(Denotes(StringS([NO_HEX]))) == String([])
  {
    assert !PieceOk([NO_HEX][0]);
    assert PieceMeaning(NO_HEX) == [0];
    assert PiecesMeaning([NO_HEX]) == [0] + [] == [0];
  }

  lemma NoHexClosed()
    ensures Closed([92, 117, 122, 122, 122, 122])
  {
    var one, two, three: seq<Byte>, four: seq<Byte> := [122], [122, 122], [122, 122, 122], [122, 122, 122, 122];
    ClosedPlain(122, one);
    ClosedPlain(122, two);
    ClosedPlain(122, three);
    ClosedEscape(117, four);
    assert one + one == two && one + two == three && one + three == four;
    assert [92, 117] + four == [92, 117, 122, 122, 122, 122];
  }
}
