/** What cJSON_Minify makes of a JSON text: the text without its white space. In particular it turns
    the formatted text of a value into its unformatted text. */
module JsonCompact {
  import opened Bytes
  import opened JsonText
  import opened JsonParse
  import opened JsonComplete
  import opened JsonMinify
  import P = JsonPrint

  // ---- removing the white space from a syntax tree ----

  function Strip(c: Syntax): Syntax
    decreases c, 1
  {
    match c
    case EmptyArrayS(_) => EmptyArrayS([])
    case EmptyObjectS(_) => EmptyObjectS([])
    case ArrayS(es) => ArrayS(StripElements(es))
    case ObjectS(fs) => ObjectS(StripFields(fs))
    case _ => c
  }

  function StripElements(es: seq<Element>): (r: seq<Element>)
    ensures |r| == |es|
    decreases es, 0
  {
    if es == [] then [] else [Element([], Strip(es[0].value), [])] + StripElements(es[1..])
  }

  function StripField(f: Field): Field
    decreases f, 2
  {
    Field([], f.name, [], [], Strip(f.value), [])
  }

  function StripFields(fs: seq<Field>): (r: seq<Field>)
    ensures |r| == |fs|
    decreases fs, 0
  {
    if fs == [] then [] else [StripField(fs[0])] + StripFields(fs[1..])
  }

  /** No string or name is written with an escaped backslash at its end. */
  predicate Clean(c: Syntax) {
    match c
    case StringS(ps) => !EndsInBackslash(ps)
    case ArrayS(es) => forall e | e in es :: Clean(e.value)
    case ObjectS(fs) => forall f | f in fs :: !EndsInBackslash(f.name) && Clean(f.value)
    case _ => true
  }

  /** Without its white space a text denotes the same value. */
  lemma {:induction false} StripMeaning(c: Syntax)
    requires SyntaxOk(c)
    ensures SyntaxOk(Strip(c)) && Denotes(Strip(c)) == Denotes(c) && Nesting(Strip(c)) == Nesting(c)
    ensures Paired(Strip(c)) <==> Paired(c)
    decreases c, 1
  {
    match c
    case ArrayS(es) => StripElementsMeaning(es);
    case ObjectS(fs) => StripFieldsMeaning(fs);
    case _ =>
  }

  lemma {:induction false} StripElementsMeaning(es: seq<Element>)
    requires forall e | e in es :: ElementOk(e)
    ensures forall e | e in StripElements(es) :: ElementOk(e)
    ensures DenotesElements(StripElements(es)) == DenotesElements(es)
    ensures ElementsNesting(StripElements(es)) == ElementsNesting(es)
    ensures (forall e | e in StripElements(es) :: Paired(e.value)) <==> forall e | e in es :: Paired(e.value)
    decreases es, 0
  {
    hide Strip, SyntaxOk, Denotes, Nesting, Paired;
    if es != [] {
      assert ElementOk(es[0]);
      StripMeaning(es[0].value);
      StripElementsMeaning(es[1..]);
      assert StripElements(es)[1..] == StripElements(es[1..]);
      assert es == [es[0]] + es[1..];
    }
  }

  lemma {:induction false} StripFieldsMeaning(fs: seq<Field>)
    requires forall f | f in fs :: FieldOk(f)
    ensures forall f | f in StripFields(fs) :: FieldOk(f)
    ensures DenotesFields(StripFields(fs)) == DenotesFields(fs)
    ensures FieldsNesting(StripFields(fs)) == FieldsNesting(fs)
    ensures (forall f | f in StripFields(fs) :: PiecesPaired(f.name) && Paired(f.value))
       <==> forall f | f in fs :: PiecesPaired(f.name) && Paired(f.value)
    decreases fs, 0
  {
    hide Strip, SyntaxOk, Denotes, Nesting, PiecesOk, Paired, PiecesPaired;
    if fs != [] {
      assert FieldOk(fs[0]);
      StripMeaning(fs[0].value);
      StripFieldsMeaning(fs[1..]);
      assert StripFields(fs)[1..] == StripFields(fs[1..]);
      assert fs == [fs[0]] + fs[1..];
    }
  }

  // ---- pieces of text ----

  /** Of the n bytes at p, cJSON_Minify keeps t, and then goes on behind them. */
  ghost predicate Keeps(s: seq<Byte>, p: nat, n: nat, t: seq<Byte>) {
    p + n <= |s| && Minified(s, p) == t + Minified(s, p + n)
  }

  lemma KeepsJoin(s: seq<Byte>, p: nat, n: nat, t: seq<Byte>, m: nat, u: seq<Byte>)
    requires Keeps(s, p, n, t) && Keeps(s, p + n, m, u)
    ensures Keeps(s, p, n + m, t + u)
  {
    hide Minified;
    assert t + (u + Minified(s, p + n + m)) == t + u + Minified(s, p + n + m);
  }

  lemma {:induction false} WhiteDropped(s: seq<Byte>, p: nat, w: White)
    requires StartsWith(s, p, w) && WhiteOk(w)
    ensures Keeps(s, p, |w|, [])
    decreases |w|
  {
    hide StartsWith, Minified, Keeps;
    InBounds(s, p, w);
    if w == [] {
      NothingKept(s, p);
    } else {
      ByteAt(s, p, w, 0);
      assert w == [w[0]] + w[1..];
      Split(s, p, [w[0]], w[1..]);
      WhiteDropped(s, p + 1, w[1..]);
      ByteDropped(s, p);
      var none: seq<Byte> := [];
      KeepsJoin(s, p, 1, none, |w| - 1, none);
      assert none + none == none;
    }
  }

  lemma NothingKept(s: seq<Byte>, p: nat)
    requires p <= |s|
    ensures Keeps(s, p, 0, [])
  {
    hide Minified;
    assert [] + Minified(s, p) == Minified(s, p);
  }

  lemma ByteDropped(s: seq<Byte>, p: nat)
    requires p < |s| && Blank(s[p])
    ensures Keeps(s, p, 1, [])
  {
    MinifiedNext(s, p);
    hide Minified;
    assert [] + Minified(s, p + 1) == Minified(s, p + 1);
  }

  lemma ByteKept(s: seq<Byte>, p: nat)
    requires p < |s| && Token(s[p])
    ensures Keeps(s, p, 1, [s[p]])
  {
    MinifiedNext(s, p);
    hide Minified;
  }

  predicate Token(b: Byte) { !Blank(b) && b != SLASH && b != QUOTE }

  lemma {:induction false} TokenKept(s: seq<Byte>, p: nat, t: seq<Byte>)
    requires StartsWith(s, p, t) && forall i | 0 <= i < |t| :: Token(t[i])
    ensures Keeps(s, p, |t|, t)
    decreases |t|
  {
    hide StartsWith, Minified, Keeps, Token;
    InBounds(s, p, t);
    if t == [] {
      NothingKept(s, p);
    } else {
      ByteAt(s, p, t, 0);
      assert t == [t[0]] + t[1..];
      Split(s, p, [t[0]], t[1..]);
      TokenKept(s, p + 1, t[1..]);
      ByteKept(s, p);
      KeepsJoin(s, p, 1, [t[0]], |t| - 1, t[1..]);
    }
  }

  lemma StringKept(s: seq<Byte>, p: nat, ps: seq<Piece>)
    requires PiecesOk(ps) && !EndsInBackslash(ps) && StartsWith(s, p, RenderString(ps))
    ensures Keeps(s, p, |RenderString(ps)|, RenderString(ps))
  {
    hide *;
    StringParts(s, p, ps);
    StringStops(s, p + 1, ps);
    WholeStringKept(s, p, p + |RenderString(ps)|);
  }

  lemma StringParts(s: seq<Byte>, p: nat, ps: seq<Piece>)
    requires StartsWith(s, p, RenderString(ps))
    ensures |RenderString(ps)| == |RenderPieces(ps)| + 2
    ensures p + |RenderString(ps)| <= |s| && s[p..p + |RenderString(ps)|] == RenderString(ps)
    ensures s[p] == QUOTE && StartsWith(s, p + 1, RenderPieces(ps) + [QUOTE])
  {
    hide RenderPieces;
    Assoc3([QUOTE], RenderPieces(ps), [QUOTE]);
    Split(s, p, [QUOTE], RenderPieces(ps) + [QUOTE]);
    ByteAt(s, p, [QUOTE], 0);
  }

  lemma WholeStringKept(s: seq<Byte>, p: nat, e: nat)
    requires p < e <= |s| && s[p] == QUOTE && StringEnd(s, p + 1) == e
    ensures Keeps(s, p, e - p, s[p..e])
  {
    MinifiedNext(s, p);
    hide Minified, StringEnd;
  }

  // ---- whole texts ----

  lemma {:induction false} RenderKept(s: seq<Byte>, p: nat, c: Syntax)
    requires SyntaxOk(c) && Clean(c) && StartsWith(s, p, Render(c))
    ensures Keeps(s, p, |Render(c)|, Render(Strip(c)))
    decreases c, 1
  {
    hide StartsWith, Keeps;
    match c
    case NumberS(n) =>
      hide *;
      NumberKept(s, p, n);
    case StringS(ps) =>
      hide RenderString;
      StringKept(s, p, ps);
    case EmptyArrayS(w) => EmptyKept(s, p, LBRACKET, w, RBRACKET);
    case EmptyObjectS(w) => EmptyKept(s, p, LBRACE, w, RBRACE);
    case ArrayS(es) =>
      ArrayKept(s, p, es);
    case ObjectS(fs) =>
      ObjectKept(s, p, fs);
    case _ =>
      hide *;
      LiteralKept(s, p, c);
  }

  lemma {:induction false} ArrayKept(s: seq<Byte>, p: nat, es: seq<Element>)
    requires (forall e | e in es :: ElementOk(e) && Clean(e.value)) && es != []
    requires StartsWith(s, p, Render(ArrayS(es)))
    ensures Keeps(s, p, |Render(ArrayS(es))|, Render(Strip(ArrayS(es))))
    decreases ArrayS(es), 0
  {
    hide StartsWith, Keeps, RenderElements, StripElements, SyntaxOk, Clean;
    SplitBrackets(s, p, LBRACKET, RenderElements(es), RBRACKET);
    ElementsKept(s, p + 1, es);
    BracketsKept(s, p, LBRACKET, |RenderElements(es)|, RenderElements(StripElements(es)), RBRACKET);
  }

  lemma {:induction false} ObjectKept(s: seq<Byte>, p: nat, fs: seq<Field>)
    requires forall f | f in fs :: FieldOk(f) && !EndsInBackslash(f.name) && Clean(f.value)
    requires fs != [] && StartsWith(s, p, Render(ObjectS(fs)))
    ensures Keeps(s, p, |Render(ObjectS(fs))|, Render(Strip(ObjectS(fs))))
    decreases ObjectS(fs), 0
  {
    hide StartsWith, Keeps, RenderFields, StripFields, SyntaxOk, Clean, PiecesOk, EndsInBackslash;
    SplitBrackets(s, p, LBRACE, RenderFields(fs), RBRACE);
    FieldsKept(s, p + 1, fs);
    BracketsKept(s, p, LBRACE, |RenderFields(fs)|, RenderFields(StripFields(fs)), RBRACE);
  }

  lemma LiteralKept(s: seq<Byte>, p: nat, c: Syntax)
    requires (c.NullS? || c.FalseS? || c.TrueS?) && StartsWith(s, p, Render(c))
    ensures Keeps(s, p, |Render(c)|, Render(Strip(c)))
  {
    hide StartsWith, Keeps;
    TokenKept(s, p, Render(c));
  }

  lemma SplitBrackets(s: seq<Byte>, p: nat, open: Byte, t: seq<Byte>, close: Byte)
    requires StartsWith(s, p, [open] + t + [close])
    ensures StartsWith(s, p, [open]) && StartsWith(s, p + 1, t) && StartsWith(s, p + 1 + |t|, [close])
  {
    Split(s, p, [open] + t, [close]);
    Split(s, p, [open], t);
  }

  lemma NumberKept(s: seq<Byte>, p: nat, n: Numeral)
    requires SyntaxOk(NumberS(n)) && StartsWith(s, p, Render(NumberS(n)))
    ensures Keeps(s, p, |Render(NumberS(n))|, Render(Strip(NumberS(n))))
  {
    hide StartsWith, Keeps, RenderNumeral, Token;
    var t := Render(NumberS(n));
    forall i | 0 <= i < |t| ensures Token(t[i]) {
      NumeralBytes(n, i);
      NumberToken(t[i]);
    }
    TokenKept(s, p, t);
  }

  lemma NumberToken(b: Byte)
    requires NumberByte(b)
    ensures Token(b)
  {}

  lemma BracketsKept(s: seq<Byte>, p: nat, open: Byte, n: nat, t: seq<Byte>, close: Byte)
    requires StartsWith(s, p, [open]) && Keeps(s, p + 1, n, t) && StartsWith(s, p + 1 + n, [close])
    requires Token(open) && Token(close)
    ensures Keeps(s, p, n + 2, [open] + t + [close])
  {
    hide StartsWith, Keeps;
    TokenKept(s, p, [open]);
    TokenKept(s, p + 1 + n, [close]);
    KeepsJoin(s, p, 1, [open], n, t);
    KeepsJoin(s, p, 1 + n, [open] + t, 1, [close]);
  }

  lemma EmptyKept(s: seq<Byte>, p: nat, open: Byte, w: White, close: Byte)
    requires WhiteOk(w) && StartsWith(s, p, [open] + w + [close]) && Token(open) && Token(close)
    ensures Keeps(s, p, |w| + 2, [open] + [] + [close])
  {
    hide StartsWith, Keeps;
    Split(s, p, [open] + w, [close]);
    Split(s, p, [open], w);
    WhiteDropped(s, p + 1, w);
    BracketsKept(s, p, open, |w|, [], close);
  }

  /** A value with white space around it. */
  lemma {:induction false} ElementKept(s: seq<Byte>, p: nat, a: White, c: Syntax, b: White)
    requires SyntaxOk(c) && Clean(c) && WhiteOk(a) && WhiteOk(b) && StartsWith(s, p, a + Render(c) + b)
    ensures Keeps(s, p, |a + Render(c) + b|, Render(Strip(c)))
    decreases c, 2
  {
    hide StartsWith, Keeps, Render, Strip;
    var r, t := Render(c), Render(Strip(c));
    Split(s, p, a + r, b);
    Split(s, p, a, r);
    WhiteDropped(s, p, a);
    RenderKept(s, p + |a|, c);
    WhiteDropped(s, p + |a| + |r|, b);
    KeepsJoin(s, p, |a|, [], |r|, t);
    KeepsJoin(s, p, |a| + |r|, [] + t, |b|, []);
    assert [] + t + [] == t;
  }

  lemma {:induction false} ElementsKept(s: seq<Byte>, p: nat, es: seq<Element>)
    requires (forall e | e in es :: ElementOk(e) && Clean(e.value)) && es != []
    requires StartsWith(s, p, RenderElements(es))
    ensures Keeps(s, p, |RenderElements(es)|, RenderElements(StripElements(es)))
    decreases es, 0
  {
    hide StartsWith, Keeps, Render, Strip, SyntaxOk, Clean, RenderElements, StripElements;
    var e := es[0];
    var r, t := RenderElement(e), Render(Strip(e.value));
    ElementsText(es);
    if |es| == 1 {
      ElementKept(s, p, e.before, e.value, e.after);
    } else {
      var rest := RenderElements(es[1..]);
      var more := RenderElements(StripElements(es[1..]));
      Split(s, p, r + [COMMA], rest);
      Split(s, p, r, [COMMA]);
      ElementKept(s, p, e.before, e.value, e.after);
      ElementsKept(s, p + |r| + 1, es[1..]);
      TokenKept(s, p + |r|, [COMMA]);
      KeepsJoin(s, p, |r|, t, 1, [COMMA]);
      KeepsJoin(s, p, |r| + 1, t + [COMMA], |rest|, more);
    }
  }

  lemma ElementsText(es: seq<Element>)
    requires es != []
    ensures var t := Render(Strip(es[0].value));
            if |es| == 1 then RenderElements(es) == RenderElement(es[0]) && RenderElements(StripElements(es)) == t
            else RenderElements(es) == RenderElement(es[0]) + [COMMA] + RenderElements(es[1..])
                 && RenderElements(StripElements(es)) == t + [COMMA] + RenderElements(StripElements(es[1..]))
  {
    hide Render, Strip;
    var r := StripElements(es);
    assert r[1..] == StripElements(es[1..]);
    assert RenderElement(r[0]) == Render(Strip(es[0].value));
  }

  lemma FieldsText(fs: seq<Field>)
    requires fs != []
    ensures var t := RenderField(StripField(fs[0]));
            if |fs| == 1 then RenderFields(fs) == RenderField(fs[0]) && RenderFields(StripFields(fs)) == t
            else RenderFields(fs) == RenderField(fs[0]) + [COMMA] + RenderFields(fs[1..])
                 && RenderFields(StripFields(fs)) == t + [COMMA] + RenderFields(StripFields(fs[1..]))
  {
    hide RenderField, StripField;
    assert StripFields(fs)[1..] == StripFields(fs[1..]);
  }

  lemma {:induction false} FieldKept(s: seq<Byte>, p: nat, f: Field)
    requires FieldOk(f) && !EndsInBackslash(f.name) && Clean(f.value) && StartsWith(s, p, RenderField(f))
    ensures Keeps(s, p, |RenderField(f)|, RenderField(StripField(f)))
    decreases f.value, 3
  {
    hide StartsWith, Keeps, RenderField, Render, Strip, RenderString, SyntaxOk, Clean, EndsInBackslash, PiecesOk;
    var name, v := RenderString(f.name), f.beforeValue + Render(f.value) + f.after;
    FieldText(f);
    Split(s, p, f.before + name + f.afterName + [COLON], v);
    Split(s, p, f.before + name + f.afterName, [COLON]);
    Split(s, p, f.before + name, f.afterName);
    Split(s, p, f.before, name);
    NameKept(s, p, f.before, f.name, f.afterName);
    var n := |f.before| + |name| + |f.afterName| + 1;
    ElementKept(s, p + n, f.beforeValue, f.value, f.after);
    KeepsJoin(s, p, n, name + [COLON], |v|, Render(Strip(f.value)));
  }

  lemma FieldText(f: Field)
    ensures RenderField(f) == f.before + RenderString(f.name) + f.afterName + [COLON]
                              + (f.beforeValue + Render(f.value) + f.after)
    ensures RenderField(StripField(f)) == RenderString(f.name) + [COLON] + Render(Strip(f.value))
  {
    hide RenderString, Render, Strip;
    FieldTextOf(f.before + RenderString(f.name) + f.afterName + [COLON], f.beforeValue, Render(f.value), f.after);
    assert [] + RenderString(f.name) + [] + [COLON] + [] + Render(Strip(f.value)) + []
        == RenderString(f.name) + [COLON] + Render(Strip(f.value));
  }

  lemma FieldTextOf(a: seq<Byte>, b: seq<Byte>, c: seq<Byte>, d: seq<Byte>)
    ensures a + b + c + d == a + (b + c + d)
  {}

  lemma NameKept(s: seq<Byte>, p: nat, a: White, ps: seq<Piece>, b: White)
    requires PiecesOk(ps) && !EndsInBackslash(ps) && WhiteOk(a) && WhiteOk(b) && StartsWith(s, p, a)
    requires var q := p + |a|; StartsWith(s, q, RenderString(ps)) && StartsWith(s, q + |RenderString(ps)|, b)
                               && StartsWith(s, q + |RenderString(ps)| + |b|, [COLON])
    ensures Keeps(s, p, |a| + |RenderString(ps)| + |b| + 1, RenderString(ps) + [COLON])
  {
    hide StartsWith, Keeps, RenderString, EndsInBackslash, PiecesOk;
    var t := RenderString(ps);
    WhiteDropped(s, p, a);
    StringKept(s, p + |a|, ps);
    WhiteDropped(s, p + |a| + |t|, b);
    TokenKept(s, p + |a| + |t| + |b|, [COLON]);
    KeepsJoin(s, p, |a|, [], |t|, t);
    KeepsJoin(s, p, |a| + |t|, [] + t, |b|, []);
    KeepsJoin(s, p, |a| + |t| + |b|, [] + t + [], 1, [COLON]);
    assert [] + t + [] == t;
  }

  lemma {:induction false} FieldsKept(s: seq<Byte>, p: nat, fs: seq<Field>)
    requires forall f | f in fs :: FieldOk(f) && !EndsInBackslash(f.name) && Clean(f.value)
    requires fs != [] && StartsWith(s, p, RenderFields(fs))
    ensures Keeps(s, p, |RenderFields(fs)|, RenderFields(StripFields(fs)))
    decreases fs, 0
  {
    hide StartsWith, Keeps, RenderField, StripField, SyntaxOk, Clean, EndsInBackslash, PiecesOk,
         RenderFields, StripFields;
    var f := fs[0];
    var r, t := RenderField(f), RenderField(StripField(f));
    FieldsText(fs);
    if |fs| == 1 {
      FieldKept(s, p, f);
    } else {
      var rest := RenderFields(fs[1..]);
      var more := RenderFields(StripFields(fs[1..]));
      Split(s, p, r + [COMMA], rest);
      Split(s, p, r, [COMMA]);
      FieldKept(s, p, f);
      FieldsKept(s, p + |r| + 1, fs[1..]);
      TokenKept(s, p + |r|, [COMMA]);
      KeepsJoin(s, p, |r|, t, 1, [COMMA]);
      KeepsJoin(s, p, |r| + 1, t + [COMMA], |rest|, more);
    }
  }

  /** A JSON text is minified to the text of its stripped syntax tree. */
  lemma MinifyText(a: White, c: Syntax, b: White)
    requires WhiteOk(a) && SyntaxOk(c) && Clean(c) && WhiteOk(b)
    ensures Minified(a + Render(c) + b, 0) == Render(Strip(c))
  {
    hide Render, Strip, Minified;
    var s := a + Render(c) + b;
    WholeText(s);
    ElementKept(s, 0, a, c, b);
    MinifiedEnd(s);
    assert Render(Strip(c)) + [] == Render(Strip(c));
  }

  lemma WholeText(s: seq<Byte>)
    ensures StartsWith(s, 0, s)
  {}

  // ---- printed texts ----

  /** No string or name of the value ends with a backslash. */
  predicate NoTrailingBackslash(v: Value) {
    match v
    case String(s) => !EndsWithBackslash(s)
    case Array(items) => forall x | x in items :: NoTrailingBackslash(x)
    case Object(members) => forall m | m in members :: !EndsWithBackslash(m.name) && NoTrailingBackslash(m.value)
    case _ => true
  }

  predicate EndsWithBackslash(s: seq<Byte>) { s != [] && s[|s| - 1] == BACKSLASH }

  lemma {:induction false} PiecesEnd(s: seq<Byte>)
    requires NulFree(s)
    ensures EndsInBackslash(P.PiecesOf(s)) <==> EndsWithBackslash(s)
    decreases |s|
  {
    if s != [] {
      PiecesEnd(s[1..]);
    }
  }

  /** The formatted syntax tree without its white space is the unformatted one, whose text does not
      depend on the depth, and it is clean when no string ends with a backslash. */
  lemma {:induction false} StripPretty(v: Value, fmt: bool, d: nat, d': nat)
    requires P.Printable(v)
    ensures Strip(P.Pretty(v, fmt, d)) == P.Pretty(v, false, d')
    ensures Clean(P.Pretty(v, fmt, d)) <==> NoTrailingBackslash(v)
    decreases v, 1
  {
    hide P.PrettyItems, P.PrettyMembers, StripElements, StripFields, P.PiecesOf, EndsInBackslash, EndsWithBackslash;
    match v
    case String(s) => PiecesEnd(s);
    case Array(items) =>
      if items != [] {
        StripPrettyItems(items, fmt, d + 1, d' + 1, []);
      }
    case Object(members) =>
      if members != [] {
        StripPrettyMembers(members, fmt, d + 1, d' + 1);
      }
    case _ =>
  }

  lemma {:induction false} StripPrettyItems(items: seq<Value>, fmt: bool, d: nat, d': nat, w: White)
    requires forall x | x in items :: P.Printable(x)
    ensures StripElements(P.PrettyItems(items, fmt, d, w)) == P.PrettyItems(items, false, d', [])
    ensures (forall e | e in P.PrettyItems(items, fmt, d, w) :: Clean(e.value))
       <==> (forall x | x in items :: NoTrailingBackslash(x))
    decreases items, 0
  {
    hide P.Pretty, Strip, Clean, NoTrailingBackslash, P.Printable;
    if items != [] {
      var es := P.PrettyItems(items, fmt, d, w);
      StripPretty(items[0], fmt, d, d');
      StripPrettyItems(items[1..], fmt, d, d', P.Gap(fmt));
      assert es[1..] == P.PrettyItems(items[1..], fmt, d, P.Gap(fmt));
      assert es == [es[0]] + es[1..];
      assert items == [items[0]] + items[1..];
    }
  }

  lemma {:induction false} StripPrettyMembers(ms: seq<Member>, fmt: bool, d: nat, d': nat)
    requires (forall m | m in ms :: NulFree(m.name) && P.Printable(m.value)) && d > 0 && d' > 0
    ensures StripFields(P.PrettyMembers(ms, fmt, d)) == P.PrettyMembers(ms, false, d')
    ensures (forall f | f in P.PrettyMembers(ms, fmt, d) :: !EndsInBackslash(f.name) && Clean(f.value))
       <==> (forall m | m in ms :: !EndsWithBackslash(m.name) && NoTrailingBackslash(m.value))
    decreases ms, 0
  {
    hide P.Pretty, Strip, Clean, NoTrailingBackslash, P.Printable, NulFree, EndsInBackslash, EndsWithBackslash;
    if ms != [] {
      var fs := P.PrettyMembers(ms, fmt, d);
      StripPretty(ms[0].value, fmt, d, d');
      PiecesEnd(ms[0].name);
      StripPrettyMembers(ms[1..], fmt, d, d');
      assert fs[1..] == P.PrettyMembers(ms[1..], fmt, d);
      assert fs == [fs[0]] + fs[1..];
      assert ms == [ms[0]] + ms[1..];
    }
  }

  /** Minifying what was printed, formatted or not, gives the unformatted text, if no string or name ends
      with a backslash. */
  lemma MinifyPrinted(v: Value, fmt: bool)
    requires P.Printable(v) && NoTrailingBackslash(v)
    ensures Minified(P.Text(v, fmt, 0), 0) == P.Text(v, false, 0)
  {
    hide P.Text, P.Pretty, Minified, Strip, Clean, NoTrailingBackslash, P.Printable;
    P.PrettyText(v, fmt, 0);
    P.PrettyText(v, false, 0);
    P.PrettyMeaning(v, fmt, 0);
    StripPretty(v, fmt, 0, 0);
    var t := P.Text(v, fmt, 0);
    assert [] + t + [] == t;
    MinifyText([], P.Pretty(v, fmt, 0), []);
  }

  /** An array whose first item is a string of one backslash. */
  function Backslashes(): Value { Array([String([BACKSLASH]), Null]) }

  const BACKSLASHES_TEXT: seq<Byte> := [91, 34, 92, 92, 34, 44, 32, 110, 117, 108, 108, 93]

  lemma BackslashesText(fmt: bool)
    ensures P.Printable(Backslashes())
    ensures P.Text(Backslashes(), fmt, 0)
         == [91, 34, 92, 92, 34, 44] + (if fmt then [32] else []) + [110, 117, 108, 108, 93]
  {
    var s: Value := String([BACKSLASH]);
    assert P.PiecesOf([BACKSLASH]) == [Short(BACKSLASH)];
    FirstPiece([Short(BACKSLASH)]);
    assert P.Text(s, fmt, 1) == [34, 92, 92, 34];
    var items := [s, Null];
    assert items[1..] == [Null];
    assert P.ItemsText([Null], fmt, 1) == NULL_TEXT;
    assert P.ItemsText(items, fmt, 1) == [34, 92, 92, 34] + P.ItemSeparator(fmt) + NULL_TEXT;
  }

  /** With a backslash at the end of a string the minified text may still contain white space: here
      cJSON_Minify takes the closing quote for an escaped one and keeps the rest as it is. */
  lemma TrailingBackslashSpoils()
    ensures P.Printable(Backslashes())
    ensures Minified(P.Text(Backslashes(), true, 0), 0) != P.Text(Backslashes(), false, 0)
  {
    hide P.Text, StringEnd, Minified, P.Printable;
    BackslashesText(true);
    BackslashesText(false);
    NoQuoteLeft();
    KeptToEnd(BACKSLASHES_TEXT);
    assert P.Text(Backslashes(), true, 0) == BACKSLASHES_TEXT;
    assert |P.Text(Backslashes(), false, 0)| < |BACKSLASHES_TEXT|;
  }

  /** A string that is never closed is kept to the end of the text. */
  lemma KeptToEnd(t: seq<Byte>)
    requires |t| >= 2 && t[0] == 91 && t[1] == QUOTE && StringEnd(t, 2) == |t|
    ensures Minified(t, 0) == t
  {
    hide StringEnd, Minified;
    MinifiedNext(t, 0);
    MinifiedNext(t, 1);
    MinifiedEnd(t);
    assert [t[0]] + (t[1..] + []) == t;
  }

  lemma NoQuoteLeft()
    ensures StringEnd(BACKSLASHES_TEXT, 2) == 12
  {
    var t := BACKSLASHES_TEXT;
    assert StringEnd(t, 2) == StringEnd(t, 3) == StringEnd(t, 5);
    assert StringEnd(t, 5) == StringEnd(t, 6) == StringEnd(t, 7) == StringEnd(t, 8);
    assert StringEnd(t, 8) == StringEnd(t, 9) == StringEnd(t, 10) == StringEnd(t, 11) == StringEnd(t, 12) == 12;
  }
}
