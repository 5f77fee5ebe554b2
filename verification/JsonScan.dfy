/** When cJSON_Minify is right on a JSON text. It follows the strings of a text with a scanner that differs from
    RFC 8259 in one place: a backslash that is itself escaped still escapes the quote behind it. So the text is
    minified correctly exactly if both scanners place every blank and every slash alike. */
module JsonScan {
  import opened Bytes
  import opened JsonText
  import opened JsonComplete
  import opened JsonMinify
  import opened JsonCompact
  import opened JsonUnique
  import opened JsonParse
  import P = JsonPrint

  /** Where a byte stands: outside of strings, inside of one, or behind a backslash inside of one. */
  datatype Place = Outside | Inside | Escaped

  /** RFC 8259, section 7: what a backslash escapes is the byte behind it. */
  function Next(r: Place, b: Byte): Place {
    match r
    case Outside => if b == QUOTE then Inside else Outside
    case Inside => if b == QUOTE then Outside else if b == BACKSLASH then Escaped else Inside
    case Escaped => Inside
  }

  /** minify_string: a backslash escapes a quote behind it even if it is escaped itself. */
  function NextSeen(c: Place, b: Byte): Place {
    if c == Escaped && b == BACKSLASH then Escaped else Next(c, b)
  }

  /** Both scanners have each blank and each slash outside of strings, or both have it inside. */
  predicate SeenAlike(s: seq<Byte>, r: Place, c: Place) {
    s == [] || ((Blank(s[0]) || s[0] == SLASH ==> (r == Outside <==> c == Outside))
                && SeenAlike(s[1..], Next(r, s[0]), NextSeen(c, s[0])))
  }

  // ---- the text without the white space that is outside of strings ----

  function After(s: seq<Byte>, r: Place): Place {
    if s == [] then r else After(s[1..], Next(r, s[0]))
  }

  function Compact(s: seq<Byte>, r: Place): seq<Byte> {
    if s == [] then []
    else (if r == Outside && Blank(s[0]) then [] else [s[0]]) + Compact(s[1..], Next(r, s[0]))
  }

  predicate NoSlash(s: seq<Byte>, r: Place) {
    s == [] || (!(r == Outside && s[0] == SLASH) && NoSlash(s[1..], Next(r, s[0])))
  }

  /** From r to r' the scanner of RFC 8259 goes over s, and without the white space outside of strings s is t. */
  ghost predicate Scans(s: seq<Byte>, r: Place, r': Place, t: seq<Byte>) {
    After(s, r) == r' && Compact(s, r) == t && NoSlash(s, r)
  }

  lemma {:induction false} ScansJoin(s: seq<Byte>, r: Place, r1: Place, t: seq<Byte>,
                                     s': seq<Byte>, r2: Place, t': seq<Byte>)
    requires Scans(s, r, r1, t) && Scans(s', r1, r2, t')
    ensures Scans(s + s', r, r2, t + t')
    decreases |s|
  {
    if s == [] {
      assert s + s' == s' && t + t' == t';
    } else {
      var q := Next(r, s[0]);
      ScansJoin(s[1..], q, r1, Compact(s[1..], q), s', r2, t');
      assert (s + s')[1..] == s[1..] + s';
      assert (s + s')[0] == s[0];
      var h := if r == Outside && Blank(s[0]) then [] else [s[0]];
      Assoc3(h, Compact(s[1..], q), t');
    }
  }

  lemma {:induction false} ScansWhite(w: White)
    requires WhiteOk(w)
    ensures Scans(w, Outside, Outside, [])
    decreases |w|
  {
    if w != [] {
      var rest: White := w[1..];
      assert w[0] in {32, 9, 10, 13};
      assert forall i | 0 <= i < |rest| :: rest[i] == w[i + 1];
      ScansWhite(rest);
    }
  }

  lemma {:induction false} ScansTokens(s: seq<Byte>)
    requires forall i | 0 <= i < |s| :: Token(s[i])
    ensures Scans(s, Outside, Outside, s)
    decreases |s|
  {
    if s != [] {
      ScansTokens(s[1..]);
      assert s == [s[0]] + s[1..];
    }
  }

  /** Bytes inside a string. */
  lemma ScansByte(b: Byte)
    requires b != QUOTE && b != BACKSLASH
    ensures Scans([b], Inside, Inside, [b])
  {
    assert [b][1..] == [];
  }

  lemma ScansEscape(b: Byte)
    ensures Scans([BACKSLASH, b], Inside, Inside, [BACKSLASH, b])
  {
    var s := [BACKSLASH, b];
    assert s[1..] == [b] && [b][1..] == [];
    assert After([b], Escaped) == Inside && NoSlash([b], Escaped) && Compact([b], Escaped) == [b];
    assert After(s, Inside) == After(s[1..], Escaped) && NoSlash(s, Inside);
    assert Compact(s, Inside) == [BACKSLASH] + Compact(s[1..], Escaped);
  }

  lemma ScansHex(h: Hex4)
    requires h.Ok()
    ensures Scans([BACKSLASH, LOWER_U] + h.Text(), Inside, Inside, [BACKSLASH, LOWER_U] + h.Text())
  {
    hide Scans;
    var u := [BACKSLASH, LOWER_U];
    ScansEscape(LOWER_U);
    ScansByte(h.a);
    ScansByte(h.b);
    ScansByte(h.c);
    ScansByte(h.d);
    ScansJoin(u, Inside, Inside, u, [h.a], Inside, [h.a]);
    ScansJoin(u + [h.a], Inside, Inside, u + [h.a], [h.b], Inside, [h.b]);
    var v := u + [h.a] + [h.b];
    ScansJoin(v, Inside, Inside, v, [h.c], Inside, [h.c]);
    ScansJoin(v + [h.c], Inside, Inside, v + [h.c], [h.d], Inside, [h.d]);
    assert v + [h.c] + [h.d] == u + h.Text();
  }

  lemma ScansPiece(x: Piece)
    requires PieceOk(x)
    ensures Scans(RenderPiece(x), Inside, Inside, RenderPiece(x))
  {
    hide Scans;
    match x
    case Plain(b) => ScansByte(b);
    case Short(m) => ScansEscape(m);
    case Unit(h) => ScansHex(h);
    case Pair(h, l) =>
      var a, b := [BACKSLASH, LOWER_U] + h.Text(), [BACKSLASH, LOWER_U] + l.Text();
      ScansHex(h);
      ScansHex(l);
      ScansJoin(a, Inside, Inside, a, b, Inside, b);
      Assoc3(a, [BACKSLASH, LOWER_U], l.Text());
  }

  lemma {:induction false} ScansPieces(ps: seq<Piece>)
    requires PiecesOk(ps)
    ensures Scans(RenderPieces(ps), Inside, Inside, RenderPieces(ps))
    decreases |ps|
  {
    hide PieceOk, RenderPiece;
    if ps != [] {
      hide Scans;
      PiecesTail(ps);
      ScansPiece(ps[0]);
      ScansPieces(ps[1..]);
      ScansJoin(RenderPiece(ps[0]), Inside, Inside, RenderPiece(ps[0]),
                RenderPieces(ps[1..]), Inside, RenderPieces(ps[1..]));
    }
  }

  lemma ScansQuote(r: Place, r': Place)
    requires (r == Outside && r' == Inside) || (r == Inside && r' == Outside)
    ensures Scans([QUOTE], r, r', [QUOTE])
  {
    assert [QUOTE][1..] == [];
  }

  lemma ScansString(ps: seq<Piece>)
    requires PiecesOk(ps)
    ensures Scans(RenderString(ps), Outside, Outside, RenderString(ps))
  {
    hide Scans, RenderPieces, PiecesOk;
    var q: seq<Byte> := [QUOTE];
    ScansPieces(ps);
    ScansQuote(Outside, Inside);
    ScansQuote(Inside, Outside);
    ScansJoin(q, Outside, Inside, q, RenderPieces(ps), Inside, RenderPieces(ps));
    ScansJoin(q + RenderPieces(ps), Outside, Inside, q + RenderPieces(ps), q, Outside, q);
  }

  // ---- syntax trees ----

  /** Outside of strings on both sides. */
  ghost predicate Strips(s: seq<Byte>, t: seq<Byte>) { Scans(s, Outside, Outside, t) }

  lemma StripsJoin(s: seq<Byte>, t: seq<Byte>, s': seq<Byte>, t': seq<Byte>)
    requires Strips(s, t) && Strips(s', t')
    ensures Strips(s + s', t + t')
  {
    hide Scans;
    ScansJoin(s, Outside, Outside, t, s', Outside, t');
  }

  lemma TokenStrips(b: Byte)
    requires Token(b)
    ensures Strips([b], [b])
  {
    hide Scans;
    ScansTokens([b]);
  }

  lemma BracketsStrip(open: Byte, s: seq<Byte>, t: seq<Byte>, close: Byte)
    requires Token(open) && Token(close) && Strips(s, t)
    ensures Strips([open] + s + [close], [open] + t + [close])
  {
    hide Strips;
    TokenStrips(open);
    TokenStrips(close);
    StripsJoin([open], [open], s, t);
    StripsJoin([open] + s, [open] + t, [close], [close]);
  }

  lemma SpacedStrips(a: White, s: seq<Byte>, t: seq<Byte>, b: White)
    requires WhiteOk(a) && WhiteOk(b) && Strips(s, t)
    ensures Strips(a + s + b, t)
  {
    ScansWhite(a);
    ScansWhite(b);
    hide Scans;
    StripsJoin(a, [], s, t);
    StripsJoin(a + s, [] + t, b, []);
    assert [] + t + [] == t;
  }

  /** The scanner of RFC 8259 finds the white space of a JSON text. */
  lemma {:induction false} RenderStrips(c: Syntax)
    requires SyntaxOk(c)
    ensures Strips(Render(c), Render(Strip(c)))
    decreases c, 1
  {
    hide Strips, WhiteOk, RenderElements, RenderFields, StripElements, StripFields;
    match c
    case NumberS(n) => NumberStrips(n);
    case StringS(ps) => StringStrips(ps);
    case EmptyArrayS(w) => EmptyStrips(LBRACKET, w, RBRACKET);
    case EmptyObjectS(w) => EmptyStrips(LBRACE, w, RBRACE);
    case ArrayS(es) =>
      ElementsStrip(es);
      BracketsStrip(LBRACKET, RenderElements(es), RenderElements(StripElements(es)), RBRACKET);
    case ObjectS(fs) =>
      FieldsStrip(fs);
      BracketsStrip(LBRACE, RenderFields(fs), RenderFields(StripFields(fs)), RBRACE);
    case _ => LiteralStrips(c);
  }

  lemma StringStrips(ps: seq<Piece>)
    requires PiecesOk(ps)
    ensures Strips(RenderString(ps), RenderString(ps))
  {
    hide Scans, RenderString, PiecesOk;
    ScansString(ps);
  }

  lemma LiteralStrips(c: Syntax)
    requires c.NullS? || c.FalseS? || c.TrueS?
    ensures Strips(Render(c), Render(c))
  {
    hide Scans;
    ScansTokens(Render(c));
  }

  lemma NumberStrips(n: Numeral)
    requires NumeralOk(n)
    ensures Strips(RenderNumeral(n), RenderNumeral(n))
  {
    hide Scans, RenderNumeral, Token;
    var t := RenderNumeral(n);
    forall i | 0 <= i < |t| ensures Token(t[i]) {
      NumeralBytes(n, i);
      NumberToken(t[i]);
    }
    ScansTokens(t);
  }

  lemma EmptyStrips(open: Byte, w: White, close: Byte)
    requires WhiteOk(w) && Token(open) && Token(close)
    ensures Strips([open] + w + [close], [open] + [] + [close])
  {
    ScansWhite(w);
    hide Scans;
    BracketsStrip(open, w, [], close);
  }

  lemma {:induction false} ElementsStrip(es: seq<Element>)
    requires (forall e | e in es :: ElementOk(e)) && es != []
    ensures Strips(RenderElements(es), RenderElements(StripElements(es)))
    decreases es, 0
  {
    hide Strips, Render, Strip, SyntaxOk, RenderElements, StripElements, WhiteOk;
    var e, t := es[0], Render(Strip(es[0].value));
    assert ElementOk(e);
    ElementsText(es);
    RenderStrips(e.value);
    SpacedStrips(e.before, Render(e.value), t, e.after);
    if |es| > 1 {
      ElementsStrip(es[1..]);
      TokenStrips(COMMA);
      StripsJoin(RenderElement(e), t, [COMMA], [COMMA]);
      StripsJoin(RenderElement(e) + [COMMA], t + [COMMA],
                 RenderElements(es[1..]), RenderElements(StripElements(es[1..])));
    }
  }

  lemma {:induction false} FieldsStrip(fs: seq<Field>)
    requires (forall f | f in fs :: FieldOk(f)) && fs != []
    ensures Strips(RenderFields(fs), RenderFields(StripFields(fs)))
    decreases fs, 0
  {
    hide Strips, RenderField, StripField, SyntaxOk, RenderFields, StripFields, WhiteOk, PiecesOk;
    var f, t := fs[0], RenderField(StripField(fs[0]));
    assert FieldOk(f);
    FieldsText(fs);
    RenderStrips(f.value);
    FieldStrips(f);
    if |fs| > 1 {
      FieldsStrip(fs[1..]);
      TokenStrips(COMMA);
      StripsJoin(RenderField(f), t, [COMMA], [COMMA]);
      StripsJoin(RenderField(f) + [COMMA], t + [COMMA], RenderFields(fs[1..]), RenderFields(StripFields(fs[1..])));
    }
  }

  lemma FieldStrips(f: Field)
    requires FieldOk(f) && Strips(Render(f.value), Render(Strip(f.value)))
    ensures Strips(RenderField(f), RenderField(StripField(f)))
  {
    hide Strips, Render, Strip, SyntaxOk, RenderString, RenderField, StripField, WhiteOk, PiecesOk;
    var name, t := RenderString(f.name), Render(Strip(f.value));
    FieldText(f);
    StringStrips(f.name);
    SpacedStrips(f.before, name, name, f.afterName);
    TokenStrips(COLON);
    StripsJoin(f.before + name + f.afterName, name, [COLON], [COLON]);
    SpacedStrips(f.beforeValue, Render(f.value), t, f.after);
    StripsJoin(f.before + name + f.afterName + [COLON], name + [COLON], f.beforeValue + Render(f.value) + f.after, t);
  }

  // ---- cJSON_Minify ----

  /** What cJSON_Minify keeps from p on, when its scanner is at c. */
  function KeptFrom(s: seq<Byte>, p: nat, c: Place): seq<Byte>
    requires p <= |s|
  {
    match c
    case Outside => Minified(s, p)
    case Inside => InString(s, p)
    case Escaped => if p < |s| && s[p] == QUOTE then [QUOTE] + InString(s, p + 1) else InString(s, p)
  }

  lemma KeptFromNext(s: seq<Byte>, p: nat, c: Place)
    requires p < |s| && !(c == Outside && s[p] == SLASH)
    ensures KeptFrom(s, p, c)
         == (if c == Outside && Blank(s[p]) then [] else [s[p]]) + KeptFrom(s, p + 1, NextSeen(c, s[p]))
  {
    hide StringEnd, Minified, InString;
    if c == Outside {
      OutsideNext(s, p);
    } else if c == Inside || s[p] != QUOTE {
      InStringStep(s, p);
    }
  }

  lemma QuoteNoBlank()
    ensures !Blank(QUOTE)
  {}

  lemma OutsideNext(s: seq<Byte>, p: nat)
    requires p < |s| && s[p] != SLASH
    ensures Minified(s, p) == if Blank(s[p]) then Minified(s, p + 1)
                              else [s[p]] + if s[p] == QUOTE then InString(s, p + 1) else Minified(s, p + 1)
  {
    hide StringEnd, Minified, Blank, LineEnd, CommentEnd;
    MinifiedNext(s, p);
    if s[p] == QUOTE {
      assert !Blank(QUOTE) by { QuoteNoBlank(); }
      var e := StringEnd(s, p + 1);
      assert s[p..e] == [s[p]] + s[p + 1..e];
      Joined([s[p]], s[p + 1..e], Minified(s, e));
    }
  }

  lemma InStringStep(s: seq<Byte>, p: nat)
    requires p < |s|
    ensures s[p] == QUOTE ==> InString(s, p) == [QUOTE] + Minified(s, p + 1)
    ensures s[p] == BACKSLASH ==> InString(s, p) == [BACKSLASH] + KeptFrom(s, p + 1, Escaped)
    ensures s[p] != QUOTE && s[p] != BACKSLASH ==> InString(s, p) == [s[p]] + InString(s, p + 1)
  {
    StringEndNext(s, p);
    hide StringEnd, Minified;
    var e := StringEnd(s, p);
    assert s[p..e] == [s[p]] + s[p + 1..e];
    if s[p] == BACKSLASH && p + 1 < |s| && s[p + 1] == QUOTE {
      assert s[p + 1..e] == [QUOTE] + s[p + 2..e];
    }
  }

  /** What is kept outside of strings begins with no blank and no slash. */
  lemma {:induction false} MinifiedBegins(s: seq<Byte>, p: nat)
    requires p <= |s|
    ensures var m := Minified(s, p); m == [] || (!Blank(m[0]) && m[0] != SLASH)
    decreases |s| - p
  {
    if p < |s| {
      MinifiedNext(s, p);
      hide Minified, StringEnd, LineEnd, CommentEnd;
      if Blank(s[p]) {
        MinifiedBegins(s, p + 1);
      } else if s[p] == SLASH {
        if p + 1 < |s| && s[p + 1] == SLASH {
          MinifiedBegins(s, LineEnd(s, p + 2));
        } else if p + 1 < |s| && s[p + 1] == STAR {
          MinifiedBegins(s, CommentEnd(s, p + 2));
        } else {
          MinifiedBegins(s, p + 1);
        }
      }
    }
  }

  lemma {:induction false} CompactBegins(s: seq<Byte>)
    ensures var t := Compact(s, Outside); t == [] || !Blank(t[0])
    decreases |s|
  {
    if s != [] && Blank(s[0]) {
      CompactBegins(s[1..]);
    }
  }

  /** The first blank or slash on which the scanners do not agree makes the results differ. */
  lemma {:induction false} KeptIff(s: seq<Byte>, p: nat, r: Place, c: Place)
    requires p <= |s| && NoSlash(s[p..], r)
    ensures KeptFrom(s, p, c) == Compact(s[p..], r) <==> SeenAlike(s[p..], r, c)
    decreases |s| - p
  {
    var rest := s[p..];
    if p == |s| {
      EndKept(s, c);
    } else {
      var b := s[p];
      assert rest[0] == b && rest[1..] == s[p + 1..];
      if (Blank(b) || b == SLASH) && c == Outside && r != Outside {
        MinifiedBegins(s, p);
        hide Minified;
        assert Compact(rest, r)[0] == b;
      } else {
        hide KeptFrom, Blank;
        KeptFromNext(s, p, c);
        KeptIff(s, p + 1, Next(r, b), NextSeen(c, b));
        if Blank(b) && r == Outside && c != Outside {
          CompactBegins(rest);
          assert KeptFrom(s, p, c)[0] == b;
        } else {
          SameHead(if c == Outside && Blank(b) then [] else [b], KeptFrom(s, p + 1, NextSeen(c, b)),
                   Compact(rest[1..], Next(r, b)));
        }
      }
    }
  }

  lemma SameHead(h: seq<Byte>, t: seq<Byte>, u: seq<Byte>)
    ensures h + t == h + u <==> t == u
  {
    if h + t == h + u {
      assert t == (h + t)[|h|..] == (h + u)[|h|..] == u;
    }
  }

  lemma EndKept(s: seq<Byte>, c: Place)
    ensures KeptFrom(s, |s|, c) == []
  {}

  /** A JSON text is minified to the text of its tree without white space exactly if the scanner of cJSON_Minify
      and that of RFC 8259 agree on which blanks and slashes of it are outside of strings. */
  lemma MinifyTextIff(t: seq<Byte>, a: White, x: Syntax, b: White)
    requires JsonOf(t, a, x, b)
    ensures Minified(t, 0) == Render(Strip(x)) <==> SeenAlike(t, Outside, Outside)
  {
    hide Strips, Minified, SeenAlike, Compact, NoSlash;
    JsonParts(t, a, x, b);
    RenderStrips(x);
    SpacedStrips(a, Render(x), Render(Strip(x)), b);
    StripsIs(t, Render(Strip(x)));
    assert t[0..] == t;
    KeptIff(t, 0, Outside, Outside);
  }

  lemma StripsIs(s: seq<Byte>, t: seq<Byte>)
    requires Strips(s, t)
    ensures Compact(s, Outside) == t && NoSlash(s, Outside)
  {}

  /** When no string is written with an escaped backslash at its end, they agree. */
  lemma CleanSeen(t: seq<Byte>, a: White, x: Syntax, b: White)
    requires JsonOf(t, a, x, b) && Clean(x)
    ensures SeenAlike(t, Outside, Outside)
  {
    MinifyTextIff(t, a, x, b);
    JsonParts(t, a, x, b);
    hide SeenAlike, Minified, Clean, Render, SyntaxOk;
    MinifyText(a, x, b);
  }

  /** The minified text of a JSON text on which they agree is accepted if that is, and parsed for the same value. */
  lemma MinifyKeepsValue(t: seq<Byte>, a: White, x: Syntax, b: White)
    requires JsonOf(t, a, x, b) && SeenAlike(t, Outside, Outside)
    ensures forall terminated: bool ::
              match Parse(t + [0], terminated)
              case Fail => Parse(Minified(t, 0) + [0], terminated) == Fail
              case Ok(v, _) => Parse(Minified(t, 0) + [0], terminated) == Ok(v, |Minified(t, 0)|)
  {
    hide *;
    var m := Render(Strip(x));
    MinifyTextIff(t, a, x, b);
    JsonSyntax(t, a, x, b);
    StripMeaning(x);
    assert m == [] + m + [] && |[] + m| == |m|;
    NoWhite();
    JsonIs(m, [], Strip(x), []);
    JsonAcceptedIff(t, a, x, b);
    JsonAcceptedIff(m, [], Strip(x), []);
  }

  lemma JsonSyntax(t: seq<Byte>, a: White, x: Syntax, b: White)
    requires JsonOf(t, a, x, b)
    ensures SyntaxOk(x)
  {}

  // ---- printed texts ----

  /** For the text of a value, formatted or not: minified it is the unformatted text exactly if they agree on it. */
  lemma MinifyPrintedSeen(v: Value, fmt: bool)
    requires P.Printable(v)
    ensures Minified(P.Text(v, fmt, 0), 0) == P.Text(v, false, 0)
       <==> SeenAlike(P.Text(v, fmt, 0), Outside, Outside)
  {
    hide *;
    var t := P.Text(v, fmt, 0);
    P.PrettyText(v, fmt, 0);
    P.PrettyText(v, false, 0);
    P.PrettyMeaning(v, fmt, 0);
    StripPretty(v, fmt, 0, 0);
    NoWhite();
    assert [] + t + [] == t;
    JsonIs(t, [], P.Pretty(v, fmt, 0), []);
    MinifyTextIff(t, [], P.Pretty(v, fmt, 0), []);
  }

  /** An array of a string of one backslash and a string. */
  function BackslashAnd(s: seq<Byte>): Value { Array([String([BACKSLASH]), String(s)]) }

  /** The unformatted text of two strings, a backslash and a blank: minified it has lost the blank, and so it is
      the text of another value. */
  lemma BlankLost()
    ensures var v, w := BackslashAnd([32]), BackslashAnd([]);
            P.Printable(v) && P.Printable(w) && v != w && Minified(P.Text(v, false, 0), 0) == P.Text(w, false, 0)
  {
    hide P.Text, P.Printable, Minified;
    BackslashText([32]);
    BackslashText([]);
    var v, w := BackslashAnd([32]), BackslashAnd([]);
    assert |v.items[1].s| == 1 && |w.items[1].s| == 0;
    var t: seq<Byte> := [91, 34, 92, 92, 34, 44, 34, 32, 34, 93];
    MinifiedBlank(t);
    assert P.Text(v, false, 0) == t;
    assert P.Text(w, false, 0) == [91, 34, 92, 92, 34, 44, 34, 34, 93];
  }

  lemma BackslashText(s: seq<Byte>)
    requires s == [32] || s == []
    ensures P.Printable(BackslashAnd(s))
    ensures P.Text(BackslashAnd(s), false, 0) == [91, 34, 92, 92, 34, 44, 34] + s + [34, 93]
  {
    BackslashItem();
    BlankItem(s);
    hide P.StringText, P.Printable;
    var a, b: Value := String([BACKSLASH]), String(s);
    assert [a, b][1..] == [b];
    assert P.ItemsText([b], false, 1) == [34] + s + [34];
    assert P.ItemsText([a, b], false, 1) == [34, 92, 92, 34] + [44] + ([34] + s + [34]);
  }

  lemma BackslashItem()
    ensures P.StringText([BACKSLASH]) == [34, 92, 92, 34] && P.Printable(String([BACKSLASH]))
  {
    assert P.PiecesOf([BACKSLASH]) == [Short(BACKSLASH)];
    FirstPiece([Short(BACKSLASH)]);
  }

  lemma BlankItem(s: seq<Byte>)
    requires s == [32] || s == []
    ensures NulFree(s) && P.StringText(s) == [34] + s + [34] && P.Printable(String(s))
  {
    if s == [32] {
      assert P.PiecesOf(s) == [Plain(32)];
      FirstPiece([Plain(32)]);
    }
  }

  lemma MinifiedBlank(t: seq<Byte>)
    requires t == [91, 34, 92, 92, 34, 44, 34, 32, 34, 93]
    ensures Minified(t, 0) == [91, 34, 92, 92, 34, 44, 34, 34, 93]
  {
    hide StringEnd, Minified;
    StringEndNext(t, 2);
    StringEndNext(t, 3);
    StringEndNext(t, 5);
    StringEndNext(t, 6);
    StringEndNext(t, 9);
    StringEndAtEnd(t);
    MinifiedNext(t, 0);
    MinifiedNext(t, 1);
    MinifiedNext(t, 7);
    MinifiedNext(t, 8);
    MinifiedEnd(t);
    assert t[1..7] == [34, 92, 92, 34, 44, 34] && t[8..10] == [34, 93];
  }
}
