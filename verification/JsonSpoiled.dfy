/** When cJSON_Minify is right on the formatted text of a value. minify_string takes the closing quote of
    a string that ends with a backslash for an escaped one, and goes on as if inside the string; whether
    that does harm depends on what follows the string. */
module JsonSpoiled {
  import opened Bytes
  import opened JsonText
  import opened JsonParse
  import opened JsonComplete
  import opened JsonMinify
  import opened JsonCompact
  import P = JsonPrint

  /** Behind every string or name that ends with a backslash come nothing but closing brackets. */
  predicate Safe(v: Value) {
    match v
    case Array(items) => items == [] || SafeItems(items)
    case Object(_) => NoTrailingBackslash(v)
    case _ => true
  }

  predicate SafeItems(items: seq<Value>)
    requires items != []
  {
    (forall x | x in items[..|items| - 1] :: NoTrailingBackslash(x)) && Safe(items[|items| - 1])
  }

  // ---- inside a string that was not left ----

  /** Of the n bytes at p, cJSON_Minify keeps t, and then it goes on as if inside a string. */
  ghost predicate Sticks(s: seq<Byte>, p: nat, n: nat, t: seq<Byte>) {
    p + n <= |s| && Minified(s, p) == t + InString(s, p + n)
  }

  /** Two texts differ at a place that both have. */
  ghost predicate Clash(m: seq<Byte>, t: seq<Byte>) {
    exists k :: 0 <= k < |m| && k < |t| && m[k] != t[k]
  }

  lemma ClashAt(m: seq<Byte>, t: seq<Byte>, k: nat)
    requires k < |m| && k < |t| && m[k] != t[k]
    ensures Clash(m, t)
  {}

  lemma ClashBehind(a: seq<Byte>, m: seq<Byte>, t: seq<Byte>, b: seq<Byte>)
    requires Clash(m, t)
    ensures Clash(a + m, a + t + b)
  {
    var k :| 0 <= k < |m| && k < |t| && m[k] != t[k];
    assert (a + m)[|a| + k] == m[k] && (a + t + b)[|a| + k] == t[k];
  }

  lemma ClashDiffers(m: seq<Byte>, t: seq<Byte>)
    requires Clash(m, t)
    ensures m != t
  {}

  /** Behind n bytes that were kept as a comes a clash. */
  lemma KeptClash(s: seq<Byte>, p: nat, n: nat, a: seq<Byte>, t: seq<Byte>, b: seq<Byte>)
    requires Keeps(s, p, n, a) && Clash(Minified(s, p + n), t)
    ensures Clash(Minified(s, p), a + t + b)
  {
    ClashBehind(a, Minified(s, p + n), t, b);
  }

  lemma KeptSticks(s: seq<Byte>, p: nat, n: nat, a: seq<Byte>, m: nat, t: seq<Byte>)
    requires Keeps(s, p, n, a) && Sticks(s, p + n, m, t)
    ensures Sticks(s, p, n + m, a + t)
  {
    hide Minified, InString;
    assert a + (t + InString(s, p + n + m)) == a + t + InString(s, p + n + m);
  }

  predicate Dull(b: Byte) { b != QUOTE && b != BACKSLASH }

  lemma SticksOn(s: seq<Byte>, p: nat, n: nat, t: seq<Byte>)
    requires Sticks(s, p, n, t) && p + n < |s| && Dull(s[p + n])
    ensures Sticks(s, p, n + 1, t + [s[p + n]])
  {
    InStringNext(s, p + n);
    hide Minified, InString;
    assert t + ([s[p + n]] + InString(s, p + n + 1)) == t + [s[p + n]] + InString(s, p + n + 1);
  }

  /** White space that is kept stands where something else should. */
  lemma SticksClash(s: seq<Byte>, p: nat, n: nat, t: seq<Byte>, b: seq<Byte>)
    requires Sticks(s, p, n, t) && p + n < |s| && Blank(s[p + n]) && b != [] && b[0] > 32
    ensures Clash(Minified(s, p), t + b)
  {
    InStringNext(s, p + n);
    hide Minified, InString;
    ClashAt(Minified(s, p), t + b, |t|);
  }

  // ---- strings and values ----

  lemma StringSticks(s: seq<Byte>, p: nat, ps: seq<Piece>)
    requires PiecesOk(ps) && EndsInBackslash(ps) && StartsWith(s, p, RenderString(ps))
    ensures Sticks(s, p, |RenderString(ps)|, RenderString(ps))
  {
    hide *;
    StringParts(s, p, ps);
    StringRunsOn(s, p + 1, ps);
    WholeStringSticks(s, p, p + |RenderString(ps)|);
  }

  lemma WholeStringSticks(s: seq<Byte>, p: nat, q: nat)
    requires p < q <= |s| && s[p] == QUOTE && StringEnd(s, p + 1) == StringEnd(s, q)
    ensures Sticks(s, p, q - p, s[p..q])
  {
    MinifiedNext(s, p);
    hide Minified, StringEnd;
    var e := StringEnd(s, q);
    assert s[p..e] == s[p..q] + s[q..e];
    Joined(s[p..q], s[q..e], Minified(s, e));
  }

  /** minify_string walks over the closing quote of a string that ends with an escaped backslash. */
  lemma {:induction false} StringRunsOn(s: seq<Byte>, q: nat, ps: seq<Piece>)
    requires PiecesOk(ps) && EndsInBackslash(ps) && StartsWith(s, q, RenderPieces(ps) + [QUOTE])
    ensures q + |RenderPieces(ps)| + 1 <= |s| && StringEnd(s, q) == StringEnd(s, q + |RenderPieces(ps)| + 1)
    decreases |ps|
  {
    hide StringEnd, StartsWith, RenderPieces, PieceOk;
    InBounds(s, q, RenderPieces(ps) + [QUOTE]);
    var x, rest := ps[0], RenderPieces(ps[1..]);
    FirstPiece(ps);
    Assoc3(RenderPiece(x), rest, [QUOTE]);
    if |ps| > 1 {
      Split(s, q, RenderPiece(x), rest + [QUOTE]);
      NotBeforeQuote(s, q + |RenderPiece(x)|, ps[1..]);
      PieceWalked(s, q, x);
      StringRunsOn(s, q + |RenderPiece(x)|, ps[1..]);
    } else {
      EscapedBackslashLast(s, q);
    }
  }

  lemma StringTextSticks(s: seq<Byte>, p: nat, t: seq<Byte>)
    requires NulFree(t) && EndsWithBackslash(t) && StartsWith(s, p, P.StringText(t))
    ensures Sticks(s, p, |P.StringText(t)|, P.StringText(t))
  {
    PiecesEnd(t);
    hide EndsInBackslash, Sticks, StartsWith, RenderString, P.PiecesOf;
    StringSticks(s, p, P.PiecesOf(t));
  }

  lemma StringTextKept(s: seq<Byte>, p: nat, t: seq<Byte>)
    requires NulFree(t) && !EndsWithBackslash(t) && StartsWith(s, p, P.StringText(t))
    ensures Keeps(s, p, |P.StringText(t)|, P.StringText(t))
  {
    PiecesEnd(t);
    hide EndsInBackslash, Keeps, StartsWith, RenderString, P.PiecesOf;
    StringKept(s, p, P.PiecesOf(t));
  }

  lemma TextKept(s: seq<Byte>, p: nat, v: Value, d: nat)
    requires P.Printable(v) && NoTrailingBackslash(v) && StartsWith(s, p, P.Text(v, true, d))
    ensures Keeps(s, p, |P.Text(v, true, d)|, P.Text(v, false, d))
  {
    hide *;
    P.PrettyText(v, true, d);
    P.PrettyText(v, false, d);
    P.PrettyMeaning(v, true, d);
    StripPretty(v, true, d, d);
    RenderKept(s, p, P.Pretty(v, true, d));
  }

  lemma TextBegins(v: Value, d: nat)
    requires P.Printable(v)
    ensures var t := P.Text(v, false, d); t != [] && t[0] > 32
  {
    hide *;
    P.PrettyText(v, false, d);
    P.PrettyMeaning(v, false, d);
    SyntaxTaken(P.Pretty(v, false, d));
    FirstByte(P.Pretty(v, false, d));
  }

  /** The formatted text of a value in which a string or name ends with a backslash: at the end
      cJSON_Minify takes itself to be inside a string, or it has kept white space. */
  lemma {:induction false} ValueOutcome(s: seq<Byte>, p: nat, v: Value, d: nat)
    requires P.Printable(v) && !NoTrailingBackslash(v) && StartsWith(s, p, P.Text(v, true, d))
    ensures Safe(v) ==> Sticks(s, p, |P.Text(v, true, d)|, P.Text(v, false, d))
    ensures !Safe(v) ==> Clash(Minified(s, p), P.Text(v, false, d))
    decreases v, 1
  {
    hide StartsWith, Sticks, Clash, Minified, P.StringText, EndsWithBackslash, P.ItemsText, P.MembersText, SafeItems;
    match v
    case String(t) => StringTextSticks(s, p, t);
    case Array(items) => ArrayOutcome(s, p, items, d);
    case Object(members) => ObjectOutcome(s, p, members, d);
    case _ =>
  }

  ghost predicate AllClean(items: seq<Value>) { forall x | x in items :: NoTrailingBackslash(x) }

  lemma {:induction false} ArrayOutcome(s: seq<Byte>, p: nat, items: seq<Value>, d: nat)
    requires (forall x | x in items :: P.Printable(x)) && items != [] && !AllClean(items)
    requires StartsWith(s, p, [LBRACKET] + P.ItemsText(items, true, d + 1) + [RBRACKET])
    ensures var t := [LBRACKET] + P.ItemsText(items, false, d + 1) + [RBRACKET];
            && (SafeItems(items) ==> Sticks(s, p, |P.ItemsText(items, true, d + 1)| + 2, t))
            && (!SafeItems(items) ==> Clash(Minified(s, p), t))
    decreases Array(items), 0
  {
    hide StartsWith, Keeps, Sticks, Clash, Minified, P.ItemsText, SafeItems, AllClean, P.Printable;
    var u, t := P.ItemsText(items, true, d + 1), P.ItemsText(items, false, d + 1);
    SplitBrackets(s, p, LBRACKET, u, RBRACKET);
    TokenKept(s, p, [LBRACKET]);
    ItemsOutcome(s, p + 1, items, d + 1);
    if SafeItems(items) {
      KeptSticks(s, p, 1, [LBRACKET], |u|, t);
      ByteAt(s, p + 1 + |u|, [RBRACKET], 0);
      InBounds(s, p + 1 + |u|, [RBRACKET]);
      SticksOn(s, p, 1 + |u|, [LBRACKET] + t);
    } else {
      KeptClash(s, p, 1, [LBRACKET], t, [RBRACKET]);
    }
  }

  lemma SafeItemsNext(items: seq<Value>)
    requires |items| > 1
    ensures SafeItems(items) <==> NoTrailingBackslash(items[0]) && SafeItems(items[1..])
    ensures AllClean(items) <==> NoTrailingBackslash(items[0]) && AllClean(items[1..])
  {
    hide NoTrailingBackslash, Safe;
    assert items[..|items| - 1] == [items[0]] + items[1..][..|items| - 2];
    assert items == [items[0]] + items[1..];
  }

  lemma OneItem(items: seq<Value>)
    requires |items| == 1
    ensures SafeItems(items) <==> Safe(items[0])
    ensures AllClean(items) <==> NoTrailingBackslash(items[0])
  {
    hide NoTrailingBackslash, Safe;
    assert items == [items[0]];
  }

  lemma SafeWhenClean(v: Value)
    requires NoTrailingBackslash(v)
    ensures Safe(v)
  {
    if v.Array? && v.items != [] {
      SafeWhenClean(v.items[|v.items| - 1]);
    }
  }

  lemma {:induction false} ItemsOutcome(s: seq<Byte>, p: nat, items: seq<Value>, d: nat)
    requires (forall x | x in items :: P.Printable(x)) && items != [] && !AllClean(items)
    requires StartsWith(s, p, P.ItemsText(items, true, d))
    ensures var u, t := P.ItemsText(items, true, d), P.ItemsText(items, false, d);
            && (SafeItems(items) ==> Sticks(s, p, |u|, t))
            && (!SafeItems(items) ==> Clash(Minified(s, p), t))
    decreases items, 0
  {
    hide StartsWith, Keeps, Sticks, Clash, Minified, SafeItems, AllClean, P.Printable, P.Text, P.ItemsText, Safe,
         NoTrailingBackslash, P.ItemSeparator;
    var v, rest := items[0], items[1..];
    var u, t := P.Text(v, true, d), P.Text(v, false, d);
    if |items| == 1 {
      OneItem(items);
      LastItemText(items, d);
      ValueOutcome(s, p, v, d);
    } else {
      SafeItemsNext(items);
      ItemsTextNext(items, d);
      var u', t' := P.ItemsText(rest, true, d), P.ItemsText(rest, false, d);
      Split(s, p, u + [COMMA, P.SPACE], u');
      Split(s, p, u, [COMMA, P.SPACE]);
      InBounds(s, p + |u|, [COMMA, P.SPACE]);
      ByteAt(s, p + |u|, [COMMA, P.SPACE], 0);
      ByteAt(s, p + |u|, [COMMA, P.SPACE], 1);
      if NoTrailingBackslash(v) {
        TextKept(s, p, v, d);
        SeparatorKept(s, p, |u|, t);
        ItemsOutcome(s, p + |u| + 2, rest, d);
        if SafeItems(rest) {
          KeptSticks(s, p, |u| + 2, t + [COMMA], |u'|, t');
        } else {
          KeptClash(s, p, |u| + 2, t + [COMMA], t', []);
          assert t + [COMMA] + t' + [] == t + [COMMA] + t';
        }
      } else {
        ValueOutcome(s, p, v, d);
        if Safe(v) {
          SticksOn(s, p, |u|, t);
          SticksClash(s, p, |u| + 1, t + [COMMA], t');
        } else {
          ClashBehind([], Minified(s, p), t, [COMMA] + t');
          Trim(Minified(s, p), t, [COMMA] + t');
          assert t + ([COMMA] + t') == t + [COMMA] + t';
        }
      }
    }
  }

  lemma Trim(m: seq<Byte>, t: seq<Byte>, b: seq<Byte>)
    ensures [] + m == m && [] + t + b == t + b
  {}

  lemma LastItemText(items: seq<Value>, d: nat)
    requires (forall x | x in items :: P.Printable(x)) && |items| == 1
    ensures forall fmt :: P.ItemsText(items, fmt, d) == P.Text(items[0], fmt, d)
  {
    hide P.Text;
  }

  lemma ItemsTextNext(items: seq<Value>, d: nat)
    requires (forall x | x in items :: P.Printable(x)) && |items| > 1
    ensures var v, rest := items[0], items[1..];
            && P.ItemsText(items, true, d) == P.Text(v, true, d) + [COMMA, P.SPACE] + P.ItemsText(rest, true, d)
            && P.ItemsText(items, false, d) == P.Text(v, false, d) + [COMMA] + P.ItemsText(rest, false, d)
            && P.ItemsText(rest, false, d) != [] && P.ItemsText(rest, false, d)[0] > 32
  {
    TextBegins(items[1], d);
    hide P.Text, P.Printable;
    assert items[1..][0] == items[1];
  }

  lemma SeparatorKept(s: seq<Byte>, p: nat, n: nat, t: seq<Byte>)
    requires Keeps(s, p, n, t) && p + n + 2 <= |s| && s[p + n] == COMMA && s[p + n + 1] == P.SPACE
    ensures Keeps(s, p, n + 2, t + [COMMA])
  {
    hide Keeps;
    ByteKept(s, p + n);
    ByteDropped(s, p + n + 1);
    KeepsJoin(s, p + n, 1, [COMMA], 1, []);
    assert [COMMA] + [] == [COMMA];
    KeepsJoin(s, p, n, t, 2, [COMMA]);
  }

  // ---- objects ----

  predicate CleanMember(m: Member) { !EndsWithBackslash(m.name) && NoTrailingBackslash(m.value) }

  ghost predicate AllCleanMembers(ms: seq<Member>) { forall m | m in ms :: CleanMember(m) }

  /** White space, a name and a colon. */
  function Label(m: Member, fmt: bool, d: nat): seq<Byte>
    requires NulFree(m.name)
  {
    P.Indent(fmt, d) + P.StringText(m.name) + P.Colon(fmt)
  }

  lemma LabelParts(s: seq<Byte>, p: nat, m: Member, d: nat)
    requires NulFree(m.name) && StartsWith(s, p, Label(m, true, d))
    ensures StartsWith(s, p, P.Tabs(d)) && StartsWith(s, p + d, P.StringText(m.name))
    ensures var q := p + d + |P.StringText(m.name)|; q + 2 <= |s| && s[q] == COLON && s[q + 1] == P.TAB
    ensures |Label(m, true, d)| == d + |P.StringText(m.name)| + 2
    ensures Label(m, false, d) == P.StringText(m.name) + [COLON]
  {
    hide StartsWith, P.StringText, P.Tabs;
    var n, c := P.StringText(m.name), [COLON, P.TAB];
    Split(s, p, P.Tabs(d) + n, c);
    Split(s, p, P.Tabs(d), n);
    InBounds(s, p + d + |n|, c);
    ByteAt(s, p + d + |n|, c, 0);
    ByteAt(s, p + d + |n|, c, 1);
    assert [] + n == n;
  }

  lemma TabsDropped(s: seq<Byte>, p: nat, d: nat)
    requires StartsWith(s, p, P.Tabs(d))
    ensures Keeps(s, p, d, [])
  {
    hide StartsWith, Keeps;
    WhiteDropped(s, p, P.Tabs(d));
  }

  lemma LabelKept(s: seq<Byte>, p: nat, m: Member, d: nat)
    requires NulFree(m.name) && !EndsWithBackslash(m.name) && StartsWith(s, p, Label(m, true, d))
    ensures Keeps(s, p, |Label(m, true, d)|, Label(m, false, d))
  {
    hide StartsWith, Keeps, P.StringText, P.Tabs, EndsWithBackslash, Label;
    LabelParts(s, p, m, d);
    var n := P.StringText(m.name);
    TabsDropped(s, p, d);
    StringTextKept(s, p + d, m.name);
    KeepsJoin(s, p, d, [], |n|, n);
    ByteKept(s, p + d + |n|);
    ByteDropped(s, p + d + |n| + 1);
    KeepsJoin(s, p, d + |n|, [] + n, 1, [COLON]);
    KeepsJoin(s, p, d + |n| + 1, [] + n + [COLON], 1, []);
    assert [] + n + [COLON] + [] == n + [COLON];
  }

  lemma LabelClash(s: seq<Byte>, p: nat, m: Member, d: nat, b: seq<Byte>)
    requires NulFree(m.name) && EndsWithBackslash(m.name) && StartsWith(s, p, Label(m, true, d))
    requires b != [] && b[0] > 32
    ensures Clash(Minified(s, p), Label(m, false, d) + b)
  {
    hide StartsWith, Keeps, Sticks, Clash, P.StringText, P.Tabs, EndsWithBackslash, Label, Minified;
    LabelParts(s, p, m, d);
    var n := P.StringText(m.name);
    TabsDropped(s, p, d);
    StringTextSticks(s, p + d, m.name);
    KeptSticks(s, p, d, [], |n|, n);
    assert [] + n == n;
    SticksOn(s, p, d + |n|, n);
    SticksClash(s, p, d + |n| + 1, n + [COLON], b);
  }

  lemma MemberParts(s: seq<Byte>, p: nat, m: Member, d: nat, last: bool)
    requires NulFree(m.name) && P.Printable(m.value) && StartsWith(s, p, P.MemberText(m, true, d, last))
    ensures StartsWith(s, p, Label(m, true, d))
    ensures var q := p + |Label(m, true, d)|; var u := P.Text(m.value, true, d);
            && StartsWith(s, q, u) && StartsWith(s, q + |u|, P.MemberEnd(true, last))
            && p + |P.MemberText(m, true, d, last)| == q + |u| + |P.MemberEnd(true, last)|
    ensures P.MemberText(m, false, d, last)
         == Label(m, false, d) + P.Text(m.value, false, d) + P.MemberEnd(false, last)
  {
    hide StartsWith, P.Text, P.Printable, P.StringText, P.Indent, P.Colon, P.MemberEnd;
    var u := P.Text(m.value, true, d);
    Split(s, p, Label(m, true, d) + u, P.MemberEnd(true, last));
    Split(s, p, Label(m, true, d), u);
  }

  lemma EndKept(s: seq<Byte>, p: nat, last: bool)
    requires StartsWith(s, p, P.MemberEnd(true, last))
    ensures Keeps(s, p, |P.MemberEnd(true, last)|, P.MemberEnd(false, last))
  {
    hide StartsWith, Keeps;
    if last {
      assert P.MemberEnd(true, last) == [P.NEWLINE] && P.MemberEnd(false, last) == [];
      WhiteDropped(s, p, [P.NEWLINE]);
    } else {
      var c: seq<Byte> := [COMMA];
      assert P.MemberEnd(true, last) == c + [P.NEWLINE];
      Split(s, p, c, [P.NEWLINE]);
      TokenKept(s, p, c);
      WhiteDropped(s, p + 1, [P.NEWLINE]);
      KeepsJoin(s, p, 1, c, 1, []);
      assert c + [] == P.MemberEnd(false, last);
    }
  }

  lemma MemberKept(s: seq<Byte>, p: nat, m: Member, d: nat, last: bool)
    requires NulFree(m.name) && P.Printable(m.value) && CleanMember(m)
    requires StartsWith(s, p, P.MemberText(m, true, d, last))
    ensures Keeps(s, p, |P.MemberText(m, true, d, last)|, P.MemberText(m, false, d, last))
  {
    hide *;
    MemberParts(s, p, m, d, last);
    CleanParts(m);
    var l, u, t := |Label(m, true, d)|, P.Text(m.value, true, d), P.Text(m.value, false, d);
    LabelKept(s, p, m, d);
    TextKept(s, p + l, m.value, d);
    EndKept(s, p + l + |u|, last);
    KeepsJoin(s, p, l, Label(m, false, d), |u|, t);
    KeepsJoin(s, p, l + |u|, Label(m, false, d) + t, |P.MemberEnd(true, last)|, P.MemberEnd(false, last));
  }

  /** Inside a string at the end of a member, the line break is kept. */
  lemma EndClash(s: seq<Byte>, p: nat, n: nat, t: seq<Byte>, last: bool, b: seq<Byte>)
    requires Sticks(s, p, n, t) && StartsWith(s, p + n, P.MemberEnd(true, last)) && b != [] && b[0] > 32
    ensures Clash(Minified(s, p), t + P.MemberEnd(false, last) + b)
  {
    hide StartsWith, Sticks, Clash, Minified;
    var e := P.MemberEnd(true, last);
    InBounds(s, p + n, e);
    ByteAt(s, p + n, e, 0);
    if last {
      SticksClash(s, p, n, t, b);
      assert P.MemberEnd(false, last) == [] && t + [] == t;
    } else {
      ByteAt(s, p + n, e, 1);
      SticksOn(s, p, n, t);
      SticksClash(s, p, n + 1, t + [COMMA], b);
      assert P.MemberEnd(false, last) == [COMMA];
    }
  }

  lemma {:induction false} MemberOutcome(s: seq<Byte>, p: nat, m: Member, d: nat, last: bool, b: seq<Byte>)
    requires NulFree(m.name) && P.Printable(m.value) && !CleanMember(m)
    requires StartsWith(s, p, P.MemberText(m, true, d, last)) && b != [] && b[0] > 32
    ensures Clash(Minified(s, p), P.MemberText(m, false, d, last) + b)
    decreases m, 2
  {
    hide *;
    MemberParts(s, p, m, d, last);
    var a, t, e := Label(m, false, d), P.Text(m.value, false, d), P.MemberEnd(false, last);
    if EndsWithBackslash(m.name) {
      TextBegins(m.value, d);
      LabelClash(s, p, m, d, t + e + b);
      FourParts(a, t, e, b);
    } else {
      UncleanValue(m);
      LabelKept(s, p, m, d);
      var l := |Label(m, true, d)|;
      ValueOutcome(s, p + l, m.value, d);
      MemberValueClash(s, p, l, a, m.value, d, last, b);
    }
  }

  lemma CleanParts(m: Member)
    requires CleanMember(m)
    ensures !EndsWithBackslash(m.name) && NoTrailingBackslash(m.value)
  {}

  lemma UncleanValue(m: Member)
    requires !CleanMember(m) && !EndsWithBackslash(m.name)
    ensures !NoTrailingBackslash(m.value)
  {}

  lemma FourParts(a: seq<Byte>, t: seq<Byte>, e: seq<Byte>, b: seq<Byte>)
    ensures a + (t + e + b) == a + t + e + b && a + t + (e + b) == a + t + e + b
  {}

  /** Behind a name and its colon, the value is not followed by closing brackets only. */
  lemma MemberValueClash(s: seq<Byte>, p: nat, l: nat, a: seq<Byte>, v: Value, d: nat, last: bool, b: seq<Byte>)
    requires P.Printable(v) && Keeps(s, p, l, a) && b != [] && b[0] > 32
    requires var u, t := P.Text(v, true, d), P.Text(v, false, d);
             && StartsWith(s, p + l + |u|, P.MemberEnd(true, last))
             && (Safe(v) ==> Sticks(s, p + l, |u|, t)) && (!Safe(v) ==> Clash(Minified(s, p + l), t))
    ensures Clash(Minified(s, p), a + P.Text(v, false, d) + P.MemberEnd(false, last) + b)
  {
    hide *;
    var u, t, e := P.Text(v, true, d), P.Text(v, false, d), P.MemberEnd(false, last);
    if Safe(v) {
      KeptSticks(s, p, l, a, |u|, t);
      EndClash(s, p, l + |u|, a + t, last, b);
    } else {
      KeptBounds(s, p, l, a);
      KeptClash(s, p, l, a, t, e + b);
      FourParts(a, t, e, b);
    }
  }

  lemma KeptBounds(s: seq<Byte>, p: nat, l: nat, a: seq<Byte>)
    requires Keeps(s, p, l, a)
    ensures p + l <= |s|
  {}

  lemma MembersNext(ms: seq<Member>, d: nat)
    requires ms != [] && forall m | m in ms :: NulFree(m.name) && P.Printable(m.value)
    ensures AllCleanMembers(ms) <==> CleanMember(ms[0]) && AllCleanMembers(ms[1..])
    ensures |ms| == 1 ==> AllCleanMembers(ms[1..])
    ensures forall fmt :: P.MembersText(ms, fmt, d)
                       == P.MemberText(ms[0], fmt, d, |ms| == 1) + P.MembersText(ms[1..], fmt, d)
  {
    hide CleanMember, P.MemberText;
    assert ms == [ms[0]] + ms[1..];
  }

  lemma MemberBegins(ms: seq<Member>, d: nat)
    requires forall m | m in ms :: NulFree(m.name) && P.Printable(m.value)
    ensures var t := P.MembersText(ms, false, d) + [RBRACE]; t != [] && t[0] > 32
  {
    if ms != [] {
      hide P.Text, P.Printable, P.MemberEnd, RenderPieces, P.PiecesOf;
      assert P.MemberText(ms[0], false, d, |ms| == 1)[0] == QUOTE;
    }
  }

  lemma {:induction false} MembersOutcome(s: seq<Byte>, p: nat, ms: seq<Member>, d: nat)
    requires (forall m | m in ms :: NulFree(m.name) && P.Printable(m.value)) && ms != [] && !AllCleanMembers(ms)
    requires StartsWith(s, p, P.MembersText(ms, true, d))
    ensures Clash(Minified(s, p), P.MembersText(ms, false, d) + [RBRACE])
    decreases ms, 0
  {
    hide StartsWith, Keeps, Clash, Minified, AllCleanMembers, P.Printable, NulFree, CleanMember, P.MembersText,
         P.MemberText;
    var m, last, rest := ms[0], |ms| == 1, ms[1..];
    MembersNext(ms, d);
    var u, t := P.MemberText(m, true, d, last), P.MemberText(m, false, d, last);
    var t' := P.MembersText(rest, false, d) + [RBRACE];
    Split(s, p, u, P.MembersText(rest, true, d));
    assert P.MembersText(ms, false, d) + [RBRACE] == t + t';
    if CleanMember(m) {
      MemberKept(s, p, m, d, last);
      MembersOutcome(s, p + |u|, rest, d);
      KeptClash(s, p, |u|, t, t', []);
      assert t + t' + [] == t + t';
    } else {
      MemberBegins(rest, d);
      MemberOutcome(s, p, m, d, last, t');
    }
  }

  lemma {:induction false} ObjectOutcome(s: seq<Byte>, p: nat, ms: seq<Member>, d: nat)
    requires (forall m | m in ms :: NulFree(m.name) && P.Printable(m.value)) && ms != [] && !AllCleanMembers(ms)
    requires StartsWith(s, p, P.OpenBrace(true) + P.MembersText(ms, true, d + 1) + P.Closing(true, d))
    ensures Clash(Minified(s, p), P.OpenBrace(false) + P.MembersText(ms, false, d + 1) + P.Closing(false, d))
    decreases Object(ms), 0
  {
    hide StartsWith, Keeps, Clash, Minified, AllCleanMembers, P.Printable, NulFree, P.MembersText, P.Tabs;
    var u, t := P.MembersText(ms, true, d + 1), P.MembersText(ms, false, d + 1);
    Split(s, p, P.OpenBrace(true) + u, P.Closing(true, d));
    Split(s, p, P.OpenBrace(true), u);
    Split(s, p, [LBRACE], [P.NEWLINE]);
    TokenKept(s, p, [LBRACE]);
    WhiteDropped(s, p + 1, [P.NEWLINE]);
    KeepsJoin(s, p, 1, [LBRACE], 1, []);
    MembersOutcome(s, p + 2, ms, d + 1);
    KeptClash(s, p, 2, [LBRACE] + [], t + [RBRACE], []);
    assert [LBRACE] + [] + (t + [RBRACE]) + [] == [LBRACE] + t + ([] + [RBRACE]);
  }

  // ---- whole texts ----

  /** cJSON_Minify turns the formatted text of a value into its unformatted text exactly when nothing but
      closing brackets follows a string or name that ends with a backslash. */
  lemma MinifyPrintedIff(v: Value)
    requires P.Printable(v)
    ensures Minified(P.Text(v, true, 0), 0) == P.Text(v, false, 0) <==> Safe(v)
  {
    hide P.Text, Minified, Safe, NoTrailingBackslash, P.Printable, InString, StartsWith, Clash;
    var u, t := P.Text(v, true, 0), P.Text(v, false, 0);
    if NoTrailingBackslash(v) {
      SafeWhenClean(v);
      MinifyPrinted(v, true);
    } else {
      WholeText(u);
      ValueOutcome(u, 0, v, 0);
      if Safe(v) {
        InStringAtEnd(u);
        assert t + [] == t;
      } else {
        ClashDiffers(Minified(u, 0), t);
      }
    }
  }
}
