/** cJSON_Minify, which removes white space and comments in place. On a JSON text in which no string
    ends with an escaped backslash it removes exactly the white space between the tokens. */
module JsonMinify {
  import opened Bytes
  import opened JsonText
  import opened JsonParse
  import opened JsonComplete
  import JsonPrint

  const STAR: Byte := 42

  predicate Blank(b: Byte) { b in {32, 9, 13, 10} }

  // ---- what is removed, as functions of the text without its NUL ----

  /** skip_oneline_comment: behind the next line feed, or the end. */
  function LineEnd(s: seq<Byte>, q: nat): (e: nat)
    ensures q <= |s| ==> q <= e <= |s|
    ensures q > |s| ==> e == q
    decreases |s| - q
  {
    if q >= |s| then q else if s[q] == 10 then q + 1 else LineEnd(s, q + 1)
  }

  /** skip_multiline_comment */
  function CommentEnd(s: seq<Byte>, q: nat): (e: nat)
    ensures q <= |s| ==> q <= e <= |s|
    ensures q > |s| ==> e == q
    decreases |s| - q
  {
    if q >= |s| then q
    else if s[q] == STAR && q + 1 < |s| && s[q + 1] == SLASH then q + 2
    else CommentEnd(s, q + 1)
  }

  /** minify_string: a quote ends the string unless the byte in front of it is a backslash. */
  function StringEnd(s: seq<Byte>, q: nat): (e: nat)
    requires q <= |s|
    ensures q <= e <= |s| && (q < |s| ==> q < e)
    decreases |s| - q
  {
    if q == |s| then q
    else if s[q] == QUOTE then q + 1
    else if s[q] == BACKSLASH && q + 1 < |s| && s[q + 1] == QUOTE then StringEnd(s, q + 2)
    else StringEnd(s, q + 1)
  }

  /** The text that cJSON_Minify keeps from p on. */
  function Minified(s: seq<Byte>, p: nat): (m: seq<Byte>)
    requires p <= |s|
    ensures |m| <= |s| - p
    decreases |s| - p
  {
    if p == |s| then []
    else if Blank(s[p]) then Minified(s, p + 1)
    else if s[p] == SLASH then
      if p + 1 < |s| && s[p + 1] == SLASH then Minified(s, LineEnd(s, p + 2))
      else if p + 1 < |s| && s[p + 1] == STAR then Minified(s, CommentEnd(s, p + 2))
      else Minified(s, p + 1)
    else if s[p] == QUOTE then s[p..StringEnd(s, p + 1)] + Minified(s, StringEnd(s, p + 1))
    else [s[p]] + Minified(s, p + 1)
  }

  // ---- in place ----

  /** The bytes from p on are still those of the text s and its NUL. */
  ghost predicate Unread(json: array<Byte>, s: seq<Byte>, p: nat)
    reads json
  {
    p <= |s| < json.Length && (forall k | p <= k < |s| :: json[k] == s[k]) && json[|s|] == 0
  }

  /** The bytes kept so far stand at the front. */
  ghost predicate Kept(json: array<Byte>, kept: seq<Byte>)
    reads json
  {
    |kept| <= json.Length && forall k | 0 <= k < |kept| :: json[k] == kept[k]
  }

  method SkipOnelineComment(json: array<Byte>, p: nat, ghost s: seq<Byte>) returns (q: nat)
    requires Unread(json, s, p) && p + 2 <= |s| && NulFree(s)
    ensures q == LineEnd(s, p + 2)
  {
    q := p + 2;
    while json[q] != 0
      invariant p + 2 <= q <= |s| && LineEnd(s, q) == LineEnd(s, p + 2)
      decreases |s| - q
    {
      if json[q] == 10 {
        return q + 1;
      }
      q := q + 1;
    }
  }

  method SkipMultilineComment(json: array<Byte>, p: nat, ghost s: seq<Byte>) returns (q: nat)
    requires Unread(json, s, p) && p + 2 <= |s| && NulFree(s)
    ensures q == CommentEnd(s, p + 2)
  {
    q := p + 2;
    while json[q] != 0
      invariant p + 2 <= q <= |s| && CommentEnd(s, q) == CommentEnd(s, p + 2)
      decreases |s| - q
    {
      if json[q] == STAR && json[q + 1] == SLASH {
        return q + 2;
      }
      q := q + 1;
    }
  }

  /** A byte is moved down, from q to the end of what is kept. */
  method Move(json: array<Byte>, q: nat, ghost s: seq<Byte>, out: nat, ghost kept: seq<Byte>)
    requires Unread(json, s, q) && Kept(json, kept) && out == |kept| <= q < |s|
    modifies json
    ensures Unread(json, s, q + 1) && Kept(json, kept + [s[q]])
  {
    json[out] := json[q];
  }

  /** minify_string: the string is moved from p down to the end of what is kept. */
  method MinifyString(json: array<Byte>, p: nat, into: nat, ghost s: seq<Byte>, ghost kept: seq<Byte>)
    returns (q: nat, out: nat)
    requires Unread(json, s, p) && Kept(json, kept) && into == |kept| <= p < |s| && NulFree(s) && s[p] == QUOTE
    modifies json
    ensures q == StringEnd(s, p + 1) && out == into + (q - p)
    ensures Unread(json, s, q) && Kept(json, kept + s[p..q])
  {
    hide Kept, StringEnd;
    Move(json, p, s, into, kept);
    q, out := p + 1, into + 1;
    assert s[p..q] == [s[p]];
    while json[q] != 0
      invariant p < q <= |s| && StringEnd(s, q) == StringEnd(s, p + 1) && out == into + (q - p)
      invariant Unread(json, s, q) && Kept(json, kept + s[p..q])
      decreases |s| - q
    {
      var b, escapedQuote := json[q], json[q] == BACKSLASH && json[q + 1] == QUOTE;
      StringEndNext(s, q);
      Extended(kept, s, p, q);
      Move(json, q, s, out, kept + s[p..q]);
      if b == QUOTE {
        return q + 1, out + 1;
      } else if escapedQuote {
        Extended(kept, s, p, q + 1);
        Move(json, q + 1, s, out + 1, kept + s[p..q + 1]);
        q, out := q + 1, out + 1;
      }
      q, out := q + 1, out + 1;
    }
    StringEndAtEnd(s);
  }

  lemma StringEndAtEnd(s: seq<Byte>)
    ensures StringEnd(s, |s|) == |s|
  {}

  lemma StringEndNext(s: seq<Byte>, q: nat)
    requires q < |s|
    ensures s[q] == QUOTE ==> StringEnd(s, q) == q + 1
    ensures s[q] != QUOTE ==> var n := if s[q] == BACKSLASH && q + 1 < |s| && s[q + 1] == QUOTE then q + 2 else q + 1;
              StringEnd(s, q) == StringEnd(s, n)
  {}

  lemma Extended(kept: seq<Byte>, s: seq<Byte>, p: nat, q: nat)
    requires p <= q < |s|
    ensures kept + s[p..q] + [s[q]] == kept + s[p..q + 1]
  {}

  /** cJSON_Minify: the text that is kept, and a NUL. */
  method Minify(json: array<Byte>, ghost s: seq<Byte>)
    requires NulFree(s) && |s| < json.Length && json[..|s| + 1] == s + [0]
    modifies json
    ensures json[..|Minified(s, 0)| + 1] == Minified(s, 0) + [0]
  {
    hide StringEnd, LineEnd, CommentEnd, Minified;
    var p, into := 0, 0;
    assert forall k | 0 <= k <= |s| :: json[k] == json[..|s| + 1][k];
    ghost var kept: seq<Byte> := [];
    assert kept + Minified(s, 0) == Minified(s, 0);
    while json[p] != 0
      invariant into == |kept| <= p && Unread(json, s, p) && Kept(json, kept)
      invariant kept + Minified(s, p) == Minified(s, 0)
      decreases |s| - p
    {
      MinifiedNext(s, p);
      if Blank(json[p]) {
        p := p + 1;
      } else if json[p] == SLASH {
        if json[p + 1] == SLASH {
          p := SkipOnelineComment(json, p, s);
        } else if json[p + 1] == STAR {
          p := SkipMultilineComment(json, p, s);
        } else {
          p := p + 1;
        }
      } else if json[p] == QUOTE {
        ghost var q := StringEnd(s, p + 1);
        Joined(kept, s[p..q], Minified(s, q));
        ghost var t := s[p..q];
        p, into := MinifyString(json, p, into, s, kept);
        kept := kept + t;
      } else {
        Joined(kept, [s[p]], Minified(s, p + 1));
        Move(json, p, s, into, kept);
        kept := kept + [s[p]];
        p, into := p + 1, into + 1;
      }
    }
    MinifiedEnd(s);
    assert kept + [] == kept;
    json[into] := 0;
    assert json[..into + 1] == kept + [0];
  }

  lemma MinifiedEnd(s: seq<Byte>)
    ensures Minified(s, |s|) == []
  {}

  /** What cJSON_Minify does with the byte at p. */
  lemma MinifiedNext(s: seq<Byte>, p: nat)
    requires p < |s|
    ensures LineEnd(s, p + 2) <= |s| || p + 1 == |s|
    ensures p + 2 <= |s| ==> p + 2 <= LineEnd(s, p + 2) <= |s| && p + 2 <= CommentEnd(s, p + 2) <= |s|
    ensures p < StringEnd(s, p + 1) <= |s|
    ensures Minified(s, p) ==
            if Blank(s[p]) then Minified(s, p + 1)
            else if s[p] == SLASH then
              if p + 1 < |s| && s[p + 1] == SLASH then Minified(s, LineEnd(s, p + 2))
              else if p + 1 < |s| && s[p + 1] == STAR then Minified(s, CommentEnd(s, p + 2))
              else Minified(s, p + 1)
            else if s[p] == QUOTE then s[p..StringEnd(s, p + 1)] + Minified(s, StringEnd(s, p + 1))
            else [s[p]] + Minified(s, p + 1)
  {
    hide StringEnd, LineEnd, CommentEnd;
  }

  lemma Joined(a: seq<Byte>, b: seq<Byte>, c: seq<Byte>)
    ensures a + (b + c) == a + b + c
  {}

  // ---- strings ----

  predicate EndsInBackslash(ps: seq<Piece>) { ps != [] && ps[|ps| - 1] == Short(BACKSLASH) }

  lemma FourHex(s: seq<Byte>, q: nat, h: Hex4)
    requires h.Ok() && StartsWith(s, q, h.Text())
    ensures q + 4 <= |s| && StringEnd(s, q) == StringEnd(s, q + 4)
  {
    FourBytes(s, q, h);
    assert StringEnd(s, q) == StringEnd(s, q + 1);
    assert StringEnd(s, q + 1) == StringEnd(s, q + 2);
    assert StringEnd(s, q + 2) == StringEnd(s, q + 3);
  }

  lemma HexEscape(s: seq<Byte>, q: nat, h: Hex4)
    requires h.Ok() && StartsWith(s, q, [BACKSLASH, LOWER_U] + h.Text())
    ensures q + 6 <= |s| && StringEnd(s, q) == StringEnd(s, q + 6)
  {
    Split(s, q, [BACKSLASH, LOWER_U], h.Text());
    ByteAt(s, q, [BACKSLASH, LOWER_U], 0);
    ByteAt(s, q, [BACKSLASH, LOWER_U], 1);
    FourHex(s, q + 2, h);
    hide *;
    TwoPlain(s, q);
  }

  lemma TwoPlain(s: seq<Byte>, q: nat)
    requires q + 2 <= |s| && s[q] == BACKSLASH && s[q + 1] == LOWER_U
    ensures StringEnd(s, q) == StringEnd(s, q + 2)
  {
    assert StringEnd(s, q) == StringEnd(s, q + 1);
  }

  /** minify_string walks over a piece, unless it is an escaped backslash in front of a quote. */
  lemma PieceWalked(s: seq<Byte>, q: nat, x: Piece)
    requires PieceOk(x) && StartsWith(s, q, RenderPiece(x))
    requires x != Short(BACKSLASH) || q + 2 == |s| || s[q + 2] != QUOTE
    ensures q + |RenderPiece(x)| <= |s| && StringEnd(s, q) == StringEnd(s, q + |RenderPiece(x)|)
  {
    InBounds(s, q, RenderPiece(x));
    match x
    case Plain(b) => ByteAt(s, q, [b], 0);
    case Short(m) =>
      ByteAt(s, q, [BACKSLASH, m], 0);
      ByteAt(s, q, [BACKSLASH, m], 1);
      hide StartsWith, RenderPiece, PieceOk;
      if m != QUOTE {
        assert StringEnd(s, q) == StringEnd(s, q + 1);
      }
    case Unit(h) => HexEscape(s, q, h);
    case Pair(h, l) =>
      var a, b := [BACKSLASH, LOWER_U] + h.Text(), [BACKSLASH, LOWER_U] + l.Text();
      Assoc3([BACKSLASH, LOWER_U] + h.Text(), [BACKSLASH, LOWER_U], l.Text());
      Split(s, q, a, b);
      HexEscape(s, q, h);
      HexEscape(s, q + 6, l);
  }

  /** Every piece begins with a byte that is not a quote. */
  lemma PieceBegins(x: Piece)
    requires PieceOk(x)
    ensures RenderPiece(x)[0] != QUOTE
  {}

  lemma NotBeforeQuote(s: seq<Byte>, q: nat, ps: seq<Piece>)
    requires PiecesOk(ps) && ps != [] && StartsWith(s, q, RenderPieces(ps) + [QUOTE])
    ensures q < |s| && s[q] != QUOTE
  {
    PieceBegins(ps[0]);
    ByteAt(s, q, RenderPieces(ps) + [QUOTE], 0);
  }

  /** minify_string stops behind the closing quote exactly when the string does not end with an escaped
      backslash, or nothing follows it. */
  lemma {:induction false} StringStops(s: seq<Byte>, q: nat, ps: seq<Piece>)
    requires PiecesOk(ps) && StartsWith(s, q, RenderPieces(ps) + [QUOTE])
    ensures q + |RenderPieces(ps)| + 1 <= |s|
    ensures StringEnd(s, q) == q + |RenderPieces(ps)| + 1
       <==> !EndsInBackslash(ps) || q + |RenderPieces(ps)| + 1 == |s|
    decreases |ps|
  {
    hide StringEnd, StartsWith, RenderPieces, PieceOk;
    InBounds(s, q, RenderPieces(ps) + [QUOTE]);
    if ps == [] {
      ClosingQuote(s, q);
    } else {
      var x, rest := ps[0], RenderPieces(ps[1..]);
      FirstPiece(ps);
      Assoc3(RenderPiece(x), rest, [QUOTE]);
      var q' := q + |RenderPiece(x)|;
      if |ps| > 1 || x != Short(BACKSLASH) {
        Split(s, q, RenderPiece(x), rest + [QUOTE]);
        if |ps| > 1 {
          NotBeforeQuote(s, q', ps[1..]);
        }
        PieceWalked(s, q, x);
        StringStops(s, q', ps[1..]);
      } else {
        EscapedBackslashLast(s, q);
      }
    }
  }

  lemma ClosingQuote(s: seq<Byte>, q: nat)
    requires StartsWith(s, q, RenderPieces([]) + [QUOTE])
    ensures RenderPieces([]) == [] && q < |s| && StringEnd(s, q) == q + 1
  {
    ByteAt(s, q, [] + [QUOTE], 0);
  }

  lemma FirstPiece(ps: seq<Piece>)
    requires ps != []
    ensures RenderPieces(ps) == RenderPiece(ps[0]) + RenderPieces(ps[1..])
    ensures |ps| == 1 ==> ps[1..] == [] && RenderPieces([]) == []
  {}

  lemma EscapedBackslashLast(s: seq<Byte>, q: nat)
    requires StartsWith(s, q, RenderPiece(Short(BACKSLASH)) + (RenderPieces([]) + [QUOTE]))
    ensures q + 3 <= |s| && StringEnd(s, q) == StringEnd(s, q + 3)
  {
    var t: seq<Byte> := [BACKSLASH, BACKSLASH, QUOTE];
    assert [BACKSLASH, BACKSLASH] + ([] + [QUOTE]) == t;
    ByteAt(s, q, t, 0);
    ByteAt(s, q, t, 1);
    ByteAt(s, q, t, 2);
    assert StringEnd(s, q) == StringEnd(s, q + 1);
  }

  // ---- inside a string ----

  /** What is kept from q on by cJSON_Minify if it takes q for a place inside a string. */
  function InString(s: seq<Byte>, q: nat): seq<Byte>
    requires q <= |s|
  {
    s[q..StringEnd(s, q)] + Minified(s, StringEnd(s, q))
  }

  lemma InStringNext(s: seq<Byte>, q: nat)
    requires q < |s| && s[q] != QUOTE && s[q] != BACKSLASH
    ensures InString(s, q) == [s[q]] + InString(s, q + 1)
  {
    StringEndNext(s, q);
    hide StringEnd, Minified;
    var e := StringEnd(s, q + 1);
    assert s[q..e] == [s[q]] + s[q + 1..e];
  }

  lemma InStringAtEnd(s: seq<Byte>)
    ensures InString(s, |s|) == []
  {}
}
