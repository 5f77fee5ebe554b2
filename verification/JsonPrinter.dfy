/** The printer of cJSON.c: a print buffer that grows as text is written into it, or that may not grow.
    Printing writes the text of the value, and it succeeds exactly when the value is not nested too
    deeply and the text, its NUL and one more byte fit. */
module JsonPrinter {
  import opened Bytes
  import opened JsonText
  import opened JsonParse
  import opened JsonPrint
  import JsonComplete

  // ---- printed text contains no NUL ----

  lemma NulFreePieces(s: seq<Byte>)
    requires NulFree(s)
    ensures NulFree(RenderPieces(PiecesOf(s)))
    decreases |s|
  {
    if s != [] {
      NulFreePieces(s[1..]);
      assert PiecesOf(s)[1..] == PiecesOf(s[1..]);
      NulFreePiece(s[0]);
      hide *;
      NulFreeJoin(RenderPiece(PieceOf(s[0])), RenderPieces(PiecesOf(s[1..])));
      PiecesFirst(s);
    }
  }

  lemma PiecesFirst(s: seq<Byte>)
    requires NulFree(s) && s != []
    ensures RenderPieces(PiecesOf(s)) == RenderPiece(PieceOf(s[0])) + RenderPieces(PiecesOf(s[1..]))
  {
    assert PiecesOf(s)[1..] == PiecesOf(s[1..]);
  }

  lemma NulFreePiece(b: Byte)
    requires b != 0
    ensures NulFree(RenderPiece(PieceOf(b)))
  {}

  lemma NulFreeJoin(a: seq<Byte>, b: seq<Byte>)
    requires NulFree(a) && NulFree(b)
    ensures NulFree(a + b)
  {}

  lemma NulFreeString(s: seq<Byte>)
    requires NulFree(s)
    ensures NulFree(StringText(s))
  {
    NulFreePieces(s);
  }

  lemma {:induction false} NulFreeText(v: Value, fmt: bool, depth: nat)
    requires Printable(v)
    ensures NulFree(Text(v, fmt, depth))
    decreases v, 1
  {
    match v
    case Number(_, i) => hide DigitsValue;
    case String(s) => NulFreeString(s);
    case Array(items) => NulFreeItems(items, fmt, depth + 1);
    case Object(members) =>
      NulFreeMembers(members, fmt, depth + 1);
      NulFreeJoin(OpenBrace(fmt), MembersText(members, fmt, depth + 1));
      NulFreeJoin(OpenBrace(fmt) + MembersText(members, fmt, depth + 1), Closing(fmt, depth));
    case _ =>
  }

  lemma {:induction false} NulFreeItems(items: seq<Value>, fmt: bool, depth: nat)
    requires forall x | x in items :: Printable(x)
    ensures NulFree(ItemsText(items, fmt, depth))
    decreases items, 0
  {
    hide Text, Printable;
    if items != [] {
      NulFreeText(items[0], fmt, depth);
      NulFreeItems(items[1..], fmt, depth);
    }
  }

  lemma {:induction false} NulFreeMembers(ms: seq<Member>, fmt: bool, depth: nat)
    requires forall m | m in ms :: NulFree(m.name) && Printable(m.value)
    ensures NulFree(MembersText(ms, fmt, depth))
    decreases ms, 0
  {
    hide Text, Printable, StringText;
    if ms != [] {
      NulFreeString(ms[0].name);
      NulFreeText(ms[0].value, fmt, depth);
      NulFreeMembers(ms[1..], fmt, depth);
      NulFreeMember(Indent(fmt, depth), StringText(ms[0].name), Colon(fmt), Text(ms[0].value, fmt, depth),
                    MemberEnd(fmt, |ms| == 1));
      NulFreeJoin(MemberText(ms[0], fmt, depth, |ms| == 1), MembersText(ms[1..], fmt, depth));
    }
  }

  lemma NulFreeMember(a: seq<Byte>, b: seq<Byte>, c: seq<Byte>, d: seq<Byte>, e: seq<Byte>)
    requires NulFree(a) && NulFree(b) && NulFree(c) && NulFree(d) && NulFree(e)
    ensures NulFree(a + b + c + d + e)
  {}

  // ---- sizes ----

  function Pow10(k: nat): int { if k == 0 then 1 else 10 * Pow10(k - 1) }

  lemma {:induction false} DecimalLength(n: nat, k: nat)
    requires 0 < k && n < Pow10(k)
    ensures |Decimal(n)| <= k
    decreases k
  {
    if n >= 10 {
      assert n / 10 < Pow10(k - 1);
      DecimalLength(n / 10, k - 1);
    }
  }

  /** A 32-bit number takes up at most eleven characters. */
  lemma NumberFits(n: int)
    requires INT_MIN <= n <= INT_MAX
    ensures |NumberText(n)| <= 11
  {
    assert Pow10(10) == 10 * Pow10(9) == 100 * Pow10(8) == 1000 * Pow10(7) == 10000 * Pow10(6);
    assert Pow10(6) == 10 * Pow10(5) == 100 * Pow10(4) == 1000 * Pow10(3) == 10000 * Pow10(2);
    assert Pow10(2) == 10 * Pow10(1) == 100;
    DecimalLength(if n < 0 then 0 - n else n, 10);
  }

  /** How many bytes escaping adds to one byte, as the first pass of print_string_ptr counts them. */
  function EscapeCharacters(b: Byte): nat {
    if b == QUOTE || b == BACKSLASH || b == 8 || b == 12 || b == 10 || b == 13 || b == 9 then 1
    else if b < 32 then 5
    else 0
  }

  function EscapesIn(s: seq<Byte>): nat {
    if s == [] then 0 else EscapesIn(s[..|s| - 1]) + EscapeCharacters(s[|s| - 1])
  }

  lemma {:induction false} PiecesLast(s: seq<Byte>, b: Byte)
    requires NulFree(s) && b != 0
    ensures NulFree(s + [b])
    ensures RenderPieces(PiecesOf(s + [b])) == RenderPieces(PiecesOf(s)) + RenderPiece(PieceOf(b))
    decreases |s|
  {
    var t := s + [b];
    PiecesFirst(t);
    if s != [] {
      PiecesFirst(s);
      assert t[1..] == s[1..] + [b];
      PiecesLast(s[1..], b);
      hide *;
      JsonComplete.Assoc3(RenderPiece(PieceOf(s[0])), RenderPieces(PiecesOf(s[1..])), RenderPiece(PieceOf(b)));
    } else {
      assert t[1..] == [];
    }
  }

  /** The first pass computes the size of what the second pass writes. */
  lemma {:induction false} PiecesSize(s: seq<Byte>)
    requires NulFree(s)
    ensures |RenderPieces(PiecesOf(s))| == |s| + EscapesIn(s)
    decreases |s|
  {
    if s != [] {
      var a, b := s[..|s| - 1], s[|s| - 1];
      assert s == a + [b];
      PiecesSize(a);
      PiecesLast(a, b);
      PieceSize(b);
    }
  }

  lemma PieceSize(b: Byte)
    requires b != 0
    ensures |RenderPiece(PieceOf(b))| == 1 + EscapeCharacters(b)
  {}

  lemma {:induction false} EscapesGrow(s: seq<Byte>, i: nat)
    requires i < |s|
    ensures EscapesIn(s[..i]) + EscapeCharacters(s[i]) == EscapesIn(s[..i + 1]) <= EscapesIn(s)
    decreases |s|
  {
    assert s[..i + 1][..i] == s[..i];
    if i + 1 < |s| {
      var t := s[..|s| - 1];
      EscapesGrow(t, i);
      assert t[..i] == s[..i] && t[..i + 1] == s[..i + 1];
    } else {
      assert s[..i + 1] == s;
    }
  }

  /** Without anything to escape, a string is printed as it is. */
  lemma {:induction false} NothingToEscape(s: seq<Byte>)
    requires NulFree(s) && EscapesIn(s) == 0
    ensures RenderPieces(PiecesOf(s)) == s
    decreases |s|
  {
    if s != [] {
      var a, b := s[..|s| - 1], s[|s| - 1];
      assert s == a + [b];
      NothingToEscape(a);
      PiecesLast(a, b);
    }
  }

  lemma FirstItem(items: seq<Value>, fmt: bool, depth: nat)
    requires (forall x | x in items :: Printable(x)) && items != []
    ensures ItemsText(items, fmt, depth) == Text(items[0], fmt, depth)
              + (if |items| > 1 then ItemSeparator(fmt) else []) + ItemsText(items[1..], fmt, depth)
    ensures ItemsLevels(items) == Max(Levels(items[0]), ItemsLevels(items[1..]))
  {
    hide Text, Levels, Printable;
  }

  lemma FirstMember(ms: seq<Member>, fmt: bool, depth: nat)
    requires (forall m | m in ms :: NulFree(m.name) && Printable(m.value)) && ms != []
    ensures MembersText(ms, fmt, depth)
         == MemberText(ms[0], fmt, depth, |ms| == 1) + MembersText(ms[1..], fmt, depth)
    ensures MembersLevels(ms) == Max(Levels(ms[0].value), MembersLevels(ms[1..]))
  {
    hide MemberText, Levels, Printable, NulFree;
  }

  // ---- the print buffer ----

  predicate NestingFits(depth: nat, levels: nat) { levels == 0 || depth + levels <= CJSON_NESTING_LIMIT }

  /** How the allocator behaves: whether it can grow a block, and whether it always succeeds. */
  datatype Hooks = Hooks(reallocates: bool, reliable: bool)

  class PrintBuffer {
    var buffer: array?<Byte>
    var offset: nat
    var depth: nat
    const noalloc: bool
    const format: bool
    const hooks: Hooks
    /** The size the buffer cannot outgrow. */
    ghost const limit: nat

    ghost predicate Valid()
      reads this
    {
      && limit <= INT_MAX
      && (buffer != null ==> buffer.Length <= limit && (hooks.reallocates || noalloc || 0 < buffer.Length))
      && (if noalloc then buffer != null && buffer.Length == limit else limit == INT_MAX)
    }

    /** Whether running out of memory is ruled out. */
    ghost predicate Dependable()
      reads this
    {
      buffer != null && (noalloc || hooks.reliable)
    }

    /** The text s has been written, and printing goes on behind it. */
    ghost predicate Ready(s: seq<Byte>)
      reads this, buffer
    {
      buffer != null && offset == |s| <= buffer.Length && buffer[..|s|] == s
      && (|s| < buffer.Length || buffer.Length == 0)
    }

    /** The text t and a NUL stand behind s, and the offset has not moved past t. */
    ghost predicate Holds(s: seq<Byte>, t: seq<Byte>)
      reads this, buffer
    {
      buffer != null && |s| <= offset <= |s| + |t| < buffer.Length && buffer[..|s| + |t| + 1] == s + t + [0]
    }

    constructor (storage: array<Byte>, noalloc: bool, format: bool, hooks: Hooks)
      requires storage.Length <= INT_MAX && (hooks.reallocates || noalloc || 0 < storage.Length)
      ensures Valid() && Ready([]) && buffer == storage && depth == 0
      ensures this.noalloc == noalloc && this.format == format && this.hooks == hooks
      ensures limit == if noalloc then storage.Length else INT_MAX
    {
      buffer := storage;
      offset := 0;
      depth := 0;
      this.noalloc := noalloc;
      this.format := format;
      this.hooks := hooks;
      limit := if noalloc then storage.Length else INT_MAX;
    }

    /** ensure: make room for needed bytes and one more behind the text. */
    method Ensure(needed: nat, ghost s: seq<Byte>) returns (ok: bool)
      requires Valid() && Ready(s)
      modifies this
      ensures Valid() && offset == old(offset) && depth == old(depth)
      ensures buffer == old(buffer) || (!noalloc && (buffer == null || fresh(buffer)))
      ensures ok ==> Ready(s) && |s| + needed < buffer.Length
      ensures old(Dependable()) ==> (ok <==> needed <= INT_MAX && |s| + needed + 1 <= limit) && (ok ==> Dependable())
    {
      if 0 < buffer.Length && offset >= buffer.Length {
        return false;
      }
      if needed > INT_MAX {
        return false;
      }
      var size := needed + offset + 1;
      if size <= buffer.Length {
        return true;
      }
      if noalloc {
        return false;
      }
      var newsize;
      if size > INT_MAX / 2 {
        if size > INT_MAX {
          return false;
        }
        newsize := INT_MAX;
      } else {
        newsize := size * 2;
      }
      var granted: bool := *;
      if !(granted || hooks.reliable) {
        buffer := null;
        return false;
      }
      var kept := if hooks.reallocates then buffer.Length else offset + 1;
      var newbuffer := Larger(buffer, kept, newsize);
      assert newbuffer[..|s|] == newbuffer[..kept][..|s|] == s;
      buffer := newbuffer;
      return true;
    }

    /** A new buffer that begins with bytes of another one. */
    static method Larger(source: array<Byte>, kept: nat, size: nat) returns (newbuffer: array<Byte>)
      requires kept <= source.Length < size
      ensures fresh(newbuffer) && newbuffer.Length == size && newbuffer[..kept] == source[..kept]
    {
      newbuffer := new Byte[size];
      var i := 0;
      while i < kept
        invariant 0 <= i <= kept
        invariant newbuffer[..i] == source[..i]
        modifies newbuffer
      {
        newbuffer[i] := source[i];
        i := i + 1;
      }
    }

    /** Bytes are stored behind the text, without moving the offset. */
    method Store(k: seq<Byte>, ghost s: seq<Byte>)
      requires Valid() && Ready(s) && |s| + |k| <= buffer.Length
      modifies buffer
      ensures Ready(s) && buffer[..|s| + |k|] == s + k
    {
      var i := 0;
      while i < |k|
        invariant 0 <= i <= |k|
        invariant buffer[..|s| + i] == s + k[..i]
      {
        buffer[offset + i] := k[i];
        i := i + 1;
      }
      assert k[..i] == k;
      assert buffer[..|s|] == buffer[..|s| + |k|][..|s|];
    }

    /** Room is made, bytes are stored, and the offset moves past the first n of them. */
    method Append(needed: nat, k: seq<Byte>, n: nat, ghost s: seq<Byte>) returns (ok: bool)
      requires Valid() && Ready(s) && n <= |k| <= needed + 1 && n <= needed
      modifies this, buffer
      ensures Valid() && depth == old(depth)
      ensures buffer == old(buffer) || (!noalloc && (buffer == null || fresh(buffer)))
      ensures ok ==> Ready(s + k[..n]) && |s| + |k| <= buffer.Length && buffer[..|s| + |k|] == s + k
      ensures old(Dependable()) ==> (ok <==> needed <= INT_MAX && |s| + needed + 1 <= limit) && (ok ==> Dependable())
    {
      ok := Ensure(needed, s);
      if ok {
        Store(k, s);
        assert buffer[..|s| + n] == buffer[..|s| + |k|][..|s| + n] == s + k[..n];
        offset := offset + n;
      }
    }

    /** Append a text and its NUL. */
    method AppendText(t: seq<Byte>, n: nat, ghost s: seq<Byte>) returns (ok: bool)
      requires Valid() && Ready(s) && n <= |t|
      modifies this, buffer
      ensures Valid() && depth == old(depth)
      ensures buffer == old(buffer) || (!noalloc && (buffer == null || fresh(buffer)))
      ensures ok ==> Holds(s, t) && Ready(s + t[..n])
      ensures old(Dependable()) ==> (ok <==> |s| + |t| + 2 <= limit) && (ok ==> Dependable())
    {
      ok := Append(|t| + 1, t + [0], n, s);
      if ok {
        assert (t + [0])[..n] == t[..n];
        assert s + (t + [0]) == s + t + [0];
      }
    }

    /** update_offset: past the text that ends at the NUL. */
    method UpdateOffset(ghost s: seq<Byte>, ghost t: seq<Byte>)
      requires Valid() && Holds(s, t) && NulFree(t)
      modifies this`offset
      ensures Valid() && Ready(s + t)
    {
      assert forall i | |s| <= i < |s| + |t| :: buffer[i] == buffer[..|s| + |t| + 1][i] == t[i - |s|];
      assert buffer[|s| + |t|] == buffer[..|s| + |t| + 1][|s| + |t|] == 0;
      var length := 0;
      while buffer[offset + length] != 0
        invariant offset + length <= |s| + |t|
        decreases |s| + |t| - offset - length
      {
        length := length + 1;
      }
      offset := offset + length;
      assert buffer[..|s| + |t|] == buffer[..|s| + |t| + 1][..|s| + |t|] == s + t;
    }

    /** Bytes are stored at a distance from the offset, behind what is done already. */
    method StoreAt(w: nat, k: seq<Byte>, ghost done: seq<Byte>)
      requires buffer != null && offset + w + |k| <= buffer.Length
      requires |done| == offset + w && buffer[..offset + w] == done
      modifies buffer
      ensures buffer[..offset + w + |k|] == done + k
    {
      var i := 0;
      while i < |k|
        invariant 0 <= i <= |k|
        invariant buffer[..offset + w + i] == done + k[..i]
      {
        buffer[offset + w + i] := k[i];
        i := i + 1;
      }
      assert k[..i] == k;
    }

    /** One byte of a string is written as itself or escaped; sprintf also leaves a NUL behind the
        digits of a \u escape. */
    method StoreEscaped(b: Byte, w: nat, ghost done: seq<Byte>) returns (w': nat)
      requires buffer != null && b != 0 && offset + w + |RenderPiece(PieceOf(b))| < buffer.Length
      requires |done| == offset + w && buffer[..offset + w] == done
      modifies buffer
      ensures w' == w + |RenderPiece(PieceOf(b))| && buffer[..offset + w'] == done + RenderPiece(PieceOf(b))
    {
      EscapedAs(b);
      hide RenderPiece, PieceOf;
      if b > 31 && b != QUOTE && b != BACKSLASH {
        StoreAt(w, [b], done);
        w' := w + 1;
      } else if b == BACKSLASH || b == QUOTE || b == 8 || b == 12 || b == 10 || b == 13 || b == 9 {
        StoreAt(w, [BACKSLASH, ShortMark(b)], done);
        w' := w + 2;
      } else {
        StoreAt(w, UnicodeEscape(b) + [0], done);
        w' := w + 6;
        WithoutNul(buffer[..offset + w'+ 1], done, UnicodeEscape(b));
        assert buffer[..offset + w'] == buffer[..offset + w' + 1][..offset + w'];
      }
    }

    /** The loop of the second pass of print_string_ptr. */
    method StoreBytes(input: seq<Byte>, ghost s: seq<Byte>)
      requires Valid() && Ready(s) && NulFree(input)
      requires |s| + |input| + EscapesIn(input) + 3 <= buffer.Length && buffer[..|s| + 1] == s + [QUOTE]
      modifies buffer
      ensures buffer[..|s| + 1 + |input| + EscapesIn(input)] == s + ([QUOTE] + RenderPieces(PiecesOf(input)))
    {
      PiecesSize(input);
      hide RenderPieces, PiecesOf, PieceOf, RenderPiece, EscapesIn, EscapeCharacters, NulFree;
      var w, i := 1, 0;
      StringBegins(input);
      while i < |input|
        invariant 0 <= i <= |input| && w == 1 + i + EscapesIn(input[..i]) <= 1 + |input| + EscapesIn(input)
        invariant buffer[..offset + w] == s + ([QUOTE] + Written(input, i))
        modifies buffer
      {
        StringGoesOn(input, i);
        w := StoreEscaped(input[i], w, s + ([QUOTE] + Written(input, i)));
        Regroup(s, Written(input, i), RenderPiece(PieceOf(input[i])));
        i := i + 1;
      }
      assert input[..i] == input;
    }

    /** The second pass of print_string_ptr, for a string with something to escape. */
    method StoreString(input: seq<Byte>, length: nat, ghost s: seq<Byte>)
      requires Valid() && Ready(s) && NulFree(input) && length == |input| + EscapesIn(input)
      requires |s| + length + 3 <= buffer.Length
      modifies buffer
      ensures Holds(s, StringText(input))
    {
      PiecesSize(input);
      hide RenderPieces, PiecesOf, EscapesIn;
      ghost var text := [QUOTE] + RenderPieces(PiecesOf(input));
      StoreAt(0, [QUOTE], s);
      StoreBytes(input, s);
      StoreAt(length + 1, [QUOTE, 0], s + text);
      assert s + text + [QUOTE, 0] == s + (text + [QUOTE]) + [0];
    }

    /** print_string_ptr: the first pass counts the bytes, the second writes them. */
    method PrintStringPtr(input: seq<Byte>, ghost s: seq<Byte>) returns (ok: bool)
      requires Valid() && Ready(s) && NulFree(input)
      modifies this, buffer
      ensures Valid() && depth == old(depth)
      ensures buffer == old(buffer) || (!noalloc && (buffer == null || fresh(buffer)))
      ensures ok ==> Holds(s, StringText(input))
      ensures old(Dependable()) ==> (ok <==> |s| + |StringText(input)| + 2 <= limit) && (ok ==> Dependable())
    {
      hide RenderPieces, PiecesOf, EscapeCharacters;
      var escapeCharacters, n := 0, 0;
      while n < |input|
        invariant 0 <= n <= |input| && escapeCharacters == EscapesIn(input[..n])
        modifies {}
      {
        EscapesGrow(input, n);
        escapeCharacters := escapeCharacters + EscapeCharacters(input[n]);
        n := n + 1;
      }
      assert input[..n] == input;
      hide EscapesIn;
      PiecesSize(input);
      var length := n + escapeCharacters;
      ok := Ensure(length + 3, s);
      if ok {
        if escapeCharacters == 0 {
          NothingToEscape(input);
          Store([QUOTE] + input + [QUOTE, 0], s);
          assert s + ([QUOTE] + input + [QUOTE, 0]) == s + StringText(input) + [0];
        } else {
          StoreString(input, length, s);
        }
      }
    }

    /** print_number: the number is first printed into a buffer of 26 bytes. */
    method PrintNumber(n: int, ghost s: seq<Byte>) returns (ok: bool)
      requires Valid() && Ready(s) && INT_MIN <= n <= INT_MAX
      modifies this, buffer
      ensures Valid() && depth == old(depth)
      ensures buffer == old(buffer) || (!noalloc && (buffer == null || fresh(buffer)))
      ensures ok ==> Holds(s, NumberText(n))
      ensures old(Dependable()) ==> (ok <==> |s| + |NumberText(n)| + 2 <= limit) && (ok ==> Dependable())
    {
      var numberBuffer := NumberText(n);
      NumberFits(n);
      if |numberBuffer| > 25 {
        return false;
      }
      ok := AppendText(numberBuffer, |numberBuffer|, s);
    }

    /** print_value: the text of the value stands behind s, unless it is nested too deeply or does not fit. */
    method PrintValue(v: Value, ghost s: seq<Byte>) returns (ok: bool)
      requires Valid() && Ready(s) && Printable(v)
      modifies this, buffer
      ensures Valid() && (ok ==> depth == old(depth))
      ensures buffer == old(buffer) || (!noalloc && (buffer == null || fresh(buffer)))
      ensures ok ==> Holds(s, Text(v, format, old(depth)))
      ensures old(Dependable()) ==>
                (ok <==> NestingFits(old(depth), Levels(v)) && |s| + |Text(v, format, old(depth))| + 2 <= limit)
      ensures old(Dependable()) && ok ==> Dependable()
      decreases v, 1
    {
      match v
      case Null => ok := AppendText(NULL_TEXT, 0, s);
      case False => ok := AppendText(FALSE_TEXT, 0, s);
      case True => ok := AppendText(TRUE_TEXT, 0, s);
      case Number(_, i) => ok := PrintNumber(i, s);
      case String(t) => ok := PrintStringPtr(t, s);
      case Array(items) => ok := PrintArray(items, s);
      case Object(members) => ok := PrintObject(members, s);
    }

    /** One round of print_array's loop: an item, and a separator unless it is the last. */
    method PrintItem(items: seq<Value>, i: nat, ghost s: seq<Byte>, ghost w: seq<Byte>)
      returns (ok: bool, ghost w': seq<Byte>)
      requires Valid() && Ready(s + w) && (forall x | x in items :: Printable(x)) && i < |items|
      requires Printing(items, i, format, depth, w)
      modifies this, buffer
      ensures Valid() && (ok ==> depth == old(depth))
      ensures buffer == old(buffer) || (!noalloc && (buffer == null || fresh(buffer)))
      ensures ok ==> Ready(s + w') && Printing(items, i + 1, format, depth, w')
      ensures old(Dependable()) && ok ==> Dependable() && NestingFits(depth, Levels(items[i]))
      ensures old(Dependable()) && !ok && NestingFits(old(depth), Levels(items[i]))
          ==> |s| + 1 + |ItemsText(items, format, old(depth))| + 3 > limit
      decreases items, 0
    {
      hide Text, Levels, Printable, ItemsText, Printing, NestingFits, NulFree;
      ghost var t := Text(items[i], format, depth);
      w' := w;
      PrintingGoesOn(items, i, format, depth, w);
      ok := PrintInner(items[i], s + w);
      if !ok {
        return;
      }
      AppendedTo(s, w, t);
      w' := w + t;
      if i + 1 < |items| {
        var separator := if format then [COMMA, SPACE] else [COMMA];
        ok := AppendText(separator, |separator|, s + w');
        assert separator[..|separator|] == separator == ItemSeparator(format);
        AppendedTo(s, w', separator);
        w' := w' + separator;
      }
    }

    /** The loop of print_array. */
    method PrintItems(items: seq<Value>, ghost s: seq<Byte>) returns (ok: bool, ghost w: seq<Byte>)
      requires Valid() && Ready(s + [LBRACKET]) && forall x | x in items :: Printable(x)
      modifies this, buffer
      ensures Valid() && (ok ==> depth == old(depth))
      ensures buffer == old(buffer) || (!noalloc && (buffer == null || fresh(buffer)))
      ensures ok ==> w == [LBRACKET] + ItemsText(items, format, depth) && Ready(s + w)
      ensures old(Dependable()) && ok ==> Dependable() && NestingFits(depth, ItemsLevels(items))
      ensures old(Dependable()) && !ok && NestingFits(old(depth), ItemsLevels(items))
          ==> |s| + 1 + |ItemsText(items, format, old(depth))| + 3 > limit
      decreases items, 1
    {
      hide Text, Levels, Printable, ItemsText, ItemsLevels, Printing, NestingFits, LevelsFit;
      ghost var d := depth;
      w := [LBRACKET];
      PrintingBegins(items, format, d);
      ok := true;
      var i := 0;
      while i < |items|
        invariant 0 <= i <= |items| && Valid() && depth == d && Ready(s + w) && ok
        invariant buffer == old(buffer) || (!noalloc && fresh(buffer))
        invariant Printing(items, i, format, d, w)
        invariant old(Dependable()) ==> Dependable() && LevelsFit(items[..i], d)
      {
        LevelsAbove(items, i, d);
        LevelsGrow(items, i, d);
        ok, w := PrintItem(items, i, s, w);
        if !ok {
          return;
        }
        i := i + 1;
      }
      PrintingEnds(items, format, d, w);
    }

    /** The end of an array or object. */
    method Close(close: seq<Byte>, ghost s: seq<Byte>, ghost w: seq<Byte>) returns (ok: bool)
      requires Valid() && Ready(s + w) && depth > 0
      modifies this, buffer
      ensures Valid() && depth == if ok then old(depth) - 1 else old(depth)
      ensures buffer == old(buffer) || (!noalloc && (buffer == null || fresh(buffer)))
      ensures ok ==> Holds(s, w + close)
      ensures old(Dependable()) ==> (ok <==> |s| + |w + close| + 2 <= limit) && (ok ==> Dependable())
    {
      ok := AppendText(close, 0, s + w);
      if ok {
        HoldsFrom(s, w, close);
        depth := depth - 1;
      }
    }

    /** print_array */
    method PrintArray(items: seq<Value>, ghost s: seq<Byte>) returns (ok: bool)
      requires Valid() && Ready(s) && forall x | x in items :: Printable(x)
      modifies this, buffer
      ensures Valid() && (ok ==> depth == old(depth))
      ensures buffer == old(buffer) || (!noalloc && (buffer == null || fresh(buffer)))
      ensures ok ==> Holds(s, Text(Array(items), format, old(depth)))
      ensures old(Dependable()) ==>
                (ok <==> NestingFits(old(depth), Levels(Array(items)))
                         && |s| + |Text(Array(items), format, old(depth))| + 2 <= limit)
      ensures old(Dependable()) && ok ==> Dependable()
      decreases items, 2
    {
      hide Text, Levels, Printable, ItemsText, ItemsLevels, NestingFits, LevelsFit;
      ArrayOf(items, format, depth);
      if depth >= CJSON_NESTING_LIMIT {
        return false;
      }
      ok := Append(1, [LBRACKET], 1, s);
      if !ok {
        return;
      }
      depth := depth + 1;
      assert [LBRACKET][..1] == [LBRACKET];
      ghost var w;
      ok, w := PrintItems(items, s);
      if !ok {
        return;
      }
      ok := Close([RBRACKET], s, w);
    }

    /** A name is printed and the offset moves behind it. */
    method PrintKey(name: seq<Byte>, ghost s: seq<Byte>) returns (ok: bool)
      requires Valid() && Ready(s) && NulFree(name)
      modifies this, buffer
      ensures Valid() && depth == old(depth)
      ensures buffer == old(buffer) || (!noalloc && (buffer == null || fresh(buffer)))
      ensures ok ==> Ready(s + StringText(name))
      ensures old(Dependable()) ==> (ok <==> |s| + |StringText(name)| + 2 <= limit) && (ok ==> Dependable())
    {
      ok := PrintStringPtr(name, s);
      if ok {
        NulFreeString(name);
        hide NulFree, StringText;
        UpdateOffset(s, StringText(name));
      }
    }

    /** A value is printed and the offset moves behind it. */
    method PrintInner(v: Value, ghost s: seq<Byte>) returns (ok: bool)
      requires Valid() && Ready(s) && Printable(v)
      modifies this, buffer
      ensures Valid() && (ok ==> depth == old(depth))
      ensures buffer == old(buffer) || (!noalloc && (buffer == null || fresh(buffer)))
      ensures ok ==> Ready(s + Text(v, format, old(depth)))
      ensures old(Dependable()) ==>
                (ok <==> NestingFits(old(depth), Levels(v)) && |s| + |Text(v, format, old(depth))| + 2 <= limit)
      ensures old(Dependable()) && ok ==> Dependable()
      decreases v, 2
    {
      hide Text, Levels, Printable, NestingFits, NulFree;
      ghost var t := Text(v, format, depth);
      ok := PrintValue(v, s);
      if ok {
        NulFreeText(v, format, depth);
        UpdateOffset(s, t);
      }
    }

    /** The tabs, the name and the colon of a member. */
    method PrintName(name: seq<Byte>, ghost s: seq<Byte>) returns (ok: bool)
      requires Valid() && Ready(s) && NulFree(name)
      modifies this, buffer
      ensures Valid() && depth == old(depth)
      ensures buffer == old(buffer) || (!noalloc && (buffer == null || fresh(buffer)))
      ensures ok ==> Ready(s + (Indent(format, depth) + StringText(name) + Colon(format)))
      ensures old(Dependable()) ==> if ok then Dependable()
                else |s| + |Indent(format, depth) + StringText(name) + Colon(format)| + 1 > limit
    {
      hide NulFree, StringText;
      ghost var w: seq<Byte> := [];
      assert s + w == s;
      if format {
        ok := Append(depth, Tabs(depth), depth, s);
        if !ok {
          return;
        }
        w := Tabs(depth);
        assert w[..depth] == w;
      }
      ok := PrintKey(name, s + w);
      if !ok {
        return;
      }
      AppendedTo(s, w, StringText(name));
      w := w + StringText(name);
      var colon := if format then [COLON, TAB] else [COLON];
      assert colon[..|colon|] == colon;
      AppendedTo(s, w, colon);
      ok := Append(|colon|, colon, |colon|, s + w);
    }

    /** One round of print_object's loop: the name, a colon, the value, and what ends the member. */
    method PrintMember(m: Member, last: bool, ghost s: seq<Byte>) returns (ok: bool)
      requires Valid() && Ready(s) && NulFree(m.name) && Printable(m.value)
      modifies this, buffer
      ensures Valid() && (ok ==> depth == old(depth))
      ensures buffer == old(buffer) || (!noalloc && (buffer == null || fresh(buffer)))
      ensures ok ==> Ready(s + MemberText(m, format, depth, last))
      ensures old(Dependable()) ==>
                (ok <==> NestingFits(old(depth), Levels(m.value))
                         && |s| + |MemberText(m, format, old(depth), last)| + 2 <= limit)
      ensures old(Dependable()) && ok ==> Dependable()
      decreases m, 0
    {
      hide Text, Levels, Printable, NestingFits, NulFree, StringText, Indent, Colon, Ready;
      ghost var w, t := Indent(format, depth) + StringText(m.name) + Colon(format), Text(m.value, format, depth);
      ok := PrintName(m.name, s);
      if !ok {
        return;
      }
      ok := PrintInner(m.value, s + w);
      if !ok {
        return;
      }
      AppendedTo(s, w, t);
      var end := (if last then [] else [COMMA]) + (if format then [NEWLINE] else []);
      assert end[..|end|] == end;
      AppendedTo(s, w + t, end);
      ok := AppendText(end, |end|, s + (w + t));
    }

    /** The loop of print_object. */
    method PrintMembers(ms: seq<Member>, ghost s: seq<Byte>) returns (ok: bool, ghost w: seq<Byte>)
      requires Valid() && Ready(s + OpenBrace(format)) && forall m | m in ms :: NulFree(m.name) && Printable(m.value)
      modifies this, buffer
      ensures Valid() && (ok ==> depth == old(depth))
      ensures buffer == old(buffer) || (!noalloc && (buffer == null || fresh(buffer)))
      ensures ok ==> w == OpenBrace(format) + MembersText(ms, format, depth) && Ready(s + w)
      ensures old(Dependable()) && ok ==> Dependable() && NestingFits(depth, MembersLevels(ms))
      ensures old(Dependable()) && !ok && NestingFits(old(depth), MembersLevels(ms))
          ==> |s| + |OpenBrace(format)| + |MembersText(ms, format, old(depth))| + 2 > limit
      decreases ms, 1
    {
      hide Text, Levels, Printable, MemberText, MembersText, MembersLevels, MembersPrinting, NestingFits,
           MembersFit, NulFree, OpenBrace;
      ghost var d := depth;
      w := OpenBrace(format);
      MembersBegin(ms, format, d);
      ok := true;
      var i := 0;
      while i < |ms|
        invariant 0 <= i <= |ms| && Valid() && depth == d && Ready(s + w) && ok
        invariant buffer == old(buffer) || (!noalloc && fresh(buffer))
        invariant MembersPrinting(ms, i, format, d, w)
        invariant old(Dependable()) ==> Dependable() && MembersFit(ms[..i], d)
      {
        MembersGoOn(ms, i, format, d, w);
        MemberLevelsAbove(ms, i, d);
        MemberLevelsGrow(ms, i, d);
        ghost var t := MemberText(ms[i], format, d, i + 1 == |ms|);
        ok := PrintMember(ms[i], i + 1 == |ms|, s + w);
        if !ok {
          return;
        }
        AppendedTo(s, w, t);
        w := w + t;
        i := i + 1;
      }
      MembersEnd(ms, format, d, w);
    }

    /** print_object */
    method PrintObject(ms: seq<Member>, ghost s: seq<Byte>) returns (ok: bool)
      requires Valid() && Ready(s) && forall m | m in ms :: NulFree(m.name) && Printable(m.value)
      modifies this, buffer
      ensures Valid() && (ok ==> depth == old(depth))
      ensures buffer == old(buffer) || (!noalloc && (buffer == null || fresh(buffer)))
      ensures ok ==> Holds(s, Text(Object(ms), format, old(depth)))
      ensures old(Dependable()) ==>
                (ok <==> NestingFits(old(depth), Levels(Object(ms)))
                         && |s| + |Text(Object(ms), format, old(depth))| + 2 <= limit)
      ensures old(Dependable()) && ok ==> Dependable()
      decreases ms, 2
    {
      hide Text, Levels, Printable, MembersText, MembersLevels, NestingFits, MembersFit, NulFree;
      ObjectOf(ms, format, depth);
      if depth >= CJSON_NESTING_LIMIT {
        return false;
      }
      var open := if format then [LBRACE, NEWLINE] else [LBRACE];
      ok := Append(|open| + 1, open, |open|, s);
      if !ok {
        return;
      }
      depth := depth + 1;
      assert open[..|open|] == open == OpenBrace(format);
      ghost var w;
      ok, w := PrintMembers(ms, s);
      if !ok {
        return;
      }
      var close: seq<Byte> := (if format then Tabs(depth - 1) else []) + [RBRACE];
      assert close == Closing(format, depth - 1);
      ok := Close(close, s, w);
    }

    /** What stands behind s and w stands behind s. */
    lemma HoldsFrom(s: seq<Byte>, w: seq<Byte>, t: seq<Byte>)
      requires Holds(s + w, t)
      ensures Holds(s, w + t)
    {
      assert s + w + t + [0] == s + (w + t) + [0];
    }
  }

  const DEFAULT_BUFFER_SIZE: nat := 256

  /** print, behind cJSON_Print and cJSON_PrintUnformatted: a new string that holds the text. */
  method Print(item: Value, format: bool, hooks: Hooks) returns (printed: array?<Byte>)
    requires Printable(item)
    ensures printed != null ==> fresh(printed) && printed[..] == Text(item, format, 0) + [0]
    ensures hooks.reliable ==> (printed != null <==> Levels(item) <= CJSON_NESTING_LIMIT
                                                     && |Text(item, format, 0)| + 2 <= INT_MAX)
  {
    hide Text, Levels, Printable;
    var granted: bool := *;
    if !(granted || hooks.reliable) {
      return null;
    }
    var storage := new Byte[DEFAULT_BUFFER_SIZE];
    var p := new PrintBuffer(storage, false, format, hooks);
    ghost var t := Text(item, format, 0);
    assert [] + t == t;
    var ok := p.PrintInner(item, []);
    if !ok {
      return null;
    }
    granted := *;
    if !(granted || hooks.reliable) {
      return null;
    }
    printed := CopyText(p.buffer, p.offset);
  }

  method CopyText(buffer: array<Byte>, offset: nat) returns (printed: array<Byte>)
    requires offset <= buffer.Length
    ensures fresh(printed) && printed[..] == buffer[..offset] + [0]
  {
    printed := new Byte[offset + 1];
    var i := 0;
    while i < offset
      invariant 0 <= i <= offset < printed.Length && printed[..i] == buffer[..i]
      modifies printed
    {
      printed[i] := buffer[i];
      i := i + 1;
    }
    printed[offset] := 0;
    assert printed[..] == printed[..offset] + [0];
  }

  /** cJSON_PrintPreallocated: one byte more than the text and its NUL is needed, and is enough. */
  method PrintPreallocated(item: Value, storage: array<Byte>, format: bool) returns (ok: bool)
    requires Printable(item) && storage.Length <= INT_MAX
    modifies storage
    ensures ok <==> Levels(item) <= CJSON_NESTING_LIMIT && |Text(item, format, 0)| + 2 <= storage.Length
    ensures ok ==> storage[..|Text(item, format, 0)| + 1] == Text(item, format, 0) + [0]
  {
    hide Text, Levels, Printable;
    var p := new PrintBuffer(storage, true, format, Hooks(false, false));
    ghost var t := Text(item, format, 0);
    assert [] + t + [0] == t + [0];
    ok := p.PrintValue(item, []);
    assert p.noalloc;
  }

  /** The letter behind the backslash, for the bytes that have a two-character escape. */
  function ShortMark(b: Byte): Byte {
    if b == 8 then 98 else if b == 12 then 102 else if b == 10 then 110
    else if b == 13 then 114 else if b == 9 then 116 else b
  }

  function UnicodeEscape(b: Byte): (s: seq<Byte>)
    ensures |s| == 6
  {
    [BACKSLASH, LOWER_U, 48, 48, HexDigitOf(b / 16), HexDigitOf(b % 16)]
  }

  lemma EscapedAs(b: Byte)
    requires b != 0
    ensures b > 31 && b != QUOTE && b != BACKSLASH ==> RenderPiece(PieceOf(b)) == [b]
    ensures b == BACKSLASH || b == QUOTE || b == 8 || b == 12 || b == 10 || b == 13 || b == 9
        ==> RenderPiece(PieceOf(b)) == [BACKSLASH, ShortMark(b)]
    ensures b < 32 && !(b == 8 || b == 12 || b == 10 || b == 13 || b == 9)
        ==> RenderPiece(PieceOf(b)) == UnicodeEscape(b)
  {}

  lemma WithoutNul(all: seq<Byte>, done: seq<Byte>, k: seq<Byte>)
    requires all == done + (k + [0])
    ensures all[..|done| + |k|] == done + k
  {}

  /** What the second pass has written behind the quote after i bytes. */
  ghost function Written(input: seq<Byte>, i: nat): seq<Byte>
    requires NulFree(input) && i <= |input|
  {
    RenderPieces(PiecesOf(input[..i]))
  }

  lemma StringBegins(input: seq<Byte>)
    requires NulFree(input)
    ensures Written(input, 0) == [] && EscapesIn(input[..0]) == 0
  {}

  lemma StringGoesOn(input: seq<Byte>, i: nat)
    requires NulFree(input) && i < |input|
    ensures Written(input, i + 1) == Written(input, i) + RenderPiece(PieceOf(input[i]))
    ensures input[i] != 0 && |RenderPiece(PieceOf(input[i]))| == 1 + EscapeCharacters(input[i])
    ensures EscapesIn(input[..i]) + EscapeCharacters(input[i]) == EscapesIn(input[..i + 1]) <= EscapesIn(input)
  {
    hide PieceOf, RenderPiece, EscapeCharacters, EscapesIn, PiecesOf, RenderPieces;
    EscapesGrow(input, i);
    PieceSize(input[i]);
    PiecesLast(input[..i], input[i]);
    assert input[..i + 1] == input[..i] + [input[i]];
  }

  lemma Regroup(s: seq<Byte>, done: seq<Byte>, t: seq<Byte>)
    ensures s + ([QUOTE] + done) + t == s + ([QUOTE] + (done + t))
  {}

  lemma AppendedTo(s: seq<Byte>, w: seq<Byte>, t: seq<Byte>)
    ensures s + w + t == s + (w + t)
  {}

  lemma ArrayOf(items: seq<Value>, fmt: bool, depth: nat)
    requires forall x | x in items :: Printable(x)
    ensures Printable(Array(items))
    ensures Text(Array(items), fmt, depth) == [LBRACKET] + ItemsText(items, fmt, depth + 1) + [RBRACKET]
    ensures NestingFits(depth, Levels(Array(items)))
       <==> depth < CJSON_NESTING_LIMIT && NestingFits(depth + 1, ItemsLevels(items))
  {}

  /** The first i items of an array have been printed as w. */
  ghost predicate Printing(items: seq<Value>, i: nat, fmt: bool, d: nat, w: seq<Byte>)
    requires forall x | x in items :: Printable(x)
  {
    i <= |items| && w + ItemsText(items[i..], fmt, d) == [LBRACKET] + ItemsText(items, fmt, d)
  }

  lemma PrintingBegins(items: seq<Value>, fmt: bool, d: nat)
    requires forall x | x in items :: Printable(x)
    ensures Printing(items, 0, fmt, d, [LBRACKET]) && LevelsFit(items[..0], d)
  {
    assert items[0..] == items;
  }

  lemma PrintingGoesOn(items: seq<Value>, i: nat, fmt: bool, d: nat, w: seq<Byte>)
    requires (forall x | x in items :: Printable(x)) && i < |items| && Printing(items, i, fmt, d, w)
    ensures var t := Text(items[i], fmt, d);
            var more := if i + 1 < |items| then ItemSeparator(fmt) else [];
            Printing(items, i + 1, fmt, d, w + t + more) && |w + t + more| <= 1 + |ItemsText(items, fmt, d)|
    ensures i + 1 == |items| ==> w + Text(items[i], fmt, d) + [] == w + Text(items[i], fmt, d)
  {
    var rest := items[i..];
    assert rest[0] == items[i] && rest[1..] == items[i + 1..];
    FirstItem(rest, fmt, d);
    hide Text, ItemsText;
    var t := Text(items[i], fmt, d);
    var more := if i + 1 < |items| then ItemSeparator(fmt) else [];
    Regroup3(w, t, more, ItemsText(items[i + 1..], fmt, d));
  }

  lemma Regroup3(a: seq<Byte>, b: seq<Byte>, c: seq<Byte>, d: seq<Byte>)
    ensures a + (b + c + d) == a + b + c + d
    ensures |a + b + c + d| >= |a + b + c|
  {}

  lemma PrintingEnds(items: seq<Value>, fmt: bool, d: nat, w: seq<Byte>)
    requires (forall x | x in items :: Printable(x)) && Printing(items, |items|, fmt, d, w)
    ensures w == [LBRACKET] + ItemsText(items, fmt, d)
    ensures LevelsFit(items[..|items|], d) <==> NestingFits(d, ItemsLevels(items))
  {
    assert items[..|items|] == items;
    assert items[|items|..] == [];
    assert w + [] == w;
  }

  ghost predicate LevelsFit(items: seq<Value>, d: nat) { NestingFits(d, ItemsLevels(items)) }

  lemma {:induction false} ItemsLevelsLast(items: seq<Value>, x: Value)
    ensures ItemsLevels(items + [x]) == Max(ItemsLevels(items), Levels(x))
    decreases |items|
  {
    var all := items + [x];
    if items == [] {
      assert all == [x];
    } else {
      ItemsLevelsLast(items[1..], x);
      assert all[1..] == items[1..] + [x];
    }
  }

  lemma LevelsGrow(items: seq<Value>, i: nat, d: nat)
    requires i < |items|
    ensures LevelsFit(items[..i + 1], d) <==> LevelsFit(items[..i], d) && NestingFits(d, Levels(items[i]))
  {
    ItemsLevelsLast(items[..i], items[i]);
    assert items[..i + 1] == items[..i] + [items[i]];
  }

  /** One item nested too deeply is enough. */
  lemma {:induction false} LevelsAbove(items: seq<Value>, i: nat, d: nat)
    requires i < |items|
    ensures NestingFits(d, ItemsLevels(items)) ==> NestingFits(d, Levels(items[i]))
    decreases i
  {
    if i > 0 {
      LevelsAbove(items[1..], i - 1, d);
    }
  }

  lemma ObjectOf(ms: seq<Member>, fmt: bool, depth: nat)
    requires forall m | m in ms :: NulFree(m.name) && Printable(m.value)
    ensures Printable(Object(ms))
    ensures Text(Object(ms), fmt, depth) == OpenBrace(fmt) + MembersText(ms, fmt, depth + 1) + Closing(fmt, depth)
    ensures NestingFits(depth, Levels(Object(ms)))
       <==> depth < CJSON_NESTING_LIMIT && NestingFits(depth + 1, MembersLevels(ms))
  {}

  /** The first i members of an object have been printed as w. */
  ghost predicate MembersPrinting(ms: seq<Member>, i: nat, fmt: bool, d: nat, w: seq<Byte>)
    requires forall m | m in ms :: NulFree(m.name) && Printable(m.value)
  {
    i <= |ms| && w + MembersText(ms[i..], fmt, d) == OpenBrace(fmt) + MembersText(ms, fmt, d)
  }

  lemma MembersBegin(ms: seq<Member>, fmt: bool, d: nat)
    requires forall m | m in ms :: NulFree(m.name) && Printable(m.value)
    ensures MembersPrinting(ms, 0, fmt, d, OpenBrace(fmt)) && MembersFit(ms[..0], d)
  {
    assert ms[0..] == ms;
  }

  lemma MembersGoOn(ms: seq<Member>, i: nat, fmt: bool, d: nat, w: seq<Byte>)
    requires forall m | m in ms :: NulFree(m.name) && Printable(m.value)
    requires i < |ms| && MembersPrinting(ms, i, fmt, d, w)
    ensures var t := MemberText(ms[i], fmt, d, i + 1 == |ms|);
            MembersPrinting(ms, i + 1, fmt, d, w + t)
            && |w + t| <= |OpenBrace(fmt)| + |MembersText(ms, fmt, d)|
  {
    var rest := ms[i..];
    assert rest[0] == ms[i] && rest[1..] == ms[i + 1..];
    FirstMember(rest, fmt, d);
    hide MemberText, MembersText, OpenBrace;
    var t := MemberText(ms[i], fmt, d, i + 1 == |ms|);
    Regroup2(w, t, MembersText(ms[i + 1..], fmt, d));
  }

  lemma Regroup2(a: seq<Byte>, b: seq<Byte>, c: seq<Byte>)
    ensures a + (b + c) == a + b + c && |a + b + c| >= |a + b|
  {}

  lemma MembersEnd(ms: seq<Member>, fmt: bool, d: nat, w: seq<Byte>)
    requires forall m | m in ms :: NulFree(m.name) && Printable(m.value)
    requires MembersPrinting(ms, |ms|, fmt, d, w)
    ensures w == OpenBrace(fmt) + MembersText(ms, fmt, d)
    ensures MembersFit(ms[..|ms|], d) <==> NestingFits(d, MembersLevels(ms))
  {
    assert ms[..|ms|] == ms;
    assert ms[|ms|..] == [];
    assert w + [] == w;
  }

  ghost predicate MembersFit(ms: seq<Member>, d: nat) { NestingFits(d, MembersLevels(ms)) }

  lemma {:induction false} MembersLevelsLast(ms: seq<Member>, m: Member)
    ensures MembersLevels(ms + [m]) == Max(MembersLevels(ms), Levels(m.value))
    decreases |ms|
  {
    var all := ms + [m];
    if ms == [] {
      assert all == [m];
    } else {
      MembersLevelsLast(ms[1..], m);
      assert all[1..] == ms[1..] + [m];
    }
  }

  lemma MemberLevelsGrow(ms: seq<Member>, i: nat, d: nat)
    requires i < |ms|
    ensures MembersFit(ms[..i + 1], d) <==> MembersFit(ms[..i], d) && NestingFits(d, Levels(ms[i].value))
  {
    MembersLevelsLast(ms[..i], ms[i]);
    assert ms[..i + 1] == ms[..i] + [ms[i]];
  }

  lemma {:induction false} MemberLevelsAbove(ms: seq<Member>, i: nat, d: nat)
    requires i < |ms|
    ensures NestingFits(d, MembersLevels(ms)) ==> NestingFits(d, Levels(ms[i].value))
    decreases i
  {
    if i > 0 {
      MemberLevelsAbove(ms[1..], i - 1, d);
    }
  }
}
