/** Output of integer conversions, through a callback, into a buffer of limited size. */
module Stdio {
  import opened Formats

  /** The reversal of what a buffer holds: it is filled from the last character of the text. */
  function Backwards(s: string): string {
    if s == [] then [] else [s[|s| - 1]] + Backwards(s[..|s| - 1])
  }

  lemma BackwardsPush(s: string, ch: char)
    ensures Backwards(s + [ch]) == [ch] + Backwards(s)
  {
    assert (s + [ch])[..|s|] == s;
  }

  function Least(x: nat, y: nat): nat {
    if x < y then x else y
  }

  method Push(buf: array<char>, cp: nat, ch: char)
    requires cp < buf.Length
    modifies buf
    ensures Backwards(buf[..cp + 1]) == [ch] + Backwards(old(buf[..cp]))
  {
    ghost var was := buf[..cp];
    buf[cp] := ch;
    assert buf[..cp + 1] == was + [ch];
    BackwardsPush(was, ch);
  }

  function Mark(b: Base, grouped: bool, count: nat): string
    requires 1 <= b.group
  {
    if grouped && count > 0 && count % b.group == 0 then [','] else []
  }

  method PushDigit(buf: array<char>, start: nat, left: nat, b: Base, grouped: bool, count: nat) returns (cp: nat)
    requires 2 <= b.base == |b.digits| && 1 <= b.group
    requires start + 2 <= buf.Length
    modifies buf
    ensures cp <= start + 2
    ensures cp <= buf.Length
    ensures Backwards(buf[..cp]) == [b.digits[left % b.base]] + (Mark(b, grouped, count) + Backwards(old(buf[..start])))
  {
    hide Backwards;
    cp := start;
    ghost var lower := Backwards(buf[..cp]);
    if grouped && count > 0 && count % b.group == 0 {
      Push(buf, cp, ',');
      cp := cp + 1;
    }
    assert Backwards(buf[..cp]) == Mark(b, grouped, count) + lower;
    Push(buf, cp, b.digits[left % b.base]);
    cp := cp + 1;
  }

  /** A 64-bit value has at most 22 digits, so that digits and commas never fill the buffer. */
  method AccumulateDigits(buf: array<char>, value: nat, b: Base, grouped: bool) returns (cp: nat)
    requires buf.Length == 64 && value < 0x1_0000_0000_0000_0000 && ValidBase(b)
    modifies buf
    ensures cp < 64 && Backwards(buf[..cp]) == Marked(value, b, grouped, 0)
  {
    hide ValidBase, Backwards, PowerOf8, Marked, Mark;
    NeededOfBase(b);
    LargeBase(b);
    LongestValue();
    cp := 0;
    var digitCount: nat, left: nat := 0, value;
    EmptyBackwards();
    assert buf[..0] == [] && Marked(value, b, grouped, 0) + [] == Marked(value, b, grouped, 0);
    while left > 0
      invariant digitCount <= 22 && cp <= 2 * digitCount && left < PowerOf8(22 - digitCount)
      invariant Marked(left, b, grouped, digitCount) + Backwards(buf[..cp]) == Marked(value, b, grouped, 0)
    {
      QuotientFits(left, b.base, 22 - digitCount);
      SmallerQuotient(left, b.base);
      MarkedStep(left, b, grouped, digitCount, Backwards(buf[..cp]));
      cp := PushDigit(buf, cp, left, b, grouped, digitCount);
      left := left / b.base;
      digitCount := digitCount + 1;
    }
    NothingMarked(b, grouped, digitCount);
    assert [] + Backwards(buf[..cp]) == Backwards(buf[..cp]);
  }

  lemma NothingMarked(b: Base, grouped: bool, count: nat)
    requires 2 <= b.base == |b.digits| && 1 <= b.group
    ensures Marked(0, b, grouped, count) == []
  {}

  lemma EmptyBackwards()
    ensures Backwards([]) == []
  {}

  lemma LargeBase(b: Base)
    requires ValidBase(b)
    ensures 8 <= b.base
  {}

  lemma MarkedStep(left: nat, b: Base, grouped: bool, count: nat, lower: string)
    requires 2 <= b.base == |b.digits| && 1 <= b.group && left > 0
    ensures Marked(left, b, grouped, count) + lower
         == Marked(left / b.base, b, grouped, count + 1)
            + ([b.digits[left % b.base]] + (Mark(b, grouped, count) + lower))
  {}

  method FillDigits(buf: array<char>, value: nat, b: Base, c: Conversion) returns (cp: nat)
    requires buf.Length == 64 && value < 0x1_0000_0000_0000_0000 && ValidBase(b)
    modifies buf
    ensures 2 <= b.base == |b.digits| && 1 <= b.group
    ensures cp <= 64 && Backwards(buf[..cp]) == DigitText(value, b, c)
  {
    hide ValidBase, Backwards, Marked;
    NeededOfBase(b);
    cp := AccumulateDigits(buf, value, b, c.grouped);
    ghost var m := Marked(value, b, c.grouped, 0);
    BackwardsLength(buf[..cp]);
    assert Repeat('0', 0) + m == m;
    var precision := if c.precision < 0 then 1 else c.precision;
    while cp < precision && cp < 63
      invariant |m| <= cp <= 63 && (cp <= precision || cp == |m|)
      invariant Backwards(buf[..cp]) == Repeat('0', cp - |m|) + m
    {
      Push(buf, cp, '0');
      cp := cp + 1;
      ZeroInFront(cp - |m|, m);
    }
    ghost var z := Backwards(buf[..cp]);
    BackwardsFirst(buf[..cp]);
    BackwardsLength(buf[..cp]);
    if c.pound && b.base == 8 && (cp == 0 || buf[cp - 1] != '0') {
      Push(buf, cp, '0');
      cp := cp + 1;
    }
  }

  lemma ZeroInFront(n: nat, m: string)
    requires n > 0
    ensures Repeat('0', n) + m == ['0'] + (Repeat('0', n - 1) + m)
  {}

  lemma BackwardsFirst(s: string)
    ensures s != [] ==> Backwards(s) != [] && Backwards(s)[0] == s[|s| - 1]
  {}

  /** The state of output into the `maxLength` places of a buffer that begin at `start`. */
  class OutputBuffer {
    const buffer: array<char>
    const start: nat
    const maxLength: nat
    var length: nat
    var p: nat
    ghost var written: string
    ghost const before: string

    ghost predicate Valid()
      reads this, buffer
    {
      && |before| == buffer.Length && start + maxLength <= buffer.Length
      && length == |written|
      && p == start + Least(length, maxLength)
      && buffer[..] == before[..start] + written[..p - start] + before[p..]
    }

    constructor (buffer: array<char>, start: nat, maxLength: nat)
      requires start + maxLength <= buffer.Length
      ensures Valid() && written == [] && before == buffer[..]
      ensures this.buffer == buffer && this.start == start && this.maxLength == maxLength
    {
      this.buffer, this.start, this.maxLength := buffer, start, maxLength;
      length, p, written, before := 0, start, [], buffer[..];
    }

    /** Every character counts; the ones that do not fit are dropped. */
    method Output(ch: char)
      requires Valid()
      modifies this, buffer
      ensures Valid() && written == old(written) + [ch]
    {
      ghost var was := buffer[..];
      if length < maxLength {
        assert was[p] == before[p..][0];
        buffer[p] := ch;
        p := p + 1;
      }
      length := length + 1;
      written := written + [ch];
      assert buffer[..] == before[..start] + written[..p - start] + before[p..];
    }

    method OutputDup(ch: char, count: nat)
      requires Valid()
      modifies this, buffer
      ensures Valid() && written == old(written) + Repeat(ch, count)
    {
      var left: nat := count;
      while left > 0
        invariant left <= count && Valid()
        invariant written + Repeat(ch, left) == old(written) + Repeat(ch, count)
      {
        RepeatFront(written, ch, left);
        Output(ch);
        left := left - 1;
      }
      assert Repeat(ch, 0) == [];
    }

    /** Sends the first `count` characters of the buffer of digits, last one first. */
    method OutputBackwards(digits: array<char>, count: nat)
      requires Valid() && count <= digits.Length && digits != buffer
      modifies this, buffer
      ensures Valid() && written == old(written) + Backwards(digits[..count])
    {
      var cp: nat := count;
      while cp > 0
        invariant cp <= count && Valid() && digits[..] == old(digits[..])
        invariant written + Backwards(digits[..cp]) == old(written) + Backwards(old(digits[..count]))
      {
        assert digits[..cp][..cp - 1] == digits[..cp - 1];
        AppendFront(written, digits[cp - 1], Backwards(digits[..cp - 1]));
        cp := cp - 1;
        Output(digits[cp]);
      }
      assert digits[..0] == [] && written + Backwards([]) == written;
    }

    method FormatInteger(value: nat, signed: bool, negative: bool, b: Base, c: Conversion)
      requires Valid() && value < 0x1_0000_0000_0000_0000 && ValidBase(b) && c.Valid()
      modifies this, buffer
      ensures Valid() && written == old(written) + Formatted(value, signed, negative, b, c)
    {
      hide ValidBase, Valid, DigitText, Formatted;
      NeededOfBase(b);
      var sign := '\0';
      if signed {
        if c.plus {
          sign := if negative then '-' else '+';
        } else if c.space {
          sign := if negative then '-' else ' ';
        } else if negative {
          sign := '-';
        }
      }
      var x := if c.pound && value != 0 then b.x else '\0';
      var buf := new char[64];
      var cp := FillDigits(buf, value, b, c);
      var padCount := c.width - cp - (if x != '\0' then 2 else 0) - (if sign != '\0' then 1 else 0);
      if padCount < 0 {
        padCount := 0;
      }
      BackwardsLength(buf[..cp]);
      FormattedLayout(value, signed, negative, b, c, sign, x, padCount);
      LayOut(sign, x, padCount, buf, cp, c);
    }

    method LayOut(sign: char, x: char, padCount: nat, buf: array<char>, cp: nat, c: Conversion)
      requires Valid() && cp <= buf.Length && buf != buffer
      modifies this, buffer
      ensures Valid() && written == old(written) + Laid(sign, x, padCount, Backwards(old(buf[..cp])), c)
    {
      hide Repeat, Valid, Backwards;
      if !c.minus && !c.zero {
        OutputDup(' ', padCount);
      }
      ghost var w1 := written;
      OutputPrefix(sign, x);
      ghost var w2 := written;
      if c.zero {
        OutputDup('0', padCount);
      }
      ghost var w3 := written;
      OutputBackwards(buf, cp);
      ghost var w4 := written;
      if c.minus {
        OutputDup(' ', padCount);
      }
      LaidInParts(old(written), w1, w2, w3, w4, written, sign, x, padCount, Backwards(old(buf[..cp])), c);
    }

    method OutputPrefix(sign: char, x: char)
      requires Valid()
      modifies this, buffer
      ensures Valid() && written == old(written) + PrefixLaid(sign, x)
    {
      hide Valid;
      if sign != '\0' {
        Output(sign);
      }
      if x != '\0' {
        Output('0');
        Output(x);
      }
    }
  }

  function PrefixLaid(sign: char, x: char): string {
    (if sign != '\0' then [sign] else []) + (if x != '\0' then ['0', x] else [])
  }

  lemma LaidInParts(w0: string, w1: string, w2: string, w3: string, w4: string, w5: string,
                    sign: char, x: char, pad: nat, digits: string, c: Conversion)
    requires w1 == if !c.minus && !c.zero then w0 + Repeat(' ', pad) else w0
    requires w2 == w1 + PrefixLaid(sign, x)
    requires w3 == if c.zero then w2 + Repeat('0', pad) else w2
    requires w4 == w3 + digits
    requires w5 == if c.minus then w4 + Repeat(' ', pad) else w4
    ensures w5 == w0 + Laid(sign, x, pad, digits, c)
  {
    hide Repeat, PrefixLaid;
    var a := if !c.minus && !c.zero then Repeat(' ', pad) else [];
    var d := if c.zero then Repeat('0', pad) else [];
    var f := if c.minus then Repeat(' ', pad) else [];
    PrefixParts(sign, x);
    assert w1 == w0 + a && w3 == w2 + d && w5 == w4 + f;
    InOnePiece(w0, a, PrefixLaid(sign, x), d, digits, f);
    TwoAsOne(a, if sign != '\0' then [sign] else [], if x != '\0' then ['0', x] else []);
  }

  lemma PrefixParts(sign: char, x: char)
    ensures PrefixLaid(sign, x) == (if sign != '\0' then [sign] else []) + (if x != '\0' then ['0', x] else [])
  {}

  lemma TwoAsOne(a: string, b: string, c: string)
    ensures a + b + c == a + (b + c)
  {}

  lemma InOnePiece(w: string, a: string, b: string, c: string, d: string, e: string)
    ensures w + a + b + c + d + e == w + (a + b + c + d + e)
  {}

  lemma RepeatFront(s: string, ch: char, n: nat)
    requires n > 0
    ensures s + Repeat(ch, n) == (s + [ch]) + Repeat(ch, n - 1)
  {}

  lemma AppendFront(s: string, ch: char, t: string)
    ensures s + ([ch] + t) == (s + [ch]) + t
  {}

  lemma {:induction false} BackwardsLength(s: string)
    ensures |Backwards(s)| == |s|
  {
    if s != [] {
      BackwardsLength(s[..|s| - 1]);
    }
  }

  /** A field from its parts: padding, sign, prefix letter and digit text. */
  function Laid(sign: char, x: char, pad: nat, digits: string, c: Conversion): string {
    (if c.minus || c.zero then [] else Repeat(' ', pad))
    + (if sign != '\0' then [sign] else [])
    + (if x != '\0' then ['0', x] else [])
    + (if c.zero then Repeat('0', pad) else [])
    + digits
    + (if c.minus then Repeat(' ', pad) else [])
  }

  lemma FormattedLayout(value: nat, signed: bool, negative: bool, b: Base, c: Conversion, sign: char, x: char, pad: nat)
    requires ValidBase(b)
    requires 2 <= b.base == |b.digits| && 1 <= b.group
    requires sign == if !signed then '\0' else if negative then '-'
                     else if c.plus then '+' else if c.space then ' ' else '\0'
    requires x == if c.pound && value != 0 then b.x else '\0'
    requires pad == Padding(value, signed, negative, b, c)
    ensures Laid(sign, x, pad, DigitText(value, b, c), c) == Formatted(value, signed, negative, b, c)
  {
    hide ValidBase, DigitText, Repeat, Padding;
  }

  /** Prints one converted integer into a buffer of `size` characters at `start`. */
  method Snprintf(buffer: array<char>, start: nat, size: nat, value: nat, signed: bool, negative: bool,
                  b: Base, c: Conversion)
    returns (length: nat)
    requires start + size <= buffer.Length
    requires value < 0x1_0000_0000_0000_0000 && ValidBase(b) && c.Valid()
    modifies buffer
    ensures 2 <= b.base == |b.digits| && 1 <= b.group
    ensures length == |Formatted(value, signed, negative, b, c)|
    ensures buffer[..] == Printed(old(buffer[..]), start, size, Formatted(value, signed, negative, b, c))
  {
    hide ValidBase, Formatted;
    NeededOfBase(b);
    ghost var was := buffer[..];
    ghost var text := Formatted(value, signed, negative, b, c);
    var out := new OutputBuffer(buffer, start, if size > 0 then size - 1 else 0);
    out.FormatInteger(value, signed, negative, b, c);
    if size > 0 {
      buffer[out.p] := '\0';
    }
    length := out.length;
    assert out.written == [] + text == text;
    PrintedInto(was, start, size, text, buffer[..]);
  }

  /** The text or as much of it as there is room for, and a terminator; the other characters stay. */
  function Printed(was: string, start: nat, size: nat, text: string): string
    requires start + size <= |was|
  {
    if size == 0 then was
    else
      var n := Least(|text|, size - 1);
      was[..start] + text[..n] + ['\0'] + was[start + n + 1..]
  }

  lemma PrintedInto(was: string, start: nat, size: nat, text: string, now: string)
    requires start + size <= |was| == |now|
    requires size == 0 ==> now == was[..start] + text[..0] + was[start..]
    requires size > 0 ==>
      var p := start + Least(|text|, size - 1);
      now == (was[..start] + text[..p - start] + was[p..])[p := '\0']
    ensures now == Printed(was, start, size, text)
  {}
}
