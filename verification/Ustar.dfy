/** Headers of ustar archives: composing, parsing, and their agreement. */
module Ustar {
  import opened Wrappers
  import opened Formats
  import opened Stdio

  const HEADER_SIZE: nat := 512
  const NAME: nat := 0
  const MODE: nat := 100
  const UID: nat := 108
  const GID: nat := 116
  const SIZE: nat := 124
  const MTIME: nat := 136
  const CHKSUM: nat := 148
  const TYPEFLAG: nat := 156
  const LINKNAME: nat := 157
  const MAGIC: nat := 257
  const VERSION: nat := 263
  const UNAME: nat := 265
  const GNAME: nat := 297
  const DEVICE: nat := 329

  datatype FileType = Regular | Directory

  datatype Parsed = EndOfArchive | Entry(name: string, kind: FileType, size: nat) | Refused(reason: string)

  function TypeFlag(kind: FileType): char {
    if kind == Regular then '0' else '5'
  }

  // ---- names ----

  predicate StartsWith(s: string, prefix: string) {
    |prefix| <= |s| && s[..|prefix|] == prefix
  }

  predicate Antisocial(s: string) {
    StartsWith(s, "/") || StartsWith(s, "./") || StartsWith(s, "../")
  }

  function AfterSlash(s: string): string {
    if s == [] then [] else if s[0] == '/' then s[1..] else AfterSlash(s[1..])
  }

  lemma AfterSlashShorter(s: string)
    requires s != []
    ensures |AfterSlash(s)| < |s|
  {}

  /** What stands after every leading slash, "./" and "../". */
  function Social(s: string): string
    decreases |s|
  {
    if StartsWith(s, "/") then Social(s[1..])
    else if StartsWith(s, "./") then Social(s[2..])
    else if StartsWith(s, "../") then Social(s[3..])
    else s
  }

  function Stripped(s: string): string {
    var t := Social(s);
    if t == [] || t == ".." then "." else t
  }

  ghost predicate SafeName(s: string) {
    s != [] && !Antisocial(s) && s != ".."
  }

  lemma {:induction false} SocialIsSuffix(s: string)
    ensures !Antisocial(Social(s))
    ensures |Social(s)| <= |s| && Social(s) == s[|s| - |Social(s)|..]
    decreases |s|
  {
    if StartsWith(s, "/") {
      SocialIsSuffix(s[1..]);
    } else if StartsWith(s, "./") {
      SocialIsSuffix(s[2..]);
    } else if StartsWith(s, "../") {
      SocialIsSuffix(s[3..]);
    }
  }

  /** A stripped name is safe, and exactly the safe names are left as they are. */
  lemma StrippedIsSafe(s: string)
    ensures SafeName(Stripped(s))
    ensures Stripped(s) == s <==> SafeName(s)
    ensures Stripped(Stripped(s)) == Stripped(s)
  {
    SocialIsSuffix(s);
    assert !StartsWith(".", "/") by {
      assert "."[..1][0] == '.';
    }
    assert Social(".") == ".";
  }

  lemma SlashAfterPrefix(s: string)
    requires Antisocial(s)
    ensures Social(AfterSlash(s)) == Social(s)
  {
    if StartsWith(s, "/") {
      assert s[0] == '/';
    } else if StartsWith(s, "./") {
      assert s[..2][0] == '.' && s[..2][1] == '/';
      assert s[1..][1..] == s[2..];
    } else {
      assert s[..3][0] == '.' && s[..3][1] == '.' && s[..3][2] == '/';
      assert s[1..][1..] == s[2..] && s[2..][1..] == s[3..];
    }
  }

  /** The components of a path. */
  function Components(s: string): (parts: seq<string>)
    ensures parts != []
  {
    if s == [] then [""]
    else if s[0] == '/' then [""] + Components(s[1..])
    else
      var rest := Components(s[1..]);
      [[s[0]] + rest[0]] + rest[1..]
  }

  /** Whether following the components leaves the directory one starts in, from `depth` levels below it. */
  predicate Leaves(parts: seq<string>, depth: nat) {
    parts != [] &&
    if parts[0] == ".." then depth == 0 || Leaves(parts[1..], depth - 1)
    else Leaves(parts[1..], if parts[0] in {"", "."} then depth else depth + 1)
  }

  /** Only the front of a name is made safe: this name is left as it is, and it leads out of the directory. */
  lemma InnerParentsRemain()
    ensures Stripped("a/../../x") == "a/../../x"
    ensures Leaves(Components("a/../../x"), 0)
  {
    hide *;
    LetterFirst("a/../../x");
    InnerComponents();
    TwoUpFromOne();
  }

  lemma LetterFirst(s: string)
    requires s != [] && s[0] == 'a'
    ensures Stripped(s) == s
  {
    StrippedIsSafe(s);
    hide Stripped, Social;
    assert s[..1][0] == 'a' && (|s| > 1 ==> s[..2][0] == 'a') && (|s| > 2 ==> s[..3][0] == 'a');
  }

  lemma InnerComponents()
    ensures Components("a/../../x") == ["a", "..", "..", "x"]
  {
    hide *;
    NoComponents();
    var x := NextComponent('x', "");
    assert ['x'] + "" == "x" && Components(x) == ["x"];
    var parent := ParentComponent(x);
    var again := ParentComponent(parent);
    assert Components(again) == ["..", "..", "x"];
    var slash := NextComponent('/', again);
    var whole := NextComponent('a', slash);
    assert whole == "a/../../x" && ['a'] + "" == "a";
  }

  lemma TwoUpFromOne()
    ensures Leaves(["a", "..", "..", "x"], 0)
  {
    var c := ["a", "..", "..", "x"];
    assert c[1..] == ["..", "..", "x"] && c[1..][1..] == ["..", "x"];
    assert Leaves(["..", "x"], 0);
  }

  lemma NoComponents()
    ensures Components("") == [""]
  {}

  lemma NextComponent(ch: char, rest: string) returns (s: string)
    ensures s == [ch] + rest
    ensures Components(s) ==
      if ch == '/' then [""] + Components(rest) else [[ch] + Components(rest)[0]] + Components(rest)[1..]
  {
    s := [ch] + rest;
    assert s[1..] == rest;
  }

  lemma ParentComponent(rest: string) returns (s: string)
    ensures s == "../" + rest && Components(s) == [".."] + Components(rest)
  {
    hide Components;
    var slash := NextComponent('/', rest);
    assert Components(slash) == [""] + Components(rest);
    assert ['.'] + "" == "." && ['.'] + "." == "..";
    var dot := NextComponent('.', slash);
    assert Components(dot) == ["."] + Components(rest);
    s := NextComponent('.', dot);
  }

  method StripAntisocialPrefixes(name: string) returns (r: string)
    ensures r == Stripped(name)
  {
    var s := name;
    while Antisocial(s)
      invariant Social(s) == Social(name)
      decreases |s|
    {
      SlashAfterPrefix(s);
      AfterSlashShorter(s);
      s := AfterSlash(s);
    }
    r := if s == [] || s == ".." then "." else s;
  }

  // ---- octal fields ----

  function OctalFrom(s: string, i: nat, so_far: nat): Option<nat>
    requires i <= |s|
    decreases |s| - i
  {
    if i == |s| then None
    else if '0' <= s[i] <= '7' then
      if so_far > 0xFFFF_FFFF / 8 then None
      else OctalFrom(s, i + 1, (s[i] as nat - '0' as nat) + so_far * 8)
    else if s[i] == ' ' || s[i] == '\0' then
      if i > 0 then Some(so_far) else None
    else None
  }

  function OctalField(s: string): Option<nat> {
    OctalFrom(s, 0, 0)
  }

  method ParseOctalField(h: array<char>, at: nat, size: nat) returns (r: Option<nat>)
    requires at + size <= h.Length
    ensures r == OctalField(h[at..at + size])
  {
    ghost var s := h[at..at + size];
    var value: nat := 0;
    var ofs := 0;
    while ofs < size
      invariant 0 <= ofs <= size
      invariant OctalFrom(s, ofs, value) == OctalField(s)
    {
      var c := h[at + ofs];
      assert c == s[ofs];
      if '0' <= c <= '7' {
        if value > 0xFFFF_FFFF / 8 {
          return None;
        }
        value := (c as nat - '0' as nat) + value * 8;
      } else if c == ' ' || c == '\0' {
        if ofs > 0 {
          return Some(value);
        }
        return None;
      } else {
        return None;
      }
      ofs := ofs + 1;
    }
    return None;
  }

  /** Octal digits for a field of `width` characters, zeros in front. */
  function OctalConversion(width: nat): Conversion {
    Conversion(false, false, false, false, true, false, width, -1)
  }

  function OctalText(value: nat, width: nat): string {
    OctalValid();
    Formatted(value, false, false, BASE_O, OctalConversion(width))
  }

  lemma OctalDigit(ch: char)
    ensures ch in BASE_O.digits <==> '0' <= ch <= '7'
    ensures ch in BASE_O.digits ==> IndexOf(BASE_O.digits, ch) == ch as int - '0' as int
  {
    if '0' <= ch <= '7' {
      OctalValid();
      var k := ch as int - '0' as int;
      assert k == 0 || k == 1 || k == 2 || k == 3 || k == 4 || k == 5 || k == 6 || k == 7;
      assert BASE_O.digits[k] == ch;
      IndexOfDigit(BASE_O.digits, k);
    }
  }

  ghost predicate OctalDigits(s: string) {
    forall k :: 0 <= k < |s| ==> s[k] in BASE_O.digits
  }

  /** A value of at most `width` octal digits fills its field exactly and reads as itself. */
  lemma OctalTextShape(value: nat, width: nat)
    requires 0 < width && value < PowerOf8(width)
    ensures var t := OctalText(value, width);
      |t| == width && OctalDigits(t) && ReadDigits(t, BASE_O, false, 0) == value
  {
    hide Marked, ReadDigits, DigitText, LeadingZeros, PowerOf8, Padding, ValidBase;
    OctalValid();
    var c := OctalConversion(width);
    var ds := DigitText(value, BASE_O, c);
    var pad := Padding(value, false, false, BASE_O, c);
    OctalFormatted(value, width);
    assert OctalText(value, width) == Repeat('0', pad) + ds;
    OctalDigitsFit(value, width);
    FieldWidth(value, false, false, BASE_O, c);
    DigitTextIsNumber(value, BASE_O, c);
    ZerosInFront(pad, ds, BASE_O, false);
    assert ds + [] == ds;
    ZerosCountNothing(pad, ds, BASE_O, false);
    DigitTextReadBack(value, BASE_O, c, [], false);
    NothingRead(value);
  }

  lemma NothingRead(value: nat)
    ensures ReadDigits([], BASE_O, false, value) == value
  {}

  lemma OctalFormatted(value: nat, width: nat)
    ensures 2 <= BASE_O.base == |BASE_O.digits| && 1 <= BASE_O.group
    ensures OctalText(value, width)
         == Repeat('0', Padding(value, false, false, BASE_O, OctalConversion(width)))
            + DigitText(value, BASE_O, OctalConversion(width))
  {
    hide DigitText, Padding, Repeat;
    OctalValid();
    var z := Repeat('0', Padding(value, false, false, BASE_O, OctalConversion(width)));
    var d := DigitText(value, BASE_O, OctalConversion(width));
    assert [] + [] + [] + z + d + [] == z + d;
  }

  lemma OctalDigitsFit(value: nat, width: nat)
    requires 0 < width && value < PowerOf8(width)
    ensures |DigitText(value, BASE_O, OctalConversion(width))| <= width
  {
    hide Marked, PowerOf8;
    OctalValid();
    MostDigits(value, BASE_O, width, 0);
  }

  lemma {:induction false} DigitsParsed(t: string, i: nat, so_far: nat, total: nat)
    requires i <= |t| && 0 < |t| && OctalDigits(t)
    requires ReadDigits(t[i..], BASE_O, false, so_far) == total <= 0xFFFF_FFFF
    ensures OctalFrom(t + ['\0'], i, so_far) == Some(total)
    decreases |t| - i
  {
    hide ReadDigits, IndexOf;
    if i == |t| {
      assert t[i..] == [];
      NothingRead(so_far);
    } else {
      OctalDigit(t[i]);
      ReadStep(t, i, BASE_O, so_far);
      var longer := so_far * 8 + (t[i] as int - '0' as int);
      DigitsOnlyGrow(t[i + 1..], BASE_O, false, longer);
      DigitsParsed(t, i + 1, longer, total);
    }
  }

  /** Printing into an octal field and parsing the field are inverse. */
  lemma OctalRoundTrip(value: nat, width: nat)
    requires 0 < width && value < PowerOf8(width) && value <= 0xFFFF_FFFF
    ensures OctalField(OctalText(value, width) + ['\0']) == Some(value)
  {
    hide ReadDigits, OctalDigits, OctalText, PowerOf8;
    OctalTextShape(value, width);
    var t := OctalText(value, width);
    assert t[0..] == t;
    DigitsParsed(t, 0, 0, value);
  }

  // ---- the header ----

  /** The characters from `at` on are those of the text. */
  ghost predicate Holds(h: string, at: nat, text: string) {
    at + |text| <= |h| && h[at..at + |text|] == text
  }

  function Zeros(n: nat): string {
    Repeat('\0', n)
  }

  /** The fields in the order of their offsets; the last one takes in the prefix and the padding. */
  const FIELDS: nat := 14

  function FieldAt(i: nat): nat
    requires i <= FIELDS
  {
    if i == 0 then NAME else if i == 1 then MODE else if i == 2 then UID else if i == 3 then GID
    else if i == 4 then SIZE else if i == 5 then MTIME else if i == 6 then CHKSUM else if i == 7 then TYPEFLAG
    else if i == 8 then LINKNAME else if i == 9 then MAGIC else if i == 10 then VERSION else if i == 11 then UNAME
    else if i == 12 then GNAME else if i == 13 then DEVICE else HEADER_SIZE
  }

  function FieldLength(i: nat): nat
    requires i < FIELDS
  {
    FieldsInOrder(i, i + 1);
    FieldAt(i + 1) - FieldAt(i)
  }

  lemma {:induction false} FieldsInOrder(i: nat, j: nat)
    requires i <= j <= FIELDS
    ensures FieldAt(i) <= FieldAt(j)
  {
    if i < j {
      FieldsInOrder(i, j - 1);
    }
  }

  /** What a field is set to; what it does not fill stays zero. */
  function FieldText(i: nat, name: string, kind: FileType, size: nat, sum: nat): string
    requires i < FIELDS
  {
    if i == 0 then name
    else if i == 1 then OctalText(if kind == Regular then 420 else 493, 7)
    else if i == 2 || i == 3 then "0000000"
    else if i == 4 then OctalText(size, 11)
    else if i == 5 then OctalText(1136102400, 11)
    else if i == 6 then OctalText(sum, 7)
    else if i == 7 then [TypeFlag(kind)]
    else if i == 9 then "ustar"
    else if i == 10 then "00"
    else if i == 11 || i == 12 then "root"
    else []
  }

  ghost predicate FieldHolds(h: string, i: nat, text: string)
    requires i < FIELDS && |h| == HEADER_SIZE
  {
    && |text| <= FieldLength(i)
    && Holds(h, FieldAt(i), text + Zeros(FieldLength(i) - |text|))
  }

  /** The fields in `done` are set, the others are zero. */
  ghost predicate Stage(h: string, done: set<nat>, name: string, kind: FileType, size: nat, sum: nat)
    requires |h| == HEADER_SIZE
  {
    forall i: nat :: i < FIELDS ==> FieldHolds(h, i, if i in done then FieldText(i, name, kind, size, sum) else [])
  }

  /** The header of a file: every field has its text and nothing else is set. */
  ghost predicate IsHeader(h: string, name: string, kind: FileType, size: nat) {
    && |h| == HEADER_SIZE
    && forall i: nat :: i < FIELDS ==> FieldHolds(h, i, FieldText(i, name, kind, size, Sum(h, HEADER_SIZE)))
  }

  /** The sum of the first n characters, those of the checksum field counting as spaces. */
  function Sum(h: string, n: nat): nat
    requires n <= |h|
  {
    if n == 0 then 0
    else Sum(h, n - 1) + (if CHKSUM <= n - 1 < CHKSUM + 8 then ' ' as nat else h[n - 1] as nat)
  }

  ghost predicate Octets(h: string) {
    forall k :: 0 <= k < |h| ==> h[k] as int < 256
  }

  method CalculateChksum(h: array<char>) returns (chksum: nat)
    requires h.Length == HEADER_SIZE
    ensures chksum == Sum(h[..], HEADER_SIZE)
  {
    chksum := 0;
    var i := 0;
    while i < HEADER_SIZE
      invariant 0 <= i <= HEADER_SIZE
      invariant chksum == Sum(h[..], i)
    {
      var inChksumField := CHKSUM <= i < CHKSUM + 8;
      chksum := chksum + (if inChksumField then ' ' as nat else h[i] as nat);
      i := i + 1;
    }
  }

  /** The checksum does not depend on the checksum field. */
  lemma {:induction false} SumIgnoresChksum(h: string, g: string, n: nat)
    requires n <= |h| == |g|
    requires forall k :: 0 <= k < |h| && !(CHKSUM <= k < CHKSUM + 8) ==> h[k] == g[k]
    ensures Sum(h, n) == Sum(g, n)
  {
    if n > 0 {
      SumIgnoresChksum(h, g, n - 1);
    }
  }

  lemma {:induction false} SumBounded(h: string, n: nat)
    requires n <= |h| && Octets(h)
    ensures Sum(h, n) <= 255 * n
  {
    if n > 0 {
      SumBounded(h, n - 1);
    }
  }

  // ---- parsing ----

  /** The characters before the first NUL. */
  function CString(s: string): string {
    if s == [] || s[0] == '\0' then [] else [s[0]] + CString(s[1..])
  }

  predicate AllZeros(h: string) {
    forall k :: 0 <= k < |h| ==> h[k] == '\0'
  }

  function ParsedHeader(h: string): Parsed
    requires |h| == HEADER_SIZE
  {
    var name := Stripped(CString(h[NAME..MODE]));
    if AllZeros(h) then EndOfArchive
    else if h[MAGIC..VERSION] != "ustar" + ['\0'] then Refused("not a ustar archive")
    else if h[VERSION] != '0' || h[VERSION + 1] != '0' then Refused("invalid ustar version")
    else if OctalField(h[CHKSUM..TYPEFLAG]).None? then Refused("corrupt chksum field")
    else if OctalField(h[CHKSUM..TYPEFLAG]).value != Sum(h, HEADER_SIZE) then Refused("checksum mismatch")
    else if h[MODE - 1] != '\0' || h[345] != '\0' then Refused("file name too long")
    else if h[TYPEFLAG] == '5' then Entry(name, Directory, 0)
    else if h[TYPEFLAG] != '0' then Refused("unimplemented file type")
    else if OctalField(h[SIZE..MTIME]).None? then Refused("corrupt file size field")
    else if OctalField(h[SIZE..MTIME]).value > 0x7FFF_FFFF then Refused("file too large")
    else Entry(name, Regular, OctalField(h[SIZE..MTIME]).value)
  }

  method IsAllZeros(h: array<char>) returns (r: bool)
    ensures r <==> AllZeros(h[..])
  {
    var i := 0;
    while i < h.Length
      invariant 0 <= i <= h.Length
      invariant forall k :: 0 <= k < i ==> h[k] == '\0'
    {
      if h[i] != '\0' {
        assert h[..][i] != '\0';
        return false;
      }
      i := i + 1;
    }
    return true;
  }

  /** The string that begins at `at` and ends before the first NUL or `end`. */
  method StringAt(h: array<char>, at: nat, end: nat) returns (s: string)
    requires at <= end <= h.Length
    ensures s == CString(h[at..end])
  {
    hide CString;
    ghost var whole := CString(h[at..end]);
    s := [];
    var i := at;
    assert s + whole == whole;
    while i < end && h[i] != '\0'
      invariant at <= i <= end
      invariant s + CString(h[i..end]) == whole
    {
      assert h[i..end][1..] == h[i + 1..end];
      CStringNext(h[i..end]);
      AppendFront(s, h[i], CString(h[i + 1..end]));
      s := s + [h[i]];
      i := i + 1;
    }
    CStringNext(h[i..end]);
    assert s + [] == s;
  }

  lemma CStringNext(t: string)
    ensures CString(t) == if t == [] || t[0] == '\0' then [] else [t[0]] + CString(t[1..])
  {}

  method ParseHeader(h: array<char>) returns (r: Parsed)
    requires h.Length == HEADER_SIZE
    ensures r == ParsedHeader(h[..])
  {
    hide Sum, AllZeros, OctalField;
    var zeros := IsAllZeros(h);
    if zeros {
      return EndOfArchive;
    }
    var magic := h[MAGIC..VERSION];
    if magic != "ustar" + ['\0'] {
      return Refused("not a ustar archive");
    }
    if h[VERSION] != '0' || h[VERSION + 1] != '0' {
      return Refused("invalid ustar version");
    }
    var chksum := ParseOctalField(h, CHKSUM, 8);
    if chksum.None? {
      return Refused("corrupt chksum field");
    }
    var sum := CalculateChksum(h);
    if chksum.value != sum {
      return Refused("checksum mismatch");
    }
    if h[MODE - 1] != '\0' || h[345] != '\0' {
      return Refused("file name too long");
    }
    if h[TYPEFLAG] != '0' && h[TYPEFLAG] != '5' {
      return Refused("unimplemented file type");
    }
    var size := 0;
    if h[TYPEFLAG] == '0' {
      var field := ParseOctalField(h, SIZE, 12);
      if field.None? {
        return Refused("corrupt file size field");
      }
      if field.value > 0x7FFF_FFFF {
        return Refused("file too large");
      }
      size := field.value;
    }
    var name := StringAt(h, NAME, MODE);
    name := StripAntisocialPrefixes(name);
    return Entry(name, if h[TYPEFLAG] == '0' then Regular else Directory, size);
  }

  /** An accepted header never yields a name that leaves the directory of extraction at its front. */
  lemma ParsedNameIsSafe(h: string)
    requires |h| == HEADER_SIZE && ParsedHeader(h).Entry?
    ensures SafeName(ParsedHeader(h).name)
    ensures ParsedHeader(h).size <= 0x7FFF_FFFF
  {
    hide Stripped, OctalField, Sum;
    StrippedIsSafe(CString(h[NAME..MODE]));
  }

  // ---- composing ----

  function Overwritten(h: string, at: nat, text: string): string
    requires at + |text| <= |h|
  {
    h[..at] + text + h[at + |text|..]
  }

  lemma OtherFieldKept(h: string, j: nat, text: string, i: nat, held: string)
    requires |h| == HEADER_SIZE && i < FIELDS && j < FIELDS && i != j
    requires |text| <= FieldLength(j) && FieldHolds(h, i, held)
    ensures FieldAt(j) + |text| <= |h|
    ensures FieldHolds(Overwritten(h, FieldAt(j), text), i, held)
  {
    hide Repeat, FieldAt;
    FieldsInOrder(j + 1, FIELDS);
    assert FieldAt(FIELDS) == HEADER_SIZE by { LastFieldEnds(); }
    var t := held + Zeros(FieldLength(i) - |held|);
    if i < j {
      FieldsInOrder(i + 1, j);
    } else {
      FieldsInOrder(j + 1, i);
    }
    PlaceKept(h, FieldAt(j), text, FieldAt(i), t);
  }

  lemma LastFieldEnds()
    ensures FieldAt(FIELDS) == HEADER_SIZE
  {}

  lemma PlaceKept(h: string, at: nat, text: string, other: nat, held: string)
    requires at + |text| <= |h| && Holds(h, other, held)
    requires other + |held| <= at || at + |text| <= other
    ensures Holds(Overwritten(h, at, text), other, held)
  {
    var now := Overwritten(h, at, text);
    forall k | 0 <= k < |held|
      ensures now[other + k] == held[k]
    {
      assert h[other + k] == h[other..other + |held|][k];
    }
    assert now[other..other + |held|] == held;
  }

  lemma PlaceSet(h: string, at: nat, text: string, length: nat)
    requires |text| <= length && Holds(h, at, Zeros(length))
    ensures Holds(Overwritten(h, at, text), at, text + Zeros(length - |text|))
  {
    var now := Overwritten(h, at, text);
    var t := text + Zeros(length - |text|);
    forall k | 0 <= k < length
      ensures now[at + k] == t[k]
    {
      assert h[at + k] == h[at..at + length][k];
    }
    assert now[at..at + length] == t;
  }

  /** Setting a field that is still zero leaves the other fields alone. */
  lemma FieldSet(h: string, done: set<nat>, j: nat, name: string, kind: FileType, size: nat, sum: nat)
    requires |h| == HEADER_SIZE && j < FIELDS && j !in done && Stage(h, done, name, kind, size, sum)
    requires |FieldText(j, name, kind, size, sum)| <= FieldLength(j)
    ensures var text := FieldText(j, name, kind, size, sum);
      && FieldAt(j) + |text| <= |h|
      && Stage(Overwritten(h, FieldAt(j), text), done + {j}, name, kind, size, sum)
  {
    hide FieldText, FieldAt, FieldHolds, Overwritten;
    var text := FieldText(j, name, kind, size, sum);
    OwnFieldSet(h, j, text);
    var now := Overwritten(h, FieldAt(j), text);
    forall i: nat | i < FIELDS
      ensures FieldHolds(now, i, if i in done + {j} then FieldText(i, name, kind, size, sum) else [])
    {
      if i != j {
        OtherFieldKept(h, j, text, i, if i in done then FieldText(i, name, kind, size, sum) else []);
      }
    }
  }

  lemma OwnFieldSet(h: string, j: nat, text: string)
    requires |h| == HEADER_SIZE && j < FIELDS && |text| <= FieldLength(j) && FieldHolds(h, j, [])
    ensures FieldAt(j) + |text| <= |h|
    ensures |Overwritten(h, FieldAt(j), text)| == HEADER_SIZE
    ensures FieldHolds(Overwritten(h, FieldAt(j), text), j, text)
  {
    hide FieldAt;
    assert [] + Zeros(FieldLength(j)) == Zeros(FieldLength(j));
    PlaceSet(h, FieldAt(j), text, FieldLength(j));
  }

  lemma ZeroHeader(h: string, name: string, kind: FileType, size: nat, sum: nat)
    requires |h| == HEADER_SIZE && AllZeros(h)
    ensures Stage(h, {}, name, kind, size, sum)
  {
    forall i: nat | i < FIELDS
      ensures FieldHolds(h, i, [])
    {
      FieldsInOrder(i + 1, FIELDS);
      assert h[FieldAt(i)..FieldAt(i) + FieldLength(i)] == [] + Zeros(FieldLength(i));
    }
  }

  /** A text and its terminator, put into a zero field, leave what the text alone would. */
  lemma PrintedField(h: string, j: nat, text: string)
    requires |h| == HEADER_SIZE && j < FIELDS && |text| < FieldLength(j) && FieldHolds(h, j, [])
    ensures FieldAt(j) + FieldLength(j) <= |h|
    ensures Printed(h, FieldAt(j), FieldLength(j), text) == Overwritten(h, FieldAt(j), text)
  {
    hide FieldAt, Printed, Overwritten;
    FieldsInOrder(j + 1, FIELDS);
    LastFieldEnds();
    assert [] + Zeros(FieldLength(j)) == Zeros(FieldLength(j));
    PrintedOverZeros(h, FieldAt(j), FieldLength(j), text);
  }

  lemma PrintedOverZeros(h: string, at: nat, n: nat, text: string)
    requires |text| < n && Holds(h, at, Zeros(n))
    ensures Printed(h, at, n, text) == Overwritten(h, at, text)
  {
    assert h[at + |text|] == h[at..at + n][|text|] == '\0';
    assert h[at + |text|..] == ['\0'] + h[at + |text| + 1..];
    assert text[..|text|] == text;
  }

  /** Copies as much of a string as there is room for, with a terminator. */
  method Strlcpy(h: array<char>, at: nat, src: string, size: nat)
    requires 0 < size && at + size <= h.Length
    modifies h
    ensures h[..] == Printed(old(h[..]), at, size, src)
  {
    hide Printed, Copied;
    var count := if |src| < size then |src| else size - 1;
    ghost var was := h[..];
    var i := 0;
    NothingCopied(was, at, src);
    while i < count
      invariant 0 <= i <= count
      invariant h[..] == Copied(was, at, src, i)
    {
      ghost var now := h[..];
      h[at + i] := src[i];
      assert h[..] == now[at + i := src[i]];
      OneMore(was, at, src, i);
      i := i + 1;
    }
    ghost var copied := h[..];
    h[at + count] := '\0';
    assert h[..] == copied[at + count := '\0'];
    CopyEnded(was, at, size, src);
  }

  function Copied(was: string, at: nat, text: string, n: nat): (now: string)
    requires n <= |text| && at + n <= |was|
    ensures |now| == |was|
  {
    was[..at] + text[..n] + was[at + n..]
  }

  lemma NothingCopied(was: string, at: nat, text: string)
    requires at <= |was|
    ensures Copied(was, at, text, 0) == was
  {}

  lemma OneMore(was: string, at: nat, text: string, i: nat)
    requires i < |text| && at + i < |was|
    ensures Copied(was, at, text, i)[at + i := text[i]] == Copied(was, at, text, i + 1)
  {}

  lemma CopyEnded(was: string, at: nat, size: nat, src: string)
    requires 0 < size && at + size <= |was|
    ensures var n := Least(|src|, size - 1);
      Copied(was, at, src, n)[at + n := '\0'] == Printed(was, at, size, src)
  {}

  method SetString(h: array<char>, j: nat, text: string, ghost done: set<nat>,
                   ghost name: string, ghost kind: FileType, ghost size: nat, ghost sum: nat)
    requires h.Length == HEADER_SIZE && j < FIELDS && j !in done && Stage(h[..], done, name, kind, size, sum)
    requires text == FieldText(j, name, kind, size, sum) && |text| < FieldLength(j)
    modifies h
    ensures Stage(h[..], done + {j}, name, kind, size, sum)
  {
    hide FieldText, FieldAt, FieldHolds, Printed;
    assert FieldHolds(h[..], j, []);
    PrintedField(h[..], j, text);
    FieldSet(h[..], done, j, name, kind, size, sum);
    Strlcpy(h, FieldAt(j), text, FieldLength(j));
  }

  method SetOctal(h: array<char>, j: nat, value: nat, width: nat, ghost done: set<nat>,
                  ghost name: string, ghost kind: FileType, ghost size: nat, ghost sum: nat)
    requires h.Length == HEADER_SIZE && j < FIELDS && j !in done && Stage(h[..], done, name, kind, size, sum)
    requires 0 < width && width + 1 == FieldLength(j) && value < PowerOf8(width) && value <= 0xFFFF_FFFF
    requires FieldText(j, name, kind, size, sum) == OctalText(value, width)
    modifies h
    ensures Stage(h[..], done + {j}, name, kind, size, sum)
    ensures FieldAt(j) + width <= HEADER_SIZE
    ensures h[..FieldAt(j)] == old(h[..FieldAt(j)])
    ensures h[FieldAt(j) + width..] == old(h[FieldAt(j) + width..])
  {
    hide FieldText, FieldAt, FieldHolds, Printed, PowerOf8, ReadDigits, Marked, Formatted;
    OctalTextShape(value, width);
    OctalValid();
    ghost var was := h[..];
    assert FieldHolds(was, j, []);
    PrintedField(was, j, OctalText(value, width));
    FieldSet(was, done, j, name, kind, size, sum);
    var length := Snprintf(h, FieldAt(j), FieldLength(j), value, false, false, BASE_O, OctalConversion(width));
    assert h[..] == Overwritten(was, FieldAt(j), OctalText(value, width));
    OutsideKept(was, FieldAt(j), OctalText(value, width), h[..]);
    assert h[..FieldAt(j)] == h[..][..FieldAt(j)] && h[FieldAt(j) + width..] == h[..][FieldAt(j) + width..];
  }

  lemma OutsideKept(was: string, at: nat, text: string, now: string)
    requires at + |text| <= |was| && now == Overwritten(was, at, text)
    ensures now[..at] == was[..at] && now[at + |text|..] == was[at + |text|..]
  {}

  function Unsigned(x: int): nat
    requires IsInt32(x)
  {
    if x < 0 then x + 0x1_0000_0000 else x
  }

  lemma StageAnySum(h: string, done: set<nat>, name: string, kind: FileType, size: nat, sum: nat, sum': nat)
    requires |h| == HEADER_SIZE && 6 !in done && Stage(h, done, name, kind, size, sum)
    ensures Stage(h, done, name, kind, size, sum')
  {
    hide FieldHolds, Formatted;
    forall i: nat | i < FIELDS
      ensures FieldHolds(h, i, if i in done then FieldText(i, name, kind, size, sum') else [])
    {
      assert i in done ==> FieldText(i, name, kind, size, sum) == FieldText(i, name, kind, size, sum');
    }
  }

  lemma OctalSizes()
    ensures PowerOf8(7) == 0x20_0000 && PowerOf8(11) == 0x2_0000_0000
  {
    assert PowerOf8(4) == 4096;
    assert PowerOf8(8) == 4096 * 4096;
  }

  lemma FieldSizes()
    ensures FieldLength(0) == 100 && FieldLength(7) == 1 && FieldLength(9) == 6 && FieldLength(10) == 2
    ensures FieldLength(1) == 8 && FieldLength(2) == 8 && FieldLength(3) == 8 && FieldLength(6) == 8
    ensures FieldLength(4) == 12 && FieldLength(5) == 12 && FieldLength(11) == 32 && FieldLength(12) == 32
  {}

  lemma {:induction false} FieldOf(k: nat, i: nat) returns (j: nat)
    requires i <= FIELDS && k < FieldAt(i)
    ensures j < i && FieldAt(j) <= k < FieldAt(j + 1)
  {
    if FieldAt(i - 1) <= k {
      j := i - 1;
    } else {
      j := FieldOf(k, i - 1);
    }
  }

  lemma OctalTextOctets(value: nat, width: nat)
    ensures Octets(OctalText(value, width))
  {
    hide OctalText, DigitText, Padding;
    var c := OctalConversion(width);
    OctalFormatted(value, width);
    OctalValid();
    DigitTextIsNumber(value, BASE_O, c);
    ZerosInFront(Padding(value, false, false, BASE_O, c), DigitText(value, BASE_O, c), BASE_O, false);
    var t := OctalText(value, width);
    forall k | 0 <= k < |t|
      ensures t[k] as int < 256
    {
      OctalDigit(t[k]);
    }
  }

  lemma FieldTextOctets(i: nat, name: string, kind: FileType, size: nat, sum: nat)
    requires i < FIELDS && Octets(name)
    ensures Octets(FieldText(i, name, kind, size, sum))
  {
    hide OctalText;
    OctalTextOctets(size, 11);
    OctalTextOctets(sum, 7);
    OctalTextOctets(1136102400, 11);
    OctalTextOctets(420, 7);
    OctalTextOctets(493, 7);
  }

  lemma StageOctets(h: string, done: set<nat>, name: string, kind: FileType, size: nat, sum: nat)
    requires |h| == HEADER_SIZE && Octets(name)
    requires Stage(h, done, name, kind, size, sum)
    ensures Octets(h)
  {
    hide FieldText, FieldAt;
    forall k | 0 <= k < |h|
      ensures h[k] as int < 256
    {
      LastFieldEnds();
      var i := FieldOf(k, FIELDS);
      FieldTextOctets(i, name, kind, size, sum);
      var text := if i in done then FieldText(i, name, kind, size, sum) else [];
      assert FieldHolds(h, i, text);
      var t := text + Zeros(FieldLength(i) - |text|);
      assert h[k] == h[FieldAt(i)..FieldAt(i) + FieldLength(i)][k - FieldAt(i)] == t[k - FieldAt(i)];
    }
  }

  lemma AllCopied(was: string, at: nat, text: string)
    requires at + |text| <= |was|
    ensures Copied(was, at, text, |text|) == Overwritten(was, at, text)
  {
    assert text[..|text|] == text;
  }

  /** Direct assignment of the characters of a field. */
  method SetCharacters(h: array<char>, j: nat, text: string, ghost done: set<nat>,
                       ghost name: string, ghost kind: FileType, ghost size: nat, ghost sum: nat)
    requires h.Length == HEADER_SIZE && j < FIELDS && j !in done && Stage(h[..], done, name, kind, size, sum)
    requires text == FieldText(j, name, kind, size, sum) && |text| <= FieldLength(j)
    modifies h
    ensures Stage(h[..], done + {j}, name, kind, size, sum)
  {
    hide FieldText, FieldAt, FieldHolds, Stage, Copied;
    FieldSet(h[..], done, j, name, kind, size, sum);
    ghost var was := h[..];
    var at, i := FieldAt(j), 0;
    NothingCopied(was, at, text);
    while i < |text|
      invariant 0 <= i <= |text|
      invariant h[..] == Copied(was, at, text, i)
    {
      ghost var now := h[..];
      h[at + i] := text[i];
      assert h[..] == now[at + i := text[i]];
      OneMore(was, at, text, i);
      i := i + 1;
    }
    AllCopied(was, at, text);
  }

  method ClearHeader(h: array<char>)
    modifies h
    ensures AllZeros(h[..])
  {
    var i := 0;
    while i < h.Length
      invariant 0 <= i <= h.Length
      invariant forall k :: 0 <= k < i ==> h[k] == '\0'
    {
      h[i] := '\0';
      i := i + 1;
    }
  }

  method FillNumbers(h: array<char>, name: string, kind: FileType, size: int)
    requires h.Length == HEADER_SIZE && |name| <= 99 && IsInt32(size)
    modifies h
    ensures Stage(h[..], {0, 1, 2, 3, 4, 5}, name, kind, Unsigned(size), 0)
  {
    hide Stage, PowerOf8, OctalText, AllZeros, FieldAt;
    FieldSizes();
    OctalSizes();
    ghost var n := Unsigned(size);
    ClearHeader(h);
    ZeroHeader(h[..], name, kind, n, 0);
    ghost var done: set<nat> := {};
    SetString(h, 0, name, done, name, kind, n, 0);
    done := done + {0};
    SetOctal(h, 1, if kind == Regular then 420 else 493, 7, done, name, kind, n, 0);
    done := done + {1};
    SetString(h, 2, "0000000", done, name, kind, n, 0);
    done := done + {2};
    SetString(h, 3, "0000000", done, name, kind, n, 0);
    done := done + {3};
    SetOctal(h, 4, Unsigned(size), 11, done, name, kind, n, 0);
    done := done + {4};
    SetOctal(h, 5, 1136102400, 11, done, name, kind, n, 0);
    done := done + {5};
    assert done == {0, 1, 2, 3, 4, 5};
  }

  /** Everything but the checksum. */
  method FillHeader(h: array<char>, name: string, kind: FileType, size: int)
    requires h.Length == HEADER_SIZE && |name| <= 99 && IsInt32(size)
    modifies h
    ensures Stage(h[..], {0, 1, 2, 3, 4, 5, 7, 9, 10, 11, 12}, name, kind, Unsigned(size), 0)
  {
    hide Stage, OctalText, FieldAt;
    FieldSizes();
    ghost var n := Unsigned(size);
    FillNumbers(h, name, kind, size);
    ghost var done := {0, 1, 2, 3, 4, 5};
    SetCharacters(h, 7, [TypeFlag(kind)], done, name, kind, n, 0);
    done := done + {7};
    SetString(h, 9, "ustar", done, name, kind, n, 0);
    done := done + {9};
    SetCharacters(h, 10, "00", done, name, kind, n, 0);
    done := done + {10};
    SetString(h, 12, "root", done, name, kind, n, 0);
    done := done + {12};
    SetString(h, 11, "root", done, name, kind, n, 0);
    done := done + {11};
    assert done == {0, 1, 2, 3, 4, 5, 7, 9, 10, 11, 12};
  }

  lemma OtherFieldsBlank(i: nat, name: string, kind: FileType, size: nat, sum: nat)
    requires i < FIELDS && i !in {0, 1, 2, 3, 4, 5, 7, 9, 10, 11, 12} + {6}
    ensures FieldText(i, name, kind, size, sum) == []
  {}

  lemma StageComplete(h: string, name: string, kind: FileType, size: nat, sum: nat)
    requires |h| == HEADER_SIZE && sum == Sum(h, HEADER_SIZE)
    requires Stage(h, {0, 1, 2, 3, 4, 5, 7, 9, 10, 11, 12} + {6}, name, kind, size, sum)
    ensures IsHeader(h, name, kind, size)
  {
    hide FieldHolds, FieldText, Sum;
    var done := {0, 1, 2, 3, 4, 5, 7, 9, 10, 11, 12} + {6};
    forall i: nat | i < FIELDS
      ensures FieldHolds(h, i, FieldText(i, name, kind, size, sum))
    {
      if i !in done {
        OtherFieldsBlank(i, name, kind, size, sum);
      }
      assert FieldHolds(h, i, if i in done then FieldText(i, name, kind, size, sum) else []);
    }
  }

  method MakeHeader(fileName: string, kind: FileType, size: int, h: array<char>) returns (ok: bool)
    requires h.Length == HEADER_SIZE && IsInt32(size) && Octets(fileName)
    modifies h
    ensures ok <==> |Stripped(fileName)| <= 99
    ensures ok ==> IsHeader(h[..], Stripped(fileName), kind, Unsigned(size))
    ensures !ok ==> h[..] == old(h[..])
  {
    hide Stage, IsHeader, Stripped, Sum, PowerOf8, Octets, FieldText;
    var name := StripAntisocialPrefixes(fileName);
    if |name| > 99 {
      return false;
    }
    ghost var n := Unsigned(size);
    FillHeader(h, name, kind, size);
    ghost var done := {0, 1, 2, 3, 4, 5, 7, 9, 10, 11, 12};
    ghost var was := h[..];
    OctalSizes();
    StrippedOctets(fileName);
    StageOctets(was, done, name, kind, n, 0);
    SumBounded(was, HEADER_SIZE);
    var chksum := CalculateChksum(h);
    StageAnySum(was, done, name, kind, n, 0, chksum);
    FieldSizes();
    ChecksumField(name, kind, n, chksum);
    SetOctal(h, 6, chksum, 7, done, name, kind, n, chksum);
    SumUnchanged(was, h[..]);
    StageComplete(h[..], name, kind, n, chksum);
    return true;
  }

  lemma ChecksumField(name: string, kind: FileType, size: nat, sum: nat)
    ensures FieldText(6, name, kind, size, sum) == OctalText(sum, 7)
    ensures FieldAt(6) == CHKSUM
  {}

  lemma SumUnchanged(was: string, now: string)
    requires |was| == |now| == HEADER_SIZE
    requires now[..CHKSUM] == was[..CHKSUM] && now[CHKSUM + 7..] == was[CHKSUM + 7..]
    ensures Sum(now, HEADER_SIZE) == Sum(was, HEADER_SIZE)
  {
    forall k | 0 <= k < HEADER_SIZE && !(CHKSUM <= k < CHKSUM + 8)
      ensures now[k] == was[k]
    {
      if k < CHKSUM {
        assert now[k] == now[..CHKSUM][k];
      } else {
        assert now[k] == now[CHKSUM + 7..][k - (CHKSUM + 7)];
      }
    }
    SumIgnoresChksum(now, was, HEADER_SIZE);
  }

  lemma StrippedOctets(s: string)
    requires Octets(s)
    ensures Octets(Stripped(s))
  {
    SocialIsSuffix(s);
  }

  // ---- reading a header back ----

  predicate NulFree(s: string) {
    forall k :: 0 <= k < |s| ==> s[k] != '\0'
  }

  lemma {:induction false} CStringOfPadded(s: string, n: nat)
    requires NulFree(s) && 0 < n
    ensures CString(s + Zeros(n)) == s
  {
    if s == [] {
      assert s + Zeros(n) == Zeros(n);
    } else {
      CStringOfPadded(s[1..], n);
      assert (s + Zeros(n))[1..] == s[1..] + Zeros(n);
      assert s == [s[0]] + s[1..];
    }
  }

  /** What a field of a header is seen to hold. */
  lemma FieldSeen(h: string, i: nat, text: string)
    requires i < FIELDS && |h| == HEADER_SIZE && FieldHolds(h, i, text)
    ensures FieldAt(i) <= FieldAt(i + 1) <= |h|
    ensures h[FieldAt(i)..FieldAt(i + 1)] == text + Zeros(FieldLength(i) - |text|)
  {
    FieldsInOrder(i, i + 1);
    FieldsInOrder(i + 1, FIELDS);
    LastFieldEnds();
  }

  lemma OneZero()
    ensures Zeros(1) == ['\0']
  {}

  ghost predicate ReadableAs(h: string, name: string, kind: FileType, size: nat)
    requires |h| == HEADER_SIZE
  {
    && CString(h[NAME..MODE]) == name && h[MODE - 1] == '\0'
    && OctalField(h[SIZE..MTIME]) == Some(size)
    && OctalField(h[CHKSUM..TYPEFLAG]) == Some(Sum(h, HEADER_SIZE))
    && h[TYPEFLAG] == TypeFlag(kind)
    && h[MAGIC..VERSION] == "ustar" + ['\0']
    && h[VERSION] == '0' && h[VERSION + 1] == '0'
    && h[345] == '\0'
  }

  lemma NameSeen(h: string, name: string)
    requires |h| == HEADER_SIZE && FieldHolds(h, 0, name) && NulFree(name) && |name| <= 99
    ensures CString(h[NAME..MODE]) == name && h[MODE - 1] == '\0'
  {
    FieldSeen(h, 0, name);
    CStringOfPadded(name, 100 - |name|);
    assert h[MODE - 1] == h[NAME..MODE][99];
  }

  lemma OctalSeen(h: string, i: nat, value: nat, width: nat)
    requires |h| == HEADER_SIZE && i < FIELDS && FieldLength(i) == width + 1
    requires 0 < width && value < PowerOf8(width) && value <= 0xFFFF_FFFF
    requires FieldHolds(h, i, OctalText(value, width))
    ensures FieldAt(i) <= FieldAt(i + 1) <= |h|
    ensures OctalField(h[FieldAt(i)..FieldAt(i + 1)]) == Some(value)
  {
    hide PowerOf8, OctalText, FieldAt, OctalField, ReadDigits;
    OctalTextShape(value, width);
    FieldSeen(h, i, OctalText(value, width));
    OneZero();
    OctalRoundTrip(value, width);
  }

  lemma KindSeen(h: string, kind: FileType)
    requires |h| == HEADER_SIZE && FieldHolds(h, 7, [TypeFlag(kind)])
    ensures h[TYPEFLAG] == TypeFlag(kind)
  {
    FieldSeen(h, 7, [TypeFlag(kind)]);
    assert h[TYPEFLAG] == h[TYPEFLAG..LINKNAME][0];
  }

  lemma MagicSeen(h: string)
    requires |h| == HEADER_SIZE && FieldHolds(h, 9, "ustar")
    ensures h[MAGIC..VERSION] == "ustar" + ['\0']
  {
    OneZero();
    FieldSeen(h, 9, "ustar");
  }

  lemma VersionSeen(h: string)
    requires |h| == HEADER_SIZE && FieldHolds(h, 10, "00")
    ensures h[VERSION] == '0' && h[VERSION + 1] == '0'
  {
    FieldSeen(h, 10, "00");
    assert h[VERSION] == h[VERSION..UNAME][0] && h[VERSION + 1] == h[VERSION..UNAME][1];
  }

  lemma PrefixSeen(h: string)
    requires |h| == HEADER_SIZE && FieldHolds(h, 13, [])
    ensures h[345] == '\0'
  {
    FieldSeen(h, 13, []);
    assert h[345] == h[DEVICE..HEADER_SIZE][16];
  }

  lemma HeaderReadable(h: string, name: string, kind: FileType, size: nat)
    requires IsHeader(h, name, kind, size) && Octets(name) && NulFree(name) && |name| <= 99 && size <= 0xFFFF_FFFF
    ensures ReadableAs(h, name, kind, size)
  {
    hide PowerOf8, OctalText, FieldHolds, Sum, Octets, OctalField, CString;
    var sum := Sum(h, HEADER_SIZE);
    OctalSizes();
    FieldSizes();
    HeaderOctets(h, name, kind, size);
    SumBounded(h, HEADER_SIZE);
    assert FieldHolds(h, 0, FieldText(0, name, kind, size, sum));
    assert FieldHolds(h, 4, FieldText(4, name, kind, size, sum));
    assert FieldHolds(h, 6, FieldText(6, name, kind, size, sum));
    assert FieldHolds(h, 7, FieldText(7, name, kind, size, sum));
    assert FieldHolds(h, 9, FieldText(9, name, kind, size, sum));
    assert FieldHolds(h, 10, FieldText(10, name, kind, size, sum));
    assert FieldHolds(h, 13, FieldText(13, name, kind, size, sum));
    NameSeen(h, name);
    OctalSeen(h, 4, size, 11);
    OctalSeen(h, 6, sum, 7);
    KindSeen(h, kind);
    MagicSeen(h);
    VersionSeen(h);
    PrefixSeen(h);
  }

  lemma HeaderOctets(h: string, name: string, kind: FileType, size: nat)
    requires IsHeader(h, name, kind, size) && Octets(name)
    ensures Octets(h)
  {
    hide FieldAt, FieldText, Sum;
    var sum := Sum(h, HEADER_SIZE);
    forall k | 0 <= k < |h|
      ensures h[k] as int < 256
    {
      LastFieldEnds();
      var i := FieldOf(k, FIELDS);
      var text := FieldText(i, name, kind, size, sum);
      assert FieldHolds(h, i, text);
      FieldTextOctets(i, name, kind, size, sum);
      var t := text + Zeros(FieldLength(i) - |text|);
      assert h[k] == h[FieldAt(i)..FieldAt(i) + FieldLength(i)][k - FieldAt(i)] == t[k - FieldAt(i)];
    }
  }

  /** A header made for a file is accepted and gives back the name, the type and the size,
      except that the size of a regular file must not be negative when it is taken as a signed integer. */
  lemma HeaderParsed(h: string, name: string, kind: FileType, size: nat)
    requires IsHeader(h, name, kind, size) && Octets(name) && NulFree(name) && |name| <= 99 && SafeName(name)
    requires size <= 0xFFFF_FFFF
    ensures ParsedHeader(h) ==
      if kind == Directory then Entry(name, Directory, 0)
      else if size <= 0x7FFF_FFFF then Entry(name, Regular, size)
      else Refused("file too large")
  {
    hide FieldHolds, FieldText, Octets, NulFree, SafeName, Sum, CString, OctalField, Stripped;
    HeaderReadable(h, name, kind, size);
    StrippedIsSafe(name);
    assert h[MAGIC] == h[MAGIC..VERSION][0] == 'u';
  }

  /** Composing a header and parsing it: refused exactly for a regular file of negative size. */
  lemma RoundTrip(fileName: string, kind: FileType, size: int, h: string)
    requires Octets(fileName) && NulFree(fileName) && IsInt32(size) && |Stripped(fileName)| <= 99
    requires IsHeader(h, Stripped(fileName), kind, Unsigned(size))
    ensures ParsedHeader(h).Entry? <==> kind == Directory || 0 <= size
    ensures ParsedHeader(h).Entry? ==>
      ParsedHeader(h) == Entry(Stripped(fileName), kind, if kind == Directory then 0 else size)
  {
    hide IsHeader, ParsedHeader;
    StrippedIsSafe(fileName);
    StrippedOctets(fileName);
    SocialIsSuffix(fileName);
    HeaderParsed(h, Stripped(fileName), kind, Unsigned(size));
  }

  /** For a regular file of size -1 a header is made, and refused when it is read. */
  lemma NegativeSizeRefused(h: string)
    requires IsHeader(h, "a", Regular, Unsigned(-1))
    ensures ParsedHeader(h) == Refused("file too large")
  {
    hide IsHeader, ParsedHeader;
    assert "a"[0] == 'a' && !StartsWith("a", "/") && !StartsWith("a", "./") && !StartsWith("a", "../");
    HeaderParsed(h, "a", Regular, Unsigned(-1));
  }
}
