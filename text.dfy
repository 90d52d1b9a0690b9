/** The .NET text primitives the network code relies on: `Encoding.UTF8`
    (GetBytes, GetByteCount, GetString) and `String.Trim`.

    Dafny strings are sequences of Unicode scalar values, so a string here is
    always well formed; decoding follows the Unicode Standard, section 3.9,
    Table 3-7 (well-formed UTF-8 byte sequences), and replaces every maximal
    ill-formed subpart with U+FFFD, as .NET does. */
module Text {

  type byte = x: int | 0 <= x < 0x100

  const ReplacementChar: char := 0xFFFD as char

  // ---------------------------------------------------------------------
  // Char.IsWhiteSpace and String.Trim

  /** The characters `Char.IsWhiteSpace` accepts: the Unicode space, line
      and paragraph separators, U+0009..U+000D and U+0085. */
  predicate IsWhiteSpace(c: char) {
    var x := c as int;
    (0x09 <= x <= 0x0D) || x == 0x20 || x == 0x85 || x == 0xA0 || x == 0x1680
    || (0x2000 <= x <= 0x200A) || x == 0x2028 || x == 0x2029 || x == 0x202F
    || x == 0x205F || x == 0x3000
  }

  /** A string with no white space at either end. */
  predicate IsTrimmed(s: string) {
    s == [] || (!IsWhiteSpace(s[0]) && !IsWhiteSpace(s[|s| - 1]))
  }

  /** Drops the leading white space. */
  function TrimStart(s: string): (r: string)
    ensures |r| <= |s| && r == s[|s| - |r|..]
    ensures r == [] || !IsWhiteSpace(r[0])
    ensures forall i :: 0 <= i < |s| - |r| ==> IsWhiteSpace(s[i])
  {
    if s != [] && IsWhiteSpace(s[0]) then
      var r := TrimStart(s[1..]);
      assert s[1..][|s| - 1 - |r|..] == s[|s| - |r|..];
      assert forall i :: 1 <= i < |s| - |r| ==> s[i] == s[1..][i - 1];
      r
    else s
  }

  /** Drops the trailing white space. */
  function TrimEnd(s: string): (r: string)
    ensures |r| <= |s| && r == s[..|r|]
    ensures r == [] || !IsWhiteSpace(r[|r| - 1])
    ensures forall i :: |r| <= i < |s| ==> IsWhiteSpace(s[i])
  {
    if s != [] && IsWhiteSpace(s[|s| - 1]) then
      var r := TrimEnd(s[..|s| - 1]);
      assert s[..|s| - 1][..|r|] == s[..|r|];
      assert forall i :: |r| <= i < |s| - 1 ==> s[i] == s[..|s| - 1][i];
      r
    else s
  }

  /** `String.Trim()`: the longest middle part of `s` that neither starts nor
      ends with white space; everything cut off is white space. */
  function Trim(s: string): (r: string)
    ensures IsTrimmed(r)
    ensures exists i, j :: 0 <= i <= j <= |s| && r == s[i..j]
              && (forall k :: 0 <= k < i ==> IsWhiteSpace(s[k]))
              && (forall k :: j <= k < |s| ==> IsWhiteSpace(s[k]))
  {
    var t := TrimStart(s);
    var r := TrimEnd(t);
    assert r == s[|s| - |t|..|s| - |t| + |r|];
    r
  }

  /** Trimming changes nothing on a string that is already trimmed, so in
      particular Trim is idempotent. */
  lemma TrimOfTrimmed(s: string)
    requires IsTrimmed(s)
    ensures Trim(s) == s
  {
    assert TrimStart(s) == s;
    assert TrimEnd(s) == s;
  }

  lemma TrimIdempotent(s: string)
    ensures Trim(Trim(s)) == Trim(s)
  {
    TrimOfTrimmed(Trim(s));
  }

  // ---------------------------------------------------------------------
  // UTF-8 encoding: Encoding.UTF8.GetBytes and GetByteCount

  /** The one to four bytes that encode one scalar value. */
  function EncodeScalar(c: char): (r: seq<byte>)
    ensures 1 <= |r| <= 4
  {
    var cp := c as int;
    if cp < 0x80 then [cp]
    else if cp < 0x800 then [0xC0 + cp / 0x40, 0x80 + cp % 0x40]
    else if cp < 0x10000 then [0xE0 + cp / 0x1000, 0x80 + (cp / 0x40) % 0x40, 0x80 + cp % 0x40]
    else [0xF0 + cp / 0x40000, 0x80 + (cp / 0x1000) % 0x40, 0x80 + (cp / 0x40) % 0x40, 0x80 + cp % 0x40]
  }

  /** `Encoding.UTF8.GetBytes`; its length is `Encoding.UTF8.GetByteCount`. */
  function Encode(s: string): (r: seq<byte>)
    ensures |s| <= |r| <= 4 * |s|
  {
    if s == [] then [] else EncodeScalar(s[0]) + Encode(s[1..])
  }

  // ---------------------------------------------------------------------
  // UTF-8 decoding: Encoding.UTF8.GetString

  /** How many bytes the sequence begun by `lead` has; 0 when `lead` cannot
      begin a well-formed sequence (80..C1 and F5..FF). */
  function SequenceLength(lead: byte): nat {
    if lead < 0x80 then 1
    else if 0xC2 <= lead <= 0xDF then 2
    else if 0xE0 <= lead <= 0xEF then 3
    else if 0xF0 <= lead <= 0xF4 then 4
    else 0
  }

  /** The range allowed for the second byte, which excludes overlong forms,
      surrogates and values above U+10FFFF. */
  function SecondLow(lead: byte): byte {
    if lead == 0xE0 then 0xA0 else if lead == 0xF0 then 0x90 else 0x80
  }

  function SecondHigh(lead: byte): byte {
    if lead == 0xED then 0x9F else if lead == 0xF4 then 0x8F else 0xBF
  }

  predicate IsContinuation(b: byte) {
    0x80 <= b <= 0xBF
  }

  /** Length of the longest prefix of `b` that can begin a well-formed
      sequence: the whole sequence when it is well formed, otherwise the
      maximal subpart that is replaced by one U+FFFD. */
  function ValidPrefixLength(b: seq<byte>): (k: nat)
    requires |b| > 0 && SequenceLength(b[0]) > 0
    ensures 1 <= k <= SequenceLength(b[0]) && k <= |b|
  {
    var n := SequenceLength(b[0]);
    if n == 1 || |b| < 2 || !(SecondLow(b[0]) <= b[1] <= SecondHigh(b[0])) then 1
    else if n == 2 || |b| < 3 || !IsContinuation(b[2]) then 2
    else if n == 3 || |b| < 4 || !IsContinuation(b[3]) then 3
    else 4
  }

  /** The scalar value of a well-formed sequence at the start of `b`. */
  function ScalarAt(b: seq<byte>): char
    requires |b| > 0 && SequenceLength(b[0]) > 0
    requires ValidPrefixLength(b) == SequenceLength(b[0])
  {
    var n := SequenceLength(b[0]);
    if n == 1 then b[0] as char
    else if n == 2 then ((b[0] as int - 0xC0) * 0x40 + (b[1] as int - 0x80)) as char
    else if n == 3 then
      ((b[0] as int - 0xE0) * 0x1000 + (b[1] as int - 0x80) * 0x40 + (b[2] as int - 0x80)) as char
    else
      ((b[0] as int - 0xF0) * 0x40000 + (b[1] as int - 0x80) * 0x1000
       + (b[2] as int - 0x80) * 0x40 + (b[3] as int - 0x80)) as char
  }

  /** Decodes the first character of `b` and says how many bytes it took. */
  function DecodeFirst(b: seq<byte>): (r: (char, nat))
    requires |b| > 0
    ensures 1 <= r.1 <= |b|
  {
    var n := SequenceLength(b[0]);
    if n == 0 then (ReplacementChar, 1)
    else
      var k := ValidPrefixLength(b);
      if k < n then (ReplacementChar, k) else (ScalarAt(b), n)
  }

  /** `Encoding.UTF8.GetString`: never fails; ill-formed input yields U+FFFD. */
  function Decode(b: seq<byte>): (s: string)
    ensures |s| <= |b|
    decreases |b|
  {
    if b == [] then []
    else
      var (c, k) := DecodeFirst(b);
      [c] + Decode(b[k..])
  }

  // ---------------------------------------------------------------------
  // Round trip

  // One lemma per encoding length keeps each arithmetic proof small.

  lemma DecodeFirstTwoBytes(c: char, rest: seq<byte>)
    requires 0x80 <= c as int < 0x800
    ensures DecodeFirst(EncodeScalar(c) + rest) == (c, 2)
  {
    var cp := c as int;
    var hi, lo := cp / 0x40, cp % 0x40;
    assert cp == hi * 0x40 + lo;
    var b := EncodeScalar(c) + rest;
    assert b[0] == 0xC0 + hi && b[1] == 0x80 + lo;
  }

  lemma DecodeFirstThreeBytes(c: char, rest: seq<byte>)
    requires 0x800 <= c as int < 0x10000
    ensures DecodeFirst(EncodeScalar(c) + rest) == (c, 3)
  {
    var cp := c as int;
    var hi, mid, lo := cp / 0x1000, (cp / 0x40) % 0x40, cp % 0x40;
    assert cp / 0x40 == hi * 0x40 + mid;
    assert cp == (cp / 0x40) * 0x40 + lo;
    assert hi == 0 ==> mid >= 0x20;
    assert hi == 0xD ==> mid < 0x20;
    var b := EncodeScalar(c) + rest;
    assert b[0] == 0xE0 + hi && b[1] == 0x80 + mid && b[2] == 0x80 + lo;
  }

  lemma DecodeFirstFourBytes(c: char, rest: seq<byte>)
    requires 0x10000 <= c as int
    ensures DecodeFirst(EncodeScalar(c) + rest) == (c, 4)
  {
    var cp := c as int;
    var top, hi, mid, lo := cp / 0x40000, (cp / 0x1000) % 0x40, (cp / 0x40) % 0x40, cp % 0x40;
    assert cp / 0x1000 == top * 0x40 + hi;
    assert cp / 0x40 == (cp / 0x1000) * 0x40 + mid;
    assert cp == (cp / 0x40) * 0x40 + lo;
    assert top == 0 ==> hi >= 0x10;
    assert top == 4 ==> hi < 0x10;
    var b := EncodeScalar(c) + rest;
    assert b[0] == 0xF0 + top && b[1] == 0x80 + hi && b[2] == 0x80 + mid && b[3] == 0x80 + lo;
  }

  /** Each scalar's encoding decodes back to it, whatever follows it. */
  lemma DecodeFirstOfEncodeScalar(c: char, rest: seq<byte>)
    ensures DecodeFirst(EncodeScalar(c) + rest) == (c, |EncodeScalar(c)|)
  {
    var cp := c as int;
    if cp < 0x80 {
    } else if cp < 0x800 {
      DecodeFirstTwoBytes(c, rest);
    } else if cp < 0x10000 {
      DecodeFirstThreeBytes(c, rest);
    } else {
      DecodeFirstFourBytes(c, rest);
    }
  }

  /** GetString inverts GetBytes. */
  lemma {:induction false} DecodeEncode(s: string)
    ensures Decode(Encode(s)) == s
  {
    if s != [] {
      var e := EncodeScalar(s[0]);
      var b := Encode(s);
      assert b == e + Encode(s[1..]);
      DecodeFirstOfEncodeScalar(s[0], Encode(s[1..]));
      assert b[|e|..] == Encode(s[1..]);
      DecodeEncode(s[1..]);
    }
  }
}
