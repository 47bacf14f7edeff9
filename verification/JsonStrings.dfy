/** JSON string literals: `parse_string`, `utf16_literal_to_utf8` and `print_string_ptr` of cJSON.c. */
module JsonStrings {
  import opened Bytes

  // ---------------------------------------------------------------------------------------------
  // Hexadecimal digits and UTF-8
  // ---------------------------------------------------------------------------------------------

  predicate IsHex(c: byte) {
    '0' <= c <= '9' || 'A' <= c <= 'F' || 'a' <= c <= 'f'
  }

  function HexDigit(c: byte): (d: bv32)
    requires IsHex(c)
    ensures d < 16
  {
    if '0' <= c <= '9' then (c as int - '0' as int) as bv32
    else if 'A' <= c <= 'F' then (10 + (c as int - 'A' as int)) as bv32
    else (10 + (c as int - 'a' as int)) as bv32
  }

  /** `parse_hex4`: a character that is no hexadecimal digit makes the whole result 0. */
  function ParseHex4(s: Text): (h: bv32)
    requires |s| == 4
    ensures h < 0x1_0000
  {
    if IsHex(s[0]) && IsHex(s[1]) && IsHex(s[2]) && IsHex(s[3]) then
      Nibbles(HexDigit(s[0]), HexDigit(s[1]), HexDigit(s[2]), HexDigit(s[3]))
    else
      0
  }

  function Nibbles(a: bv32, b: bv32, c: bv32, d: bv32): (h: bv32)
    requires a < 16 && b < 16 && c < 16 && d < 16
    ensures h < 0x1_0000
  {
    ((((((a << 4) + b) << 4) + c) << 4) + d)
  }

  function LowByte(x: bv32): byte {
    ((x & 0xFF) as bv8) as char
  }

  /** The masks and shifts with which cJSON encodes a code point: the lead byte, then groups of six bits. */
  function EncodeBits(cp: bv32): (r: Text)
    ensures |r| == EncodedLength(cp)
  {
    var n := EncodedLength(cp);
    [LeadByte(Shifted(cp, n - 1), n)] + Continuations(cp, n - 1)
  }

  function EncodedLength(cp: bv32): (n: nat)
    ensures 1 <= n <= 4
  {
    if cp < 0x80 then 1 else if cp < 0x800 then 2 else if cp < 0x10000 then 3 else 4
  }

  function Shifted(x: bv32, groups: nat): bv32 {
    if groups == 0 then x else Shifted(x >> 6, groups - 1)
  }

  function LeadByte(x: bv32, n: nat): byte {
    match n
    case 1 => LowByte(x & 0x7F)
    case 2 => LowByte(x | 0xC0)
    case 3 => LowByte(x | 0xE0)
    case _ => LowByte(x | 0xF0)
  }

  function Continuation(x: bv32): byte {
    LowByte((x | 0x80) & 0xBF)
  }

  function Continuations(x: bv32, n: nat): (r: Text)
    ensures |r| == n
  {
    if n == 0 then [] else Continuations(x >> 6, n - 1) + [Continuation(x)]
  }

  /** UTF-8 by the table of section 3 of RFC 3629, for code points up to U+10FFFF. */
  function Utf8(cp: bv32): Text {
    if cp < 0x80 then
      [LowByte(cp)]
    else if cp < 0x800 then
      [LowByte(0xC0 + cp / 64), LowByte(0x80 + cp % 64)]
    else if cp < 0x10000 then
      [LowByte(0xE0 + cp / 4096), LowByte(0x80 + cp / 64 % 64), LowByte(0x80 + cp % 64)]
    else
      [LowByte(0xF0 + cp / 262144), LowByte(0x80 + cp / 4096 % 64),
       LowByte(0x80 + cp / 64 % 64), LowByte(0x80 + cp % 64)]
  }

  lemma ShiftIsDivision(x: bv32)
    ensures x >> 6 == x / 64
  {}

  lemma ContinuationMark(x: bv32)
    ensures Continuation(x) == LowByte(0x80 + x % 64)
  {
    assert (x | 0x80) & 0xBF == 0x80 + x % 64;
  }

  lemma LeadMark1(x: bv32)
    ensures x < 0x80 ==> x & 0x7F == x
  {}

  lemma LeadMark2(x: bv32)
    ensures x < 0x800 ==> (x / 64) | 0xC0 == 0xC0 + x / 64
  {}

  lemma LeadMark3(x: bv32)
    ensures x < 0x10000 ==> (x / 64 / 64) | 0xE0 == 0xE0 + x / 4096
  {}

  lemma LeadMark4(x: bv32)
    ensures x <= 0x10FFFF ==> (x / 64 / 64 / 64) | 0xF0 == 0xF0 + x / 262144
  {}

  lemma NestedDivision(x: bv32)
    ensures x / 64 / 64 == x / 4096
  {}

  lemma Unroll(x: bv32, n: nat)
    ensures Shifted(x, n + 1) == Shifted(x / 64, n)
    ensures Continuations(x, n + 1) == Continuations(x / 64, n) + [Continuation(x)]
  {
    ShiftIsDivision(x);
  }

  lemma TwoBytes(cp: bv32)
    requires 0x80 <= cp < 0x800
    ensures EncodeBits(cp) == Utf8(cp)
  {
    Unroll(cp, 0);
    LeadMark2(cp);
    ContinuationMark(cp);
  }

  lemma ThreeBytes(cp: bv32)
    requires 0x800 <= cp < 0x10000
    ensures EncodeBits(cp) == Utf8(cp)
  {
    Unroll(cp, 1);
    Unroll(cp / 64, 0);
    LeadMark3(cp);
    ContinuationMark(cp);
    ContinuationMark(cp / 64);
  }

  lemma FourBytes(cp: bv32)
    requires 0x10000 <= cp <= 0x10FFFF
    ensures EncodeBits(cp) == Utf8(cp)
  {
    Unroll(cp, 2);
    Unroll(cp / 64, 1);
    Unroll(cp / 64 / 64, 0);
    LeadMark4(cp);
    NestedDivision(cp);
    ContinuationMark(cp);
    ContinuationMark(cp / 64);
    ContinuationMark(cp / 64 / 64);
  }

  /** cJSON's bit fiddling is exactly UTF-8. */
  lemma EncodeBitsIsUtf8(cp: bv32)
    requires cp <= 0x10FFFF
    ensures EncodeBits(cp) == Utf8(cp)
  {
    match EncodedLength(cp) {
      case 1 => LeadMark1(cp);
      case 2 => TwoBytes(cp);
      case 3 => ThreeBytes(cp);
      case _ => FourBytes(cp);
    }
  }

  /** The code point of a surrogate pair, by the masks of the source. */
  function PairBits(high: bv32, low: bv32): (cp: bv32)
    ensures 0x10000 <= cp <= 0x10FFFF
  {
    0x10000 + (((high & 0x3FF) << 10) | (low & 0x3FF))
  }

  lemma PairBitsIsArithmetic(h: bv32, l: bv32)
    requires 0xD800 <= h <= 0xDBFF && 0xDC00 <= l <= 0xDFFF
    ensures PairBits(h, l) == 0x10000 + (h - 0xD800) * 0x400 + (l - 0xDC00)
  {}

  // ---------------------------------------------------------------------------------------------
  // Parsing
  // ---------------------------------------------------------------------------------------------

  /** The first pass of `parse_string`: the position of the closing quote. */
  function StringEnd(c: Text, i: nat): (r: Option<nat>)
    ensures r.Some? ==> i <= r.value < |c| && c[r.value] == '\"'
    decreases |c| - i
  {
    if i >= |c| then None
    else if c[i] == '\"' then Some(i)
    else if c[i] == '\\' then (if i + 1 >= |c| then None else StringEnd(c, i + 2))
    else StringEnd(c, i + 1)
  }

  datatype Literal = Literal(bytes: Text, length: nat)

  /** `utf16_literal_to_utf8` on the literal at `i`, where the string ends at `e`. */
  function Utf16Literal(c: Text, i: nat, e: nat): (r: Option<Literal>)
    requires i <= e < |c|
    ensures r.Some? ==> 1 <= |r.value.bytes| <= 4
    ensures r.Some? ==> r.value.length == if |r.value.bytes| == 4 then 12 else 6
    ensures r.Some? ==> i + r.value.length <= e
  {
    if e - i < 6 then None else
    var first := ParseHex4(c[i + 2..i + 6]);
    if 0xDC00 <= first <= 0xDFFF then None
    else if 0xD800 <= first <= 0xDBFF then
      if e - (i + 6) < 6 then None
      else if c[i + 6] != '\\' || c[i + 7] != 'u' then None
      else
        var second := ParseHex4(c[i + 8..i + 12]);
        if second < 0xDC00 || second > 0xDFFF then None
        else Some(Literal(EncodeBits(PairBits(first, second)), 12))
    else
      Some(Literal(EncodeBits(first), 6))
  }

  predicate IsShortEscape(letter: byte) {
    letter in "bfnrt\"\\/"
  }

  function ShortEscape(letter: byte): byte
    requires IsShortEscape(letter)
  {
    match letter
    case 'b' => 8 as char
    case 'f' => 12 as char
    case 'n' => '\n'
    case 'r' => '\r'
    case 't' => '\t'
    case _ => letter
  }

  /** The second pass of `parse_string`: the bytes written while reading from `i` up to `e`. */
  function Unescape(c: Text, i: nat, e: nat): Option<Text>
    requires e < |c|
    decreases e - i
  {
    if i >= e then Some([])
    else if c[i] != '\\' then Prepend([c[i]], Unescape(c, i + 1, e))
    else if IsShortEscape(c[i + 1]) then Prepend([ShortEscape(c[i + 1])], Unescape(c, i + 2, e))
    else if c[i + 1] == 'u' then
      match Utf16Literal(c, i, e)
      case None => None
      case Some(l) => Prepend(l.bytes, Unescape(c, i + l.length, e))
    else None
  }

  function Prepend(s: Text, r: Option<Text>): Option<Text> {
    if r.Some? then Some(s + r.value) else None
  }

  lemma PrependTwice(s: Text, t: Text, r: Option<Text>)
    ensures Prepend(s, Prepend(t, r)) == Prepend(s + t, r)
    ensures Prepend([], r) == r
  {
    if r.Some? {
      assert s + (t + r.value) == s + t + r.value;
      assert [] + r.value == r.value;
    }
  }

  datatype ParsedString = ParsedString(value: Text, end: nat)

  /** `parse_string` at `offset`: the C string stored in the item, and the position behind the closing quote. */
  function StringLiteral(c: Text, offset: nat): (r: Option<ParsedString>)
    ensures r.Some? ==> offset + 2 <= r.value.end <= |c|
  {
    if offset >= |c| || c[offset] != '\"' then None else
    match StringEnd(c, offset + 1)
    case None => None
    case Some(e) =>
      match Unescape(c, offset + 1, e)
      case None => None
      case Some(bytes) => Some(ParsedString(CString(bytes), e + 1))
  }

  // How many escapes the first pass counts in [i, e).
  function Escapes(c: Text, i: nat, e: nat): nat
    decreases e - i
  {
    if i >= e || i >= |c| then 0
    else if c[i] == '\\' then 1 + Escapes(c, i + 2, e)
    else Escapes(c, i + 1, e)
  }

  /** Escapes of the first pass start at least two bytes apart. */
  lemma {:induction false} EscapesSpread(c: Text, i: nat, e: nat)
    requires i <= e <= |c|
    ensures Escapes(c, i, e) <= Escapes(c, i, e + 1) <= Escapes(c, i, e + 2) <= Escapes(c, i, e) + 1
    ensures e < |c| && c[e] != '\\' ==> Escapes(c, i, e + 1) == Escapes(c, i, e)
    decreases e - i
  {
    if i < e && !(i + 1 == e && c[i] == '\\') {
      EscapesSpread(c, if c[i] == '\\' then i + 2 else i + 1, e);
    } else {
      assert Escapes(c, e + 1, e + 2) <= 1;
    }
  }

  lemma {:induction false} EscapesGrow(c: Text, i: nat, j: nat, k: nat)
    requires i <= j && j + k <= |c|
    ensures Escapes(c, i, j) <= Escapes(c, i, j + k) <= Escapes(c, i, j) + (k + 1) / 2
    decreases k
  {
    if k >= 2 {
      EscapesSpread(c, i, j);
      EscapesGrow(c, i, j + 2, k - 2);
    } else if k == 1 {
      EscapesSpread(c, i, j);
    }
  }

  /** The encoding loop of `utf16_literal_to_utf8`: `n` continuation bytes behind position `o`, the last one first. */
  method WriteContinuations(cp: bv32, n: nat, output: array<byte>, o: nat) returns (codepoint: bv32)
    requires o + 1 + n <= output.Length
    modifies output
    ensures codepoint == Shifted(cp, n)
    ensures output[..o + 1] == old(output[..o + 1])
    ensures output[o + 1..o + 1 + n] == Continuations(cp, n)
  {
    codepoint := cp;
    var k := n;
    ghost var tail: Text := [];
    while k > 0
      invariant 0 <= k <= n && |tail| == n - k
      invariant Shifted(cp, n) == Shifted(codepoint, k)
      invariant Continuations(cp, n) == Continuations(codepoint, k) + tail
      invariant forall j :: 0 <= j < |tail| ==> output[o + k + 1 + j] == tail[j]
      invariant forall j :: 0 <= j <= o ==> output[j] == old(output[j])
    {
      tail := [Continuation(codepoint)] + tail;
      output[o + k] := Continuation(codepoint);
      codepoint := codepoint >> 6;
      k := k - 1;
    }
  }

  method WriteUtf8(cp: bv32, output: array<byte>, o: nat) returns (o': nat)
    requires o + EncodedLength(cp) <= output.Length
    modifies output
    ensures o' == o + EncodedLength(cp)
    ensures output[..o'] == old(output[..o]) + EncodeBits(cp)
  {
    var utf8_length := EncodedLength(cp);
    var codepoint := WriteContinuations(cp, utf8_length - 1, output, o);
    ghost var tail := output[o + 1..o + utf8_length];
    output[o] := LeadByte(codepoint, utf8_length);
    o' := o + utf8_length;
    assert output[..o'] == output[..o] + [output[o]] + output[o + 1..o'];
    assert output[o + 1..o'] == tail;
  }

  /** `utf16_literal_to_utf8`: the length of the literal, or 0 when it is malformed. */
  method Utf16LiteralToUtf8(c: Text, i: nat, e: nat, output: array<byte>, o: nat) returns (length: nat, o': nat)
    requires i <= e < |c| && o <= output.Length
    requires var l := Utf16Literal(c, i, e); l.Some? ==> o + |l.value.bytes| <= output.Length
    modifies output
    ensures Utf16Literal(c, i, e).None? ==> length == 0
    ensures var l := Utf16Literal(c, i, e);
            l.Some? ==> length == l.value.length && o' == o + |l.value.bytes|
                        && output[..o'] == old(output[..o]) + l.value.bytes
  {
    length, o' := 0, o;
    if e - i < 6 {
      return;
    }
    var first := ParseHex4(c[i + 2..i + 6]);
    if 0xDC00 <= first <= 0xDFFF {
      return;
    }
    var codepoint: bv32;
    if 0xD800 <= first <= 0xDBFF {
      if e - (i + 6) < 6 || c[i + 6] != '\\' || c[i + 7] != 'u' {
        return;
      }
      var second := ParseHex4(c[i + 8..i + 12]);
      if second < 0xDC00 || second > 0xDFFF {
        return;
      }
      codepoint, length := PairBits(first, second), 12;
    } else {
      codepoint, length := first, 6;
    }
    assert Utf16Literal(c, i, e) == Some(Literal(EncodeBits(codepoint), length));
    o' := WriteUtf8(codepoint, output, o);
  }

  /** Having read up to `i` and written `o` bytes, what is left to write still fits in the estimate. */
  ghost predicate Fits(c: Text, start: nat, i: nat, e: nat, o: nat) {
    && (i <= e ==> o + Escapes(c, start, i) <= i - start)
    && o + Escapes(c, start, e) <= e - start + 1
  }

  lemma FitsAfter(c: Text, start: nat, i: nat, e: nat, o: nat, read: nat, written: nat)
    requires start <= i < e < |c| && Fits(c, start, i, e, o)
    requires || (read == 1 && written == 1 && c[i] != '\\')
             || (read == 2 && written == 1)
             || (read == 6 && written <= 3 && i + 6 <= e)
             || (read == 12 && written <= 4 && i + 12 <= e)
    ensures Fits(c, start, i + read, e, o + written)
  {
    EscapesSpread(c, start, i);
    if i + read <= e {
      EscapesGrow(c, start, i, read);
      EscapesGrow(c, start, i + read, e - i - read);
    }
  }

  /** The first pass: where the string ends, and how many bytes its escapes are counted to save. */
  method EstimateString(c: Text, start: nat) returns (ok: bool, input_end: nat, skipped_bytes: nat)
    ensures StringEnd(c, start) == if ok then Some(input_end) else None
    ensures ok ==> skipped_bytes == Escapes(c, start, input_end)
  {
    ghost var total := StringEnd(c, start);
    ok, input_end, skipped_bytes := false, start, 0;
    while input_end < |c| && c[input_end] != '\"'
      invariant start <= input_end && !ok
      invariant StringEnd(c, input_end) == total
      invariant total.Some? ==> skipped_bytes + Escapes(c, input_end, total.value) == Escapes(c, start, total.value)
      decreases |c| - input_end
    {
      if c[input_end] == '\\' {
        if input_end + 1 >= |c| {
          return;
        }
        skipped_bytes := skipped_bytes + 1;
        input_end := input_end + 1;
      }
      input_end := input_end + 1;
    }
    ok := input_end < |c|;
  }

  /** One escape of the second pass. */
  method UnescapeOne(c: Text, start: nat, i: nat, e: nat, output: array<byte>, o: nat)
    returns (ok: bool, next: nat, o': nat, ghost bytes: Text)
    requires start <= i < e < |c| && c[i] == '\\' && Fits(c, start, i, e, o)
    requires output.Length == (e - start + 1 - Escapes(c, start, e)) + 1
    modifies output
    ensures !ok ==> Unescape(c, i, e) == None
    ensures ok ==> i < next <= e + 1 && Fits(c, start, next, e, o')
    ensures ok ==> output[..o'] == old(output[..o]) + bytes
    ensures ok ==> Unescape(c, i, e) == Prepend(bytes, Unescape(c, next, e))
  {
    ok, next, o', bytes := false, i, o, [];
    if IsShortEscape(c[i + 1]) {
      bytes := [ShortEscape(c[i + 1])];
      FitsAfter(c, start, i, e, o, 2, 1);
      output[o] := ShortEscape(c[i + 1]);
      ok, next, o' := true, i + 2, o + 1;
    } else if c[i + 1] == 'u' {
      ghost var literal := Utf16Literal(c, i, e);
      if literal.Some? {
        bytes := literal.value.bytes;
        FitsAfter(c, start, i, e, o, literal.value.length, |bytes|);
      }
      var length;
      length, o' := Utf16LiteralToUtf8(c, i, e, output, o);
      ok, next := length != 0, i + length;
    }
  }

  /** The second pass, into a buffer of the estimated size: every write is in bounds, even when an ill-formed
      `\\u` makes this pass see escapes elsewhere than the first one did. */
  method UnescapeInto(c: Text, start: nat, e: nat, output: array<byte>) returns (ok: bool, o: nat)
    requires start <= e < |c|
    requires output.Length == (e - start + 1 - Escapes(c, start, e)) + 1
    modifies output
    ensures ok ==> o < output.Length
    ensures Unescape(c, start, e) == if ok then Some(output[..o]) else None
  {
    ok, o := true, 0;
    var i := start;
    ghost var written: Text := [];
    PrependTwice([], [], Unescape(c, start, e));
    EscapesGrow(c, start, start, e - start);
    hide Escapes, Unescape;
    while i < e
      invariant start <= i <= e + 1
      invariant ok && Fits(c, start, i, e, o)
      invariant output[..o] == written && Unescape(c, start, e) == Prepend(written, Unescape(c, i, e))
      decreases e - i
    {
      ghost var bytes: Text := [c[i]];
      var next := i + 1;
      if c[i] != '\\' {
        FitsAfter(c, start, i, e, o, 1, 1);
        UnescapePlain(c, i, e);
        output[o] := c[i];
        o := o + 1;
      } else {
        ok, next, o, bytes := UnescapeOne(c, start, i, e, output, o);
        if !ok {
          return;
        }
      }
      PrependTwice(written, bytes, Unescape(c, next, e));
      written := written + bytes;
      i := next;
    }
    UnescapeEnd(c, i, e);
    assert written + [] == written;
  }

  lemma UnescapePlain(c: Text, i: nat, e: nat)
    requires i < e < |c| && c[i] != '\\'
    ensures Unescape(c, i, e) == Prepend([c[i]], Unescape(c, i + 1, e))
  {}

  lemma UnescapeEnd(c: Text, i: nat, e: nat)
    requires e < |c| && e <= i
    ensures Unescape(c, i, e) == Some([])
  {}

  /** `parse_string`. */
  method ParseString(c: Text, offset: nat) returns (ok: bool, item: Text, end: nat)
    requires offset < |c|
    ensures StringLiteral(c, offset) == if ok then Some(ParsedString(item, end)) else None
  {
    ok, item, end := false, [], offset;
    if c[offset] != '\"' {
      return;
    }
    var found, input_end, skipped_bytes := EstimateString(c, offset + 1);
    if !found {
      return;
    }
    EscapesGrow(c, offset + 1, offset + 1, input_end - (offset + 1));
    var allocation_length := input_end - offset - skipped_bytes;
    var output := new byte[allocation_length + 1];
    var o;
    ok, o := UnescapeInto(c, offset + 1, input_end, output);
    if ok {
      ghost var bytes := output[..o];
      output[o] := '\0';
      assert output[..o] == bytes;
      item, end := CString(output[..o]), input_end + 1;
    }
  }

  // ---------------------------------------------------------------------------------------------
  // What a well-formed literal denotes
  // ---------------------------------------------------------------------------------------------

  /** The grammar of section 7 of RFC 8259: raw bytes, two-character escapes, `\\uXXXX`, and surrogate pairs. */
  datatype Piece = Plain(b: byte) | Short(letter: byte) | Bmp(hex: Text) | Pair(high: Text, low: Text)

  /** What the letter behind a backslash means. */
  function ShortMeaning(letter: byte): Option<byte> {
    match letter as int
    case 0x22 => Some(0x22 as char)
    case 0x5C => Some(0x5C as char)
    case 0x2F => Some(0x2F as char)
    case 0x62 => Some(0x08 as char)
    case 0x66 => Some(0x0C as char)
    case 0x6E => Some(0x0A as char)
    case 0x72 => Some(0x0D as char)
    case 0x74 => Some(0x09 as char)
    case _ => None
  }

  /** And a hexadecimal digit, capital or small. */
  function HexMeaning(c: byte): Option<nat> {
    var n := c as int;
    if 0x30 <= n < 0x3A then Some(n - 0x30)
    else if 0x41 <= n < 0x47 then Some(n - 0x41 + 10)
    else if 0x61 <= n < 0x67 then Some(n - 0x61 + 10)
    else None
  }

  predicate AllHex(s: Text) {
    forall k :: 0 <= k < |s| ==> HexMeaning(s[k]).Some?
  }

  ghost function CodeUnit(hex: Text): bv32
    requires |hex| == 4 && AllHex(hex)
  {
    0x1000 * (HexMeaning(hex[0]).value as bv32) + 0x100 * (HexMeaning(hex[1]).value as bv32)
    + 0x10 * (HexMeaning(hex[2]).value as bv32) + (HexMeaning(hex[3]).value as bv32)
  }

  ghost predicate WellFormed(p: Piece) {
    match p
    case Plain(b) => b != '\"' && b != '\\'
    case Short(letter) => ShortMeaning(letter).Some?
    case Bmp(hex) => |hex| == 4 && AllHex(hex) && !(0xD800 <= CodeUnit(hex) <= 0xDFFF)
    case Pair(high, low) =>
      && |high| == |low| == 4 && AllHex(high) && AllHex(low)
      && 0xD800 <= CodeUnit(high) <= 0xDBFF && 0xDC00 <= CodeUnit(low) <= 0xDFFF
  }

  function Render(p: Piece): Text {
    match p
    case Plain(b) => [b]
    case Short(letter) => ['\\', letter]
    case Bmp(hex) => "\\u" + hex
    case Pair(high, low) => "\\u" + high + "\\u" + low
  }

  /** The bytes a piece stands for: UTF-8 of its code point, where surrogates combine as in section 7 of RFC 8259. */
  ghost function Denote(p: Piece): Text
    requires WellFormed(p)
  {
    match p
    case Plain(b) => [b]
    case Short(letter) => [ShortMeaning(letter).value]
    case Bmp(hex) => Utf8(CodeUnit(hex))
    case Pair(high, low) => Utf8(Combined(CodeUnit(high), CodeUnit(low)))
  }

  function Combined(high: bv32, low: bv32): bv32 {
    0x10000 + (high - 0xD800) * 0x400 + (low - 0xDC00)
  }

  /** The code reads the letters and digits in this way. */
  lemma ShortIsMeant(letter: byte)
    ensures IsShortEscape(letter) <==> ShortMeaning(letter).Some?
    ensures IsShortEscape(letter) ==> ShortEscape(letter) == ShortMeaning(letter).value
  {}

  lemma HexIsMeant(c: byte)
    ensures IsHex(c) <==> HexMeaning(c).Some?
    ensures IsHex(c) ==> HexDigit(c) == HexMeaning(c).value as bv32
  {}

  lemma NibblesAdd(a: bv32, b: bv32, c: bv32, d: bv32)
    requires a < 16 && b < 16 && c < 16 && d < 16
    ensures Nibbles(a, b, c, d) == 0x1000 * a + 0x100 * b + 0x10 * c + d
  {}

  lemma CodeUnitIsParsed(hex: Text)
    requires |hex| == 4 && AllHex(hex)
    ensures ParseHex4(hex) == CodeUnit(hex)
    ensures forall k :: 0 <= k < 4 ==> IsHex(hex[k])
  {
    HexIsMeant(hex[0]);
    HexIsMeant(hex[1]);
    HexIsMeant(hex[2]);
    HexIsMeant(hex[3]);
    hide HexMeaning, HexDigit, Nibbles;
    NibblesAdd(HexDigit(hex[0]), HexDigit(hex[1]), HexDigit(hex[2]), HexDigit(hex[3]));
  }

  function RenderAll(ps: seq<Piece>): Text {
    if ps == [] then [] else Render(ps[0]) + RenderAll(ps[1..])
  }

  ghost function DenoteAll(ps: seq<Piece>): Text
    requires forall k :: 0 <= k < |ps| ==> WellFormed(ps[k])
  {
    if ps == [] then [] else Denote(ps[0]) + DenoteAll(ps[1..])
  }

  /** The rendering of a piece, seen byte by byte. */
  predicate PieceAt(c: Text, i: nat, p: Piece) {
    match p
    case Plain(b) => i < |c| && c[i] == b
    case Short(letter) => i + 2 <= |c| && c[i] == '\\' && c[i + 1] == letter
    case Bmp(hex) => HexAt(c, i, hex)
    case Pair(high, low) => HexAt(c, i, high) && HexAt(c, i + 6, low)
  }

  predicate HexAt(c: Text, i: nat, hex: Text) {
    i + 6 <= |c| && c[i] == '\\' && c[i + 1] == 'u' && c[i + 2..i + 6] == hex
  }

  lemma BmpOccurs(c: Text, i: nat, hex: Text)
    requires |hex| == 4 && Occurs(c, i, "\\u" + hex)
    ensures HexAt(c, i, hex)
  {
    OccursSplit(c, i, "\\u", hex);
    assert c[i..i + 2] == "\\u";
    assert c[i] == c[i..i + 2][0] && c[i + 1] == c[i..i + 2][1];
  }

  lemma PieceOccurs(c: Text, i: nat, p: Piece)
    requires WellFormed(p) && Occurs(c, i, Render(p))
    ensures PieceAt(c, i, p)
  {
    hide CodeUnit, AllHex;
    match p {
      case Plain(b) =>
        assert c[i] == c[i..i + 1][0];
      case Short(letter) =>
        assert c[i] == c[i..i + 2][0] && c[i + 1] == c[i..i + 2][1];
      case Bmp(hex) =>
        BmpOccurs(c, i, hex);
      case Pair(high, low) =>
        assert Render(p) == ("\\u" + high) + ("\\u" + low);
        OccursSplit(c, i, "\\u" + high, "\\u" + low);
        BmpOccurs(c, i, high);
        BmpOccurs(c, i + 6, low);
    }
  }

  function RenderedLength(p: Piece): nat {
    match p case Plain(_) => 1 case Short(_) => 2 case Bmp(_) => 6 case Pair(_, _) => 12
  }

  lemma UnescapeBmp(c: Text, i: nat, e: nat, hex: Text)
    requires WellFormed(Bmp(hex)) && HexAt(c, i, hex) && i + 6 <= e < |c|
    ensures Utf16Literal(c, i, e) == Some(Literal(Denote(Bmp(hex)), 6))
  {
    hide CodeUnit, AllHex, ParseHex4, Utf8, EncodeBits;
    CodeUnitIsParsed(hex);
    EncodeBitsIsUtf8(CodeUnit(hex));
  }

  lemma UnescapePair(c: Text, i: nat, e: nat, high: Text, low: Text)
    requires WellFormed(Pair(high, low)) && HexAt(c, i, high) && HexAt(c, i + 6, low) && i + 12 <= e < |c|
    ensures Utf16Literal(c, i, e) == Some(Literal(Denote(Pair(high, low)), 12))
  {
    CodeUnitIsParsed(high);
    CodeUnitIsParsed(low);
    hide CodeUnit, AllHex, ParseHex4, Utf8, EncodeBits, Combined, PairBits, Utf16Literal;
    PairEncoded(CodeUnit(high), CodeUnit(low));
    LiteralOfPair(c, i, e, high, low);
  }

  lemma LiteralOfPair(c: Text, i: nat, e: nat, high: Text, low: Text)
    requires |high| == |low| == 4 && HexAt(c, i, high) && HexAt(c, i + 6, low) && i + 12 <= e < |c|
    requires 0xD800 <= ParseHex4(high) <= 0xDBFF && 0xDC00 <= ParseHex4(low) <= 0xDFFF
    ensures Utf16Literal(c, i, e) == Some(Literal(EncodeBits(PairBits(ParseHex4(high), ParseHex4(low))), 12))
  {
    hide ParseHex4, EncodeBits, PairBits;
  }

  lemma PairEncoded(h: bv32, l: bv32)
    requires 0xD800 <= h <= 0xDBFF && 0xDC00 <= l <= 0xDFFF
    ensures EncodeBits(PairBits(h, l)) == Utf8(Combined(h, l))
    ensures |EncodeBits(PairBits(h, l))| == 4
  {
    PairBitsIsArithmetic(h, l);
    EncodeBitsIsUtf8(PairBits(h, l));
  }

  /** One well-formed piece is decoded to what it denotes. */
  lemma UnescapePiece(c: Text, i: nat, e: nat, p: Piece)
    requires WellFormed(p) && PieceAt(c, i, p) && i + RenderedLength(p) <= e < |c|
    ensures Unescape(c, i, e) == Prepend(Denote(p), Unescape(c, i + RenderedLength(p), e))
  {
    match p {
      case Plain(b) => MeantPlain(b); hide Denote;
      case Short(letter) => UnescapeShort(c, i, e, letter);
      case Bmp(hex) => UnescapeBmp(c, i, e, hex); LongEscape(c, i, e, p);
      case Pair(high, low) => UnescapePair(c, i, e, high, low); LongEscape(c, i, e, p);
    }
  }

  lemma UnescapeShort(c: Text, i: nat, e: nat, letter: byte)
    requires WellFormed(Short(letter)) && PieceAt(c, i, Short(letter)) && i + 2 <= e < |c|
    ensures Unescape(c, i, e) == Prepend(Denote(Short(letter)), Unescape(c, i + 2, e))
  {
    ShortIsMeant(letter);
    MeantShort(letter);
    hide Denote, ShortMeaning, ShortEscape;
  }

  lemma LongEscape(c: Text, i: nat, e: nat, p: Piece)
    requires (p.Bmp? || p.Pair?) && WellFormed(p) && PieceAt(c, i, p) && i + RenderedLength(p) <= e < |c|
    requires Utf16Literal(c, i, e) == Some(Literal(Denote(p), RenderedLength(p)))
    ensures Unescape(c, i, e) == Prepend(Denote(p), Unescape(c, i + RenderedLength(p), e))
  {
    hide Utf16Literal, Denote, WellFormed;
  }

  lemma MeantPlain(b: byte)
    requires WellFormed(Plain(b))
    ensures Denote(Plain(b)) == [b]
  {}

  lemma MeantShort(letter: byte)
    requires WellFormed(Short(letter))
    ensures Denote(Short(letter)) == [ShortMeaning(letter).value]
  {}

  lemma StringEndPiece(c: Text, i: nat, p: Piece)
    requires WellFormed(p) && PieceAt(c, i, p)
    ensures StringEnd(c, i) == StringEnd(c, i + RenderedLength(p))
  {
    hide CodeUnit, AllHex;
    match p {
      case Plain(b) =>
      case Short(letter) =>
      case Bmp(hex) => hide StringEnd; StringEndUnit(c, i, hex);
      case Pair(high, low) => hide StringEnd; StringEndUnit(c, i, high); StringEndUnit(c, i + 6, low);
    }
  }

  lemma StringEndUnit(c: Text, i: nat, hex: Text)
    requires |hex| == 4 && AllHex(hex) && HexAt(c, i, hex)
    ensures StringEnd(c, i) == StringEnd(c, i + 6)
  {
    assert StringEnd(c, i) == StringEnd(c, i + 2);
    hide StringEnd, AllHex;
    StringEndHex(c, i + 2, hex);
  }

  lemma {:induction false} StringEndHex(c: Text, i: nat, hex: Text)
    requires AllHex(hex) && Occurs(c, i, hex)
    ensures StringEnd(c, i) == StringEnd(c, i + |hex|)
    decreases |hex|
  {
    if hex != [] {
      assert c[i] == c[i..i + |hex|][0] == hex[0];
      assert c[i + 1..i + 1 + |hex[1..]|] == c[i..i + |hex|][1..];
      StringEndHex(c, i + 1, hex[1..]);
    }
  }

  lemma RenderedPiece(c: Text, i: nat, e: nat, p: Piece)
    requires WellFormed(p) && Occurs(c, i, Render(p)) && i + |Render(p)| <= e < |c|
    ensures StringEnd(c, i) == StringEnd(c, i + |Render(p)|)
    ensures Unescape(c, i, e) == Prepend(Denote(p), Unescape(c, i + |Render(p)|, e))
  {
    PieceOccurs(c, i, p);
    assert |Render(p)| == RenderedLength(p);
    UnescapePiece(c, i, e, p);
    StringEndPiece(c, i, p);
  }

  lemma {:induction false} RenderedPieces(c: Text, i: nat, e: nat, ps: seq<Piece>)
    requires forall k :: 0 <= k < |ps| ==> WellFormed(ps[k])
    requires Occurs(c, i, RenderAll(ps)) && e == i + |RenderAll(ps)| < |c| && c[e] == '\"'
    ensures StringEnd(c, i) == Some(e)
    ensures Unescape(c, i, e) == Some(DenoteAll(ps))
    decreases |ps|
  {
    hide WellFormed, Render, Denote, Occurs;
    if ps != [] {
      hide StringEnd, Unescape;
      OccursSplit(c, i, Render(ps[0]), RenderAll(ps[1..]));
      RenderedPiece(c, i, e, ps[0]);
      RenderedPieces(c, i + |Render(ps[0])|, e, ps[1..]);
    }
  }

  /** A well-formed literal anywhere in a text is parsed to the string RFC 8259 says it denotes (up to a first NUL,
      where the C string ends), and parsing stops behind its closing quote. */
  lemma WellFormedLiteral(c: Text, offset: nat, ps: seq<Piece>)
    requires forall k :: 0 <= k < |ps| ==> WellFormed(ps[k])
    requires Occurs(c, offset, Quoted(RenderAll(ps)))
    ensures StringLiteral(c, offset) == Some(ParsedString(CString(DenoteAll(ps)), offset + |RenderAll(ps)| + 2))
  {
    hide WellFormed, StringLiteral, RenderAll, DenoteAll, CString, Occurs;
    assert |Quoted(RenderAll(ps))| == |RenderAll(ps)| + 2;
    QuotedOccurs(c, offset, RenderAll(ps));
    QuotedFits(c, offset, RenderAll(ps));
    UnquotedLiteral(c, offset, offset + 1 + |RenderAll(ps)|, ps);
  }

  lemma UnquotedLiteral(c: Text, offset: nat, e: nat, ps: seq<Piece>)
    requires forall k :: 0 <= k < |ps| ==> WellFormed(ps[k])
    requires offset < e < |c| && c[offset] == '\"' && c[e] == '\"'
    requires Occurs(c, offset + 1, RenderAll(ps)) && e == offset + 1 + |RenderAll(ps)|
    ensures StringLiteral(c, offset) == Some(ParsedString(CString(DenoteAll(ps)), e + 1))
  {
    RenderedPieces(c, offset + 1, e, ps);
    LiteralFromPasses(c, offset, e, DenoteAll(ps));
  }

  lemma LiteralFromPasses(c: Text, offset: nat, e: nat, bytes: Text)
    requires offset < e < |c| && c[offset] == '\"' && StringEnd(c, offset + 1) == Some(e)
    requires Unescape(c, offset + 1, e) == Some(bytes)
    ensures StringLiteral(c, offset) == Some(ParsedString(CString(bytes), e + 1))
  {}

  function Quoted(s: Text): Text {
    "\"" + s + "\""
  }

  lemma QuotedFits(c: Text, offset: nat, body: Text)
    requires Occurs(c, offset, Quoted(body))
    ensures offset + |body| + 2 <= |c|
  {}

  lemma QuotedOccurs(c: Text, offset: nat, body: Text)
    requires Occurs(c, offset, Quoted(body))
    ensures c[offset] == '\"' && Occurs(c, offset + 1, body) && c[offset + 1 + |body|] == '\"'
  {
    OccursSplit(c, offset, "\"" + body, "\"");
    OccursSplit(c, offset, "\"", body);
    assert c[offset] == c[offset..offset + 1][0];
    assert c[offset + 1 + |body|] == c[offset + 1 + |body|..offset + 2 + |body|][0];
  }

  // ---------------------------------------------------------------------------------------------
  // Printing
  // ---------------------------------------------------------------------------------------------

  function HexChar(d: nat): byte
    requires d < 16
  {
    if d < 10 then ('0' as int + d) as char else ('a' as int + (d - 10)) as char
  }

  predicate IsNormal(b: byte) {
    b as int > 31 && b != '\"' && b != '\\'
  }

  /** How `print_string_ptr` writes one byte. */
  function EscapedByte(b: byte): Text {
    if IsNormal(b) then [b]
    else match b as int
      case 92 => "\\\\"
      case 34 => "\\\""
      case 8 => "\\b"
      case 12 => "\\f"
      case 10 => "\\n"
      case 13 => "\\r"
      case 9 => "\\t"
      case n => assert n < 32; "\\u00" + [HexChar(n / 16), HexChar(n % 16)]
  }

  function Escaped(s: Text): Text {
    if s == [] then [] else EscapedByte(s[0]) + Escaped(s[1..])
  }

  function PrintedString(s: Text): Text {
    Quoted(Escaped(s))
  }

  /** The numbers of extra characters that the first loop of `print_string_ptr` counts. */
  function EscapeCost(b: byte): nat {
    match b as int
    case 34 => 1 case 92 => 1 case 8 => 1 case 12 => 1 case 10 => 1 case 13 => 1 case 9 => 1
    case n => if n < 32 then 5 else 0
  }

  function EscapeCosts(s: Text): nat {
    if s == [] then 0 else EscapeCost(s[0]) + EscapeCosts(s[1..])
  }

  lemma {:induction false} EscapedLength(s: Text)
    ensures |Escaped(s)| == |s| + EscapeCosts(s)
    ensures EscapeCosts(s) == 0 ==> Escaped(s) == s
  {
    if s != [] {
      EscapedLength(s[1..]);
      assert EscapeCost(s[0]) == 0 ==> EscapedByte(s[0]) == [s[0]];
    }
  }

  lemma {:induction false} EscapedAppend(s: Text, t: Text)
    ensures Escaped(s + t) == Escaped(s) + Escaped(t)
    ensures EscapeCosts(s + t) == EscapeCosts(s) + EscapeCosts(t)
  {
    if s == [] {
      assert s + t == t;
    } else {
      assert (s + t)[1..] == s[1..] + t;
      EscapedAppend(s[1..], t);
    }
  }

  lemma EscapedPrefix(s: Text, i: nat)
    requires i < |s|
    ensures Escaped(s[..i + 1]) == Escaped(s[..i]) + EscapedByte(s[i])
    ensures EscapeCosts(s[..i + 1]) == EscapeCosts(s[..i]) + EscapeCost(s[i])
    ensures |Escaped(s[..i + 1])| <= |Escaped(s)|
  {
    assert s[..i + 1] == s[..i] + [s[i]];
    assert s == s[..i + 1] + s[i + 1..];
    EscapedAppend(s[..i], [s[i]]);
    EscapedAppend(s[..i + 1], s[i + 1..]);
    assert [s[i]][1..] == [];
  }

  method WriteEscapedByte(b: byte, output: array<byte>, o: nat) returns (o': nat)
    requires o + |EscapedByte(b)| <= output.Length
    modifies output
    ensures o' == o + |EscapedByte(b)| && output[..o'] == old(output[..o]) + EscapedByte(b)
  {
    ghost var text, before := EscapedByte(b), output[..o];
    if b as int > 31 && b != '\"' && b != '\\' {
      output[o] := b;
      o' := o + 1;
    } else {
      output[o] := '\\';
      o' := o + 2;
      match b as int {
        case 92 => output[o + 1] := '\\';
        case 34 => output[o + 1] := '\"';
        case 8 => output[o + 1] := 'b';
        case 12 => output[o + 1] := 'f';
        case 10 => output[o + 1] := 'n';
        case 13 => output[o + 1] := 'r';
        case 9 => output[o + 1] := 't';
        case n =>
          output[o + 1], output[o + 2], output[o + 3] := 'u', '0', '0';
          output[o + 4], output[o + 5] := HexChar(n / 16), HexChar(n % 16);
          o' := o + 6;
      }
    }
    assert output[..o] == before && output[o..o'] == text;
    assert output[..o'] == output[..o] + output[o..o'];
  }

  method CopyEscaped(input: Text, output: array<byte>)
    requires output.Length == |Escaped(input)| + 3
    modifies output
    ensures output[1..1 + |Escaped(input)|] == Escaped(input)
  {
    var o := 1;
    ghost var done: Text := [];
    assert Escaped(input[..0]) == [];
    hide Escaped, EscapedByte, EscapeCosts, EscapeCost;
    for k := 0 to |input|
      invariant done == Escaped(input[..k]) && o == 1 + |done| <= output.Length - 2
      invariant output[1..o] == done
    {
      EscapedPrefix(input, k);
      ghost var before, text := output[..o], EscapedByte(input[k]);
      assert (before + text)[1..] == done + text;
      o := WriteEscapedByte(input[k], output, o);
      done := done + text;
      assert output[1..o] == output[..o][1..];
    }
    assert input[..|input|] == input;
  }

  method CountEscapes(input: Text) returns (escape_characters: nat)
    ensures escape_characters == EscapeCosts(input)
  {
    escape_characters := 0;
    for k := 0 to |input|
      invariant escape_characters == EscapeCosts(input[..k])
    {
      EscapedPrefix(input, k);
      escape_characters := escape_characters + EscapeCost(input[k]);
    }
    assert input[..|input|] == input;
  }

  /** `print_string_ptr` writes into a buffer that its counting pass has sized: the literal exactly fills it. */
  method PrintStringPtr(input: Text) returns (output: array<byte>)
    ensures output[..] == PrintedString(input) + "\0"
  {
    var escape_characters := CountEscapes(input);
    EscapedLength(input);
    var output_length := |input| + escape_characters;
    output := new byte[output_length + 3];
    if escape_characters == 0 {
      forall k | 0 <= k < output_length {
        output[1 + k] := input[k];
      }
      assert output[1..1 + output_length] == input;
    } else {
      CopyEscaped(input, output);
    }
    ghost var body := output[1..1 + output_length];
    assert body == Escaped(input);
    output[0] := '\"';
    output[output_length + 1] := '\"';
    output[output_length + 2] := '\0';
    QuotesAround(output, body);
  }

  lemma QuotesAround(output: array<byte>, body: Text)
    requires output.Length == |body| + 3 && output[0] == '\"' && output[|body| + 1] == '\"'
    requires output[|body| + 2] == '\0'
    requires forall k :: 0 <= k < |body| ==> output[1 + k] == body[k]
    ensures output[..] == Quoted(body) + "\0"
  {
    var r := Quoted(body) + "\0";
    forall k | 0 <= k < output.Length ensures output[k] == r[k] {}
  }

  /** The piece that `print_string_ptr` chooses for a byte. */
  function PieceOf(b: byte): Piece {
    if IsNormal(b) then Plain(b)
    else match b as int
      case 92 => Short('\\')
      case 34 => Short('\"')
      case 8 => Short('b')
      case 12 => Short('f')
      case 10 => Short('n')
      case 13 => Short('r')
      case 9 => Short('t')
      case n => assert n < 32; Bmp("00" + [HexChar(n / 16), HexChar(n % 16)])
  }

  lemma HexCharDigit(d: nat)
    requires d < 16
    ensures IsHex(HexChar(d)) && HexDigit(HexChar(d)) == d as bv32
  {}

  lemma SixteenMore(r: nat)
    requires r < 16
    ensures 16 + r as bv32 == (r + 16) as bv32 && r as bv32 < 16
  {}

  lemma TwoNibbles(n: nat)
    requires n < 32
    ensures (n / 16) as bv32 * 16 + (n % 16) as bv32 == n as bv32
    ensures n as bv32 < 32
  {
    SixteenMore(n % 16);
    if n < 16 {
      assert n / 16 == 0 && n % 16 == n;
    } else {
      assert n / 16 == 1 && n % 16 == n - 16;
    }
  }

  lemma NibblesOfByte(x: bv32, hi: bv32, lo: bv32)
    requires hi < 16 && lo < 16 && hi * 16 + lo == x && x < 32
    ensures Nibbles(0, 0, hi, lo) == x
  {}

  lemma LowByteOfControl(n: nat)
    requires n < 32
    ensures LowByte(n as bv32) as int == n
  {}

  lemma ControlHex(n: nat)
    requires n < 32
    ensures var hex := "00" + [HexChar(n / 16), HexChar(n % 16)];
            AllHex(hex) && ParseHex4(hex) == CodeUnit(hex) == n as bv32
  {
    var hex := "00" + [HexChar(n / 16), HexChar(n % 16)];
    HexCharDigit(0);
    HexCharDigit(n / 16);
    HexCharDigit(n % 16);
    TwoNibbles(n);
    NibblesOfByte(n as bv32, (n / 16) as bv32, (n % 16) as bv32);
    assert ParseHex4(hex) == n as bv32;
    hide ParseHex4, CodeUnit;
    assert AllHex(hex) by {
      HexIsMeant('0');
      HexIsMeant(HexChar(n / 16));
      HexIsMeant(HexChar(n % 16));
    }
    CodeUnitIsParsed(hex);
  }

  /** A piece that is plain unless it may not be, has two characters if it can, and is otherwise one of the `\\u0000` to
      `\\u001f` with small digits. */
  predicate Chosen(p: Piece) {
    match p
    case Plain(b) => b as int >= 0x20
    case Short(letter) => letter as int != 0x2F
    case Bmp(hex) =>
      && |hex| == 4 && hex[0] == hex[1] == '0' && (hex[2] == '0' || hex[2] == '1')
      && (IsDigit(hex[3]) || 'a' <= hex[3] <= 'f')
      && hex != "0008" && hex != "0009" && hex != "000a" && hex != "000c" && hex != "000d"
    case Pair(_, _) => false
  }

  lemma ControlUtf8(n: nat)
    requires n < 32
    ensures n as bv32 < 0x20 && Utf8(n as bv32) == [n as char]
  {
    LowByteOfControl(n);
  }

  lemma ControlChosen(n: nat)
    requires n < 32
    ensures n !in {8, 9, 10, 12, 13} ==> Chosen(Bmp("00" + [HexChar(n / 16), HexChar(n % 16)]))
  {
    var hex := "00" + [HexChar(n / 16), HexChar(n % 16)];
    assert hex[0] == hex[1] == '0' && hex[2] == HexChar(n / 16) && hex[3] == HexChar(n % 16);
  }

  lemma PieceOfControl(n: nat)
    requires n < 32
    ensures var p := Bmp("00" + [HexChar(n / 16), HexChar(n % 16)]);
            WellFormed(p) && Denote(p) == [n as char] && (n !in {8, 9, 10, 12, 13} ==> Chosen(p))
  {
    ControlHex(n);
    ControlUtf8(n);
    ControlChosen(n);
    hide CodeUnit, Utf8, AllHex, HexChar, Chosen, ParseHex4;
  }

  lemma PieceOfByte(b: byte)
    ensures WellFormed(PieceOf(b)) && Chosen(PieceOf(b))
    ensures Render(PieceOf(b)) == EscapedByte(b)
    ensures Denote(PieceOf(b)) == [b]
  {
    hide HexChar, Utf8, CodeUnit;
    if PieceOf(b).Bmp? {
      PieceOfControl(b as int);
      hide WellFormed, Denote, Chosen;
    }
  }

  function PiecesOf(s: Text): (ps: seq<Piece>)
    ensures |ps| == |s|
  {
    if s == [] then [] else [PieceOf(s[0])] + PiecesOf(s[1..])
  }

  lemma {:induction false} EscapedIsRendered(s: Text)
    ensures forall k :: 0 <= k < |s| ==> WellFormed(PiecesOf(s)[k]) && Chosen(PiecesOf(s)[k])
    ensures RenderAll(PiecesOf(s)) == Escaped(s)
    ensures DenoteAll(PiecesOf(s)) == s
  {
    hide WellFormed, Chosen, Denote, Render, EscapedByte, PieceOf;
    if s != [] {
      PieceOfByte(s[0]);
      EscapedIsRendered(s[1..]);
      assert PiecesOf(s)[0] == PieceOf(s[0]) && PiecesOf(s)[1..] == PiecesOf(s[1..]);
    }
  }

  /** Parsing a printed string gives the string back, wherever the literal stands. */
  lemma StringRoundTrip(c: Text, offset: nat, s: Text)
    requires NulFree(s) && Occurs(c, offset, PrintedString(s))
    ensures StringLiteral(c, offset) == Some(ParsedString(s, offset + |PrintedString(s)|))
  {
    hide StringLiteral, Escaped, PiecesOf, RenderAll, WellFormed, DenoteAll, CString, Occurs;
    EscapedIsRendered(s);
    WellFormedLiteral(c, offset, PiecesOf(s));
    CStringOfNulFree(s);
    assert |PrintedString(s)| == |Escaped(s)| + 2;
  }
}
