/** `parse_value`, `parse_array`, `parse_object` and `parse_number` of cJSON.c. */
module JsonParser {
  import opened Bytes
  import opened Json
  import opened JsonStrings

  datatype Parsed<+T> = Parsed(value: T, end: nat)

  // ---------------------------------------------------------------------------------------------
  // What the parser computes, as functions of the buffer and the position
  // ---------------------------------------------------------------------------------------------

  predicate IsSpace(c: byte) {
    c as int <= 32
  }

  function SpaceEnd(c: Text, p: nat): (q: nat)
    requires p <= |c|
    ensures p <= q <= |c|
    ensures forall k :: p <= k < q ==> IsSpace(c[k])
    ensures q < |c| ==> !IsSpace(c[q])
    decreases |c| - p
  {
    if p < |c| && IsSpace(c[p]) then SpaceEnd(c, p + 1) else p
  }

  /** `buffer_skip_whitespace`, which steps back by one when it has run to the very end of the buffer. */
  function SkipSpace(c: Text, p: nat): (q: nat)
    requires p <= |c|
    ensures p <= q <= |c|
    ensures p < |c| ==> q < |c|
  {
    if p == |c| then p
    else if SpaceEnd(c, p) == |c| then |c| - 1
    else SpaceEnd(c, p)
  }

  predicate IsNumberChar(c: byte) {
    IsDigit(c) || c in "+-eE."
  }

  /** The text that `parse_number` copies for `strtod`: at most 63 characters that may occur in a number. */
  function NumberText(c: Text, p: nat, limit: nat): (t: Text)
    ensures |t| <= limit
    ensures t == [] || Occurs(c, p, t)
    decreases limit
  {
    if limit == 0 || p >= |c| || !IsNumberChar(c[p]) then [] else
    var t := NumberText(c, p + 1, limit - 1);
    assert c[p..p + 1 + |t|] == [c[p]] + c[p + 1..p + 1 + |t|];
    [c[p]] + t
  }

  const NUMBER_LIMIT: nat := 63

  function DigitCount(t: Text): (n: nat)
    ensures n <= |t| && AllDigits(t[..n])
    ensures n < |t| ==> !IsDigit(t[n])
  {
    if t == [] || !IsDigit(t[0]) then 0 else
    var n := DigitCount(t[1..]);
    assert forall i :: 0 < i < n + 1 ==> t[i] == t[1..][i - 1];
    n + 1
  }

  /** `strtod` where it meets an integer: an optional minus sign and digits that no fraction or exponent follows. */
  function IntegerPrefix(t: Text): (r: Option<Parsed<int>>)
    ensures r.Some? ==> 0 < r.value.end <= |t|
  {
    var sign := if t != [] && t[0] == '-' then 1 else 0;
    var n := DigitCount(t[sign..]);
    if n == 0 || (sign + n < |t| && t[sign + n] in ".eE") then None else
    var magnitude: int := DigitsValue(t[sign..][..n]);
    Some(Parsed(if sign == 1 then -magnitude else magnitude, sign + n))
  }

  function Saturate(n: int): (r: int)
    ensures INT_MIN <= r <= INT_MAX
    ensures INT_MIN <= n <= INT_MAX ==> r == n
  {
    if n >= INT_MAX then INT_MAX else if n <= INT_MIN then INT_MIN else n
  }

  function NumberAt(c: Text, p: nat): (r: Option<Parsed<int>>)
    ensures r.Some? ==> p < r.value.end <= |c|
  {
    match IntegerPrefix(NumberText(c, p, NUMBER_LIMIT))
    case None => None
    case Some(i) => Some(Parsed(Saturate(i.value), p + i.end))
  }

  /** `parse_value` at `p`, inside `depth` containers. */
  function ValueAt(c: Text, p: nat, depth: nat): (r: Option<Parsed<Value>>)
    requires p <= |c|
    ensures r.Some? ==> p < r.value.end <= |c|
    decreases |c| - p, 3
  {
    if Occurs(c, p, "null") then Some(Parsed(Null, p + 4))
    else if Occurs(c, p, "false") then Some(Parsed(Bool(false), p + 5))
    else if Occurs(c, p, "true") then Some(Parsed(Bool(true), p + 4))
    else if p == |c| then None
    else if c[p] == '\"' then
      match StringLiteral(c, p)
      case None => None
      case Some(s) => Some(Parsed(Str(s.value), s.end))
    else if c[p] == '-' || IsDigit(c[p]) then
      match NumberAt(c, p)
      case None => None
      case Some(n) => Some(Parsed(Number(n.value), n.end))
    else if c[p] == '[' then
      if depth >= NESTING_LIMIT then None else
      match ArrayAt(c, p, depth + 1)
      case None => None
      case Some(a) => Some(Parsed(Array(a.value), a.end + 1))
    else if c[p] == '{' then
      if depth >= NESTING_LIMIT then None else
      match ObjectAt(c, p, depth + 1)
      case None => None
      case Some(o) => Some(Parsed(Object(o.value), o.end + 1))
    else None
  }

  /** The elements of the array that opens at `p`, and the position of its closing bracket. */
  function ArrayAt(c: Text, p: nat, depth: nat): (r: Option<Parsed<seq<Value>>>)
    requires p < |c|
    ensures r.Some? ==> p < r.value.end < |c|
    decreases |c| - p, 2
  {
    var q := SkipSpace(c, p + 1);
    if q == |c| then None
    else if c[q] == ']' then Some(Parsed([], q))
    else ElementsAt(c, q - 1, depth)
  }

  /** The elements behind position `p`, where the opening bracket or a comma stands. */
  function ElementsAt(c: Text, p: nat, depth: nat): (r: Option<Parsed<seq<Value>>>)
    requires p < |c|
    ensures r.Some? ==> p < r.value.end < |c|
    decreases |c| - p, 1
  {
    match ValueAt(c, SkipSpace(c, p + 1), depth)
    case None => None
    case Some(v) =>
      var q := SkipSpace(c, v.end);
      if q == |c| then None
      else if c[q] == ',' then
        match ElementsAt(c, q, depth)
        case None => None
        case Some(rest) => Some(Parsed([v.value] + rest.value, rest.end))
      else if c[q] == ']' then Some(Parsed([v.value], q))
      else None
  }

  function ObjectAt(c: Text, p: nat, depth: nat): (r: Option<Parsed<seq<Keyed<Value>>>>)
    requires p < |c|
    ensures r.Some? ==> p < r.value.end < |c|
    decreases |c| - p, 2
  {
    var q := SkipSpace(c, p + 1);
    if q == |c| then None
    else if c[q] == '}' then Some(Parsed([], q))
    else MembersAt(c, q - 1, depth)
  }

  /** The key, the colon and the value behind position `p`. */
  function MemberAt(c: Text, p: nat, depth: nat): (r: Option<Parsed<Keyed<Value>>>)
    requires p < |c|
    ensures r.Some? ==> p < r.value.end <= |c|
    decreases |c| - p, 0
  {
    match StringLiteral(c, SkipSpace(c, p + 1))
    case None => None
    case Some(k) =>
      var q := SkipSpace(c, k.end);
      if q == |c| || c[q] != ':' then None else
      match ValueAt(c, SkipSpace(c, q + 1), depth)
      case None => None
      case Some(v) => Some(Parsed(Keyed(k.value, v.value), v.end))
  }

  function MembersAt(c: Text, p: nat, depth: nat): (r: Option<Parsed<seq<Keyed<Value>>>>)
    requires p < |c|
    ensures r.Some? ==> p < r.value.end < |c|
    decreases |c| - p, 1
  {
    match MemberAt(c, p, depth)
    case None => None
    case Some(m) =>
      var q := SkipSpace(c, m.end);
      if q == |c| then None
      else if c[q] == ',' then
        match MembersAt(c, q, depth)
        case None => None
        case Some(rest) => Some(Parsed([m.value] + rest.value, rest.end))
      else if c[q] == '}' then Some(Parsed([m.value], q))
      else None
  }

  /** `skip_utf8_bom`. */
  function BomEnd(c: Text): (p: nat)
    ensures p <= |c|
  {
    if |c| > 4 && c[0] as int == 0xEF && c[1] as int == 0xBB && c[2] as int == 0xBF then 3 else 0
  }

  /** `cJSON_ParseWithLengthOpts` on a buffer: the value, and where `return_parse_end` points. */
  function Document(c: Text, require_null_terminated: bool): Option<Parsed<Value>> {
    if c == [] then None else
    match ValueAt(c, SkipSpace(c, BomEnd(c)), 0)
    case None => None
    case Some(v) =>
      if !require_null_terminated then Some(v) else
      var e := SkipSpace(c, v.end);
      if e == |c| || c[e] != '\0' then None else Some(Parsed(v.value, e))
  }

  /** `cJSON_ParseWithOpts`: the buffer is a C string together with its terminator. */
  function ParseCString(text: Text, require_null_terminated: bool): Option<Parsed<Value>> {
    Document(text + "\0", require_null_terminated)
  }

  // ---------------------------------------------------------------------------------------------
  // The parser itself, which moves `offset` and `depth` along
  // ---------------------------------------------------------------------------------------------

  lemma NoLiteralAtEnd(c: Text)
    ensures StringLiteral(c, |c|) == None
  {}

  class ParseBuffer {
    const content: Text
    var offset: nat
    var depth: nat

    ghost predicate Valid()
      reads this
    {
      offset <= |content|
    }

    constructor (content: Text)
      ensures Valid() && this.content == content && offset == 0 && depth == 0
    {
      this.content := content;
      offset, depth := 0, 0;
    }

    method SkipWhitespace()
      requires Valid()
      modifies this`offset
      ensures Valid() && offset == SkipSpace(content, old(offset))
    {
      if offset == |content| {
        return;
      }
      while offset < |content| && IsSpace(content[offset])
        invariant offset <= |content| && SpaceEnd(content, offset) == SpaceEnd(content, old(offset))
      {
        offset := offset + 1;
      }
      if offset == |content| {
        offset := offset - 1;
      }
    }

    method ParseValue() returns (ok: bool, item: Value)
      requires Valid()
      modifies this
      ensures Valid()
      ensures ok == ValueAt(content, old(offset), old(depth)).Some?
      ensures ok ==> ValueAt(content, old(offset), old(depth)) == Some(Parsed(item, offset)) && depth == old(depth)
      decreases |content| - offset, 3
    {
      hide StringLiteral, NumberAt, ArrayAt, ObjectAt;
      ok, item := true, Null;
      if Occurs(content, offset, "null") {
        offset := offset + 4;
      } else if Occurs(content, offset, "false") {
        item := Bool(false);
        offset := offset + 5;
      } else if Occurs(content, offset, "true") {
        item := Bool(true);
        offset := offset + 4;
      } else if offset < |content| && content[offset] == '\"' {
        var s, end;
        ok, s, end := ParseString(content, offset);
        if ok {
          item := Str(s);
          offset := end;
        }
      } else if offset < |content| && (content[offset] == '-' || IsDigit(content[offset])) {
        var n;
        ok, n := ParseNumber();
        item := Number(n);
      } else if offset < |content| && content[offset] == '[' {
        var items;
        ok, items := ParseArray();
        item := Array(items);
      } else if offset < |content| && content[offset] == '{' {
        var members;
        ok, members := ParseObject();
        item := Object(members);
      } else {
        ok := false;
      }
    }

    method CopyNumber(limit: nat) returns (number_c_string: Text)
      requires Valid()
      ensures number_c_string == NumberText(content, offset, limit)
    {
      number_c_string := [];
      var i := 0;
      while i < limit && offset + i < |content| && IsNumberChar(content[offset + i])
        invariant i <= limit && offset + i <= |content|
        invariant number_c_string + NumberText(content, offset + i, limit - i) == NumberText(content, offset, limit)
      {
        number_c_string := number_c_string + [content[offset + i]];
        i := i + 1;
      }
      assert NumberText(content, offset + i, limit - i) == [];
    }

    method ParseNumber() returns (ok: bool, n: int)
      requires Valid()
      modifies this`offset
      ensures Valid()
      ensures NumberAt(content, old(offset)) == if ok then Some(Parsed(n, offset)) else None
    {
      hide NumberText, IntegerPrefix, Saturate, IsNumberChar, SpaceEnd;
      var number_c_string := CopyNumber(NUMBER_LIMIT);
      n := 0;
      match IntegerPrefix(number_c_string) {
        case None =>
          ok := false;
        case Some(number) =>
          ok, n := true, Saturate(number.value);
          offset := offset + number.end;
      }
    }

    method ParseArray() returns (ok: bool, items: seq<Value>)
      requires Valid() && offset < |content| && content[offset] == '['
      modifies this
      ensures Valid()
      ensures ok == (old(depth) < NESTING_LIMIT && ArrayAt(content, old(offset), old(depth) + 1).Some?)
      ensures ok ==> depth == old(depth) && offset > 0
                     && ArrayAt(content, old(offset), old(depth) + 1) == Some(Parsed(items, offset - 1))
      decreases |content| - offset, 2
    {
      hide ElementsAt, SkipSpace;
      ok, items := false, [];
      if depth >= NESTING_LIMIT {
        return;
      }
      depth := depth + 1;
      offset := offset + 1;
      SkipWhitespace();
      if offset < |content| && content[offset] == ']' {
        ok := true;
      } else if offset == |content| {
        return;
      } else {
        offset := offset - 1;
        ok, items := ParseElements();
      }
      if ok {
        depth := depth - 1;
        offset := offset + 1;
      }
    }

    // The loop of `parse_array`: from the character in front of the first element to the closing bracket.
    method ParseElements() returns (ok: bool, items: seq<Value>)
      requires Valid() && offset < |content|
      modifies this
      ensures Valid()
      ensures ElementsAt(content, old(offset), old(depth)) == if ok then Some(Parsed(items, offset)) else None
      ensures ok ==> depth == old(depth)
      decreases |content| - offset, 1
    {
      hide ValueAt, SkipSpace, SpaceEnd;
      ok, items := false, [];
      ghost var total := ElementsAt(content, offset, depth);
      PrependItemsTwice([], [], total);
      while true
        invariant Valid() && old(offset) <= offset < |content| && depth == old(depth) && !ok
        invariant total == PrependItems(items, ElementsAt(content, offset, depth))
        decreases |content| - offset
      {
        ghost var p := offset;
        offset := offset + 1;
        SkipWhitespace();
        var parsed, item := ParseValue();
        if !parsed {
          return;
        }
        ghost var e := offset;
        SkipWhitespace();
        ElementsUnrolled(content, p, depth, item, e);
        if offset < |content| && content[offset] == ',' {
          PrependItemsTwice(items, [item], ElementsAt(content, offset, depth));
        }
        items := items + [item];
        if !(offset < |content| && content[offset] == ',') {
          break;
        }
      }
      ok := offset < |content| && content[offset] == ']';
    }

    method ParseObject() returns (ok: bool, members: seq<Keyed<Value>>)
      requires Valid() && offset < |content| && content[offset] == '{'
      modifies this
      ensures Valid()
      ensures ok == (old(depth) < NESTING_LIMIT && ObjectAt(content, old(offset), old(depth) + 1).Some?)
      ensures ok ==> depth == old(depth) && offset > 0
                     && ObjectAt(content, old(offset), old(depth) + 1) == Some(Parsed(members, offset - 1))
      decreases |content| - offset, 2
    {
      hide MembersAt, SkipSpace;
      ok, members := false, [];
      if depth >= NESTING_LIMIT {
        return;
      }
      depth := depth + 1;
      offset := offset + 1;
      SkipWhitespace();
      if offset < |content| && content[offset] == '}' {
        ok := true;
      } else if offset == |content| {
        return;
      } else {
        offset := offset - 1;
        ok, members := ParseEntries();
      }
      if ok {
        depth := depth - 1;
        offset := offset + 1;
      }
    }

    // The loop of `parse_object`.
    method ParseEntries() returns (ok: bool, members: seq<Keyed<Value>>)
      requires Valid() && offset < |content|
      modifies this
      ensures Valid()
      ensures MembersAt(content, old(offset), old(depth)) == if ok then Some(Parsed(members, offset)) else None
      ensures ok ==> depth == old(depth)
      decreases |content| - offset, 1
    {
      hide MemberAt;
      ok, members := false, [];
      ghost var total := MembersAt(content, offset, depth);
      PrependItemsTwice([], [], total);
      while true
        invariant Valid() && old(offset) <= offset < |content| && depth == old(depth) && !ok
        invariant total == PrependItems(members, MembersAt(content, offset, depth))
        decreases |content| - offset
      {
        ghost var p := offset;
        var parsed, member := ParseKeyAndValue();
        if !parsed {
          return;
        }
        ghost var e := offset;
        SkipWhitespace();
        MembersUnrolled(content, p, depth, member, e);
        if offset < |content| && content[offset] == ',' {
          PrependItemsTwice(members, [member], MembersAt(content, offset, depth));
        }
        members := members + [member];
        if !(offset < |content| && content[offset] == ',') {
          break;
        }
      }
      ok := offset < |content| && content[offset] == '}';
    }

    method ParseKeyAndValue() returns (ok: bool, member: Keyed<Value>)
      requires Valid() && offset < |content|
      modifies this
      ensures Valid()
      ensures MemberAt(content, old(offset), old(depth)) == if ok then Some(Parsed(member, offset)) else None
      ensures ok ==> depth == old(depth)
      decreases |content| - offset, 0
    {
      hide StringLiteral, ValueAt, SkipSpace, SpaceEnd;
      ok, member := false, Keyed([], Null);
      offset := offset + 1;
      SkipWhitespace();
      if offset == |content| {
        NoLiteralAtEnd(content);
        return;
      }
      var parsed, name, end := ParseString(content, offset);
      if !parsed {
        return;
      }
      offset := end;
      SkipWhitespace();
      if offset == |content| || content[offset] != ':' {
        return;
      }
      offset := offset + 1;
      SkipWhitespace();
      var item;
      ok, item := ParseValue();
      member := Keyed(name, item);
    }
  }

  function PrependItems<T>(items: seq<T>, r: Option<Parsed<seq<T>>>): Option<Parsed<seq<T>>> {
    match r
    case None => None
    case Some(rest) => Some(Parsed(items + rest.value, rest.end))
  }

  lemma PrependItemsTwice<T>(s: seq<T>, t: seq<T>, r: Option<Parsed<seq<T>>>)
    ensures PrependItems(s, PrependItems(t, r)) == PrependItems(s + t, r)
    ensures PrependItems([], r) == r
  {
    if r.Some? {
      assert s + (t + r.value.value) == s + t + r.value.value;
      assert [] + r.value.value == r.value.value;
    }
  }

  lemma ElementsUnrolled(c: Text, p: nat, depth: nat, v: Value, e: nat)
    requires p < e <= |c| && ValueAt(c, SkipSpace(c, p + 1), depth) == Some(Parsed(v, e))
    ensures var q := SkipSpace(c, e);
            ElementsAt(c, p, depth) == if q < |c| && c[q] == ',' then PrependItems([v], ElementsAt(c, q, depth))
                                       else if q < |c| && c[q] == ']' then Some(Parsed([v], q))
                                       else None
  {}

  lemma MembersUnrolled(c: Text, p: nat, depth: nat, m: Keyed<Value>, e: nat)
    requires p < e <= |c| && MemberAt(c, p, depth) == Some(Parsed(m, e))
    ensures var q := SkipSpace(c, e);
            MembersAt(c, p, depth) == if q < |c| && c[q] == ',' then PrependItems([m], MembersAt(c, q, depth))
                                      else if q < |c| && c[q] == '}' then Some(Parsed([m], q))
                                      else None
  {}
}
