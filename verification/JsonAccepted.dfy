/** The converse of `JsonGrammar`: whatever the parser accepts is a text of the grammar, and is parsed to what it
    denotes. */
module JsonAccepted {
  import opened Bytes
  import opened Json
  import opened JsonStrings
  import opened JsonParser
  import opened JsonGrammar

  lemma OccursJoin(c: Text, p: nat, s: Text, t: Text)
    requires Occurs(c, p, s) && Occurs(c, p + |s|, t)
    ensures Occurs(c, p, s + t)
  {
    assert c[p..p + |s + t|] == c[p..p + |s|] + c[p + |s|..p + |s| + |t|];
  }

  lemma ByteOccurs(c: Text, p: nat, b: byte)
    requires p < |c| && c[p] == b
    ensures Occurs(c, p, [b])
  {}

  lemma SkippedIsWhite(c: Text, p: nat)
    requires p <= |c|
    ensures White(c[p..SkipSpace(c, p)]) && Occurs(c, p, c[p..SkipSpace(c, p)])
  {}

  // --- strings

  ghost predicate PiecesAre(c: Text, i: nat, e: nat, ps: seq<Piece>)
    requires e < |c|
  {
    && (forall k :: 0 <= k < |ps| ==> WellFormed(ps[k]))
    && Occurs(c, i, RenderAll(ps)) && e == i + |RenderAll(ps)| && Unescape(c, i, e) == Some(DenoteAll(ps))
  }

  lemma NoPieces(c: Text, e: nat)
    requires e < |c|
    ensures PiecesAre(c, e, e, [])
  {}

  ghost predicate IllFormed(c: Text, i: nat, e: nat) {
    exists j: nat :: i <= j && j + 6 <= e && IllFormedAt(c, j)
  }

  /** Where no `\\u` is ill-formed, a literal consists of pieces. */
  lemma {:induction false} LiteralPieces(c: Text, i: nat, e: nat) returns (ps: seq<Piece>)
    requires e < |c| && StringEnd(c, i) == Some(e) && Unescape(c, i, e).Some?
    ensures IllFormed(c, i, e) || PiecesAre(c, i, e, ps)
    decreases e - i
  {
    hide *;
    if i == e {
      NoPieces(c, e);
      return [];
    }
    var p, ok := FirstPiece(c, i, e);
    ps := [];
    if !ok {
      IllFormedHere(c, i, e);
    } else {
      PieceStep(c, i, e, p);
      var j := i + RenderedLength(p);
      ps := LiteralPieces(c, j, e);
      if IllFormed(c, j, e) {
        IllFormedLater(c, i, j, e);
      } else {
        PiecesJoin(c, i, e, p, ps);
        ps := [p] + ps;
      }
    }
  }

  lemma IllFormedHere(c: Text, i: nat, e: nat)
    requires i + 6 <= e && IllFormedAt(c, i)
    ensures IllFormed(c, i, e)
  {}

  lemma IllFormedLater(c: Text, i: nat, j: nat, e: nat)
    requires i <= j && IllFormed(c, j, e)
    ensures IllFormed(c, i, e)
  {}

  lemma FirstPiece(c: Text, i: nat, e: nat) returns (p: Piece, ok: bool)
    requires i < e && StringEnd(c, i) == Some(e) && Unescape(c, i, e).Some?
    ensures ok ==> WellFormed(p) && PieceAt(c, i, p) && i + RenderedLength(p) <= e < |c|
    ensures !ok ==> i + 6 <= e && IllFormedAt(c, i)
  {
    p, ok := Plain(c[i]), true;
    if c[i] == '\\' {
      hide WellFormed;
      UnescapeEscape(c, i, e);
      assert StringEnd(c, i) == StringEnd(c, i + 2);
      if IsShortEscape(c[i + 1]) {
        p := Short(c[i + 1]);
        assert WellFormed(p) by {
          ShortIsMeant(c[i + 1]);
        }
      } else {
        hide Unescape, StringEnd;
        p, ok := FirstUnits(c, i, e);
      }
    } else {
      hide Unescape;
    }
  }

  lemma FirstUnits(c: Text, i: nat, e: nat) returns (p: Piece, ok: bool)
    requires i < e < |c| && c[i] == '\\' && c[i + 1] == 'u' && Utf16Literal(c, i, e).Some?
    ensures ok ==> WellFormed(p) && PieceAt(c, i, p) && i + RenderedLength(p) <= e
    ensures !ok ==> i + 6 <= e && IllFormedAt(c, i)
  {
    var hex := c[i + 2..i + 6];
    if !AllHex(hex) {
      return Plain(c[i]), false;
    }
    ok := true;
    CodeUnitIsParsed(hex);
    if 0xD800 <= ParseHex4(hex) <= 0xDBFF {
      var low := c[i + 8..i + 12];
      LowUnit(low);
      hide CodeUnit, ParseHex4;
      p := Pair(hex, low);
    } else {
      hide CodeUnit, ParseHex4;
      p := Bmp(hex);
    }
  }

  lemma LowUnit(hex: Text)
    requires |hex| == 4
    ensures ParseHex4(hex) >= 0xDC00 ==> AllHex(hex) && ParseHex4(hex) == CodeUnit(hex)
  {
    if ParseHex4(hex) >= 0xDC00 {
      forall k | 0 <= k < 4 ensures HexMeaning(hex[k]).Some? {
        HexIsMeant(hex[k]);
      }
      CodeUnitIsParsed(hex);
    }
  }

  lemma PieceStep(c: Text, i: nat, e: nat, p: Piece)
    requires WellFormed(p) && PieceAt(c, i, p) && i + RenderedLength(p) <= e < |c|
    requires StringEnd(c, i) == Some(e) && Unescape(c, i, e).Some?
    ensures StringEnd(c, i + RenderedLength(p)) == Some(e)
    ensures RenderedLength(p) > 0 && Unescape(c, i + RenderedLength(p), e).Some?
    ensures Unescape(c, i, e) == Prepend(Denote(p), Unescape(c, i + RenderedLength(p), e))
  {
    hide WellFormed, Denote, StringEnd, Unescape, PieceAt;
    StringEndPiece(c, i, p);
    UnescapePiece(c, i, e, p);
  }

  lemma UnitOccurs(c: Text, i: nat, hex: Text)
    requires |hex| == 4 && HexAt(c, i, hex)
    ensures Occurs(c, i, "\\u" + hex)
  {
    assert c[i..i + 6] == c[i..i + 2] + c[i + 2..i + 6];
  }

  lemma RenderOccurs(c: Text, i: nat, p: Piece)
    requires WellFormed(p) && PieceAt(c, i, p) && i + RenderedLength(p) <= |c|
    ensures Occurs(c, i, Render(p)) && |Render(p)| == RenderedLength(p)
  {
    hide CodeUnit, AllHex;
    match p {
      case Plain(b) =>
      case Short(letter) =>
      case Bmp(hex) => hide HexAt, Occurs; UnitOccurs(c, i, hex);
      case Pair(high, low) =>
        hide HexAt, Occurs;
        UnitOccurs(c, i, high);
        UnitOccurs(c, i + 6, low);
        OccursJoin(c, i, "\\u" + high, "\\u" + low);
        assert Render(p) == ("\\u" + high) + ("\\u" + low);
    }
  }

  lemma OneMorePiece(p: Piece, ps: seq<Piece>)
    requires WellFormed(p) && forall k :: 0 <= k < |ps| ==> WellFormed(ps[k])
    ensures forall k :: 0 <= k < |[p] + ps| ==> WellFormed(([p] + ps)[k])
    ensures RenderAll([p] + ps) == Render(p) + RenderAll(ps) && DenoteAll([p] + ps) == Denote(p) + DenoteAll(ps)
  {
    hide WellFormed, Denote, Render;
    var all := [p] + ps;
    assert all[1..] == ps && all[0] == p;
  }

  lemma PiecesJoin(c: Text, i: nat, e: nat, p: Piece, ps: seq<Piece>)
    requires WellFormed(p) && PieceAt(c, i, p) && i + RenderedLength(p) <= e < |c|
    requires PiecesAre(c, i + RenderedLength(p), e, ps)
    requires Unescape(c, i, e) == Prepend(Denote(p), Unescape(c, i + RenderedLength(p), e))
    ensures PiecesAre(c, i, e, [p] + ps)
  {
    OneMorePiece(p, ps);
    RenderOccurs(c, i, p);
    hide WellFormed, Denote, Unescape, PieceAt, Occurs, Render, RenderAll, DenoteAll;
    OccursJoin(c, i, Render(p), RenderAll(ps));
  }

  lemma {:induction false} StringEndBack(c: Text, p: nat, t: Text, i: nat)
    requires Occurs(c, p, t) && StringEnd(c, p + i).Some? && StringEnd(c, p + i).value < p + |t|
    ensures StringEnd(t, i) == Some(StringEnd(c, p + i).value - p)
    decreases |t| - i
  {
    ByteAt(c, p, t);
    hide Occurs;
    if t[i] == '\\' {
      StringEndBack(c, p, t, i + 2);
    } else if t[i] != '\"' {
      StringEndBack(c, p, t, i + 1);
    }
  }

  lemma LiteralAlone(c: Text, p: nat)
    requires p <= |c| && StringLiteral(c, p).Some?
    ensures var r := StringLiteral(c, p).value;
            && p < r.end <= |c| && StringLiteral(c[p..r.end], 0) == Some(ParsedString(r.value, r.end - p))
  {
    hide Unescape, StringEnd;
    var e := StringEnd(c, p + 1).value;
    var t := c[p..e + 1];
    StringEndBack(c, p, t, 1);
    UnescapeShifted(c, p, t, 1, e - p);
  }

  ghost predicate QuoteAt(c: Text, p: nat, q: Quote, r: ParsedString) {
    && AllowedQuote(q) && Occurs(c, p, WrittenQuote(q)) && r.end == p + |WrittenQuote(q)| && DenotedQuote(q) == r.value
  }

  lemma PiecesAreQuote(c: Text, p: nat, e: nat, ps: seq<Piece>)
    requires p < e < |c| && c[p] == '\"' == c[e] && PiecesAre(c, p + 1, e, ps)
    ensures QuoteAt(c, p, Pieces(ps), ParsedString(CString(DenoteAll(ps)), e + 1))
  {
    hide RenderAll, DenoteAll, CString, WellFormed, Unescape, Occurs;
    ByteOccurs(c, p, '\"');
    ByteOccurs(c, e, '\"');
    OccursJoin(c, p, "\"", RenderAll(ps));
    OccursJoin(c, p, "\"" + RenderAll(ps), "\"");
  }

  lemma IllFormedAlone(c: Text, p: nat, end: nat) returns (i: nat)
    requires p <= end <= |c| && IllFormed(c, p, end)
    ensures IllFormedAt(c[p..end], i)
  {
    hide AllHex;
    var j: nat :| p <= j && j + 6 <= end && IllFormedAt(c, j);
    i := j - p;
    var t := c[p..end];
    SliceOfSlice(c, p, end, i + 2, i + 6);
    assert t[i] == c[j] && t[i + 1] == c[j + 1] && i + 6 <= |t|;
  }

  lemma SliceOfSlice(c: Text, p: nat, end: nat, i: nat, j: nat)
    requires p <= end <= |c| && i <= j && p + j <= end
    ensures c[p..end][i..j] == c[p + i..p + j]
  {
    var t := c[p..end];
    forall k | 0 <= k < j - i ensures t[i..j][k] == c[p + i..p + j][k] {
      assert t[i..j][k] == t[i + k] == c[p + (i + k)];
    }
  }

  lemma OddIsQuote(c: Text, p: nat)
    requires p <= |c| && StringLiteral(c, p).Some? && IllFormed(c, p + 1, StringLiteral(c, p).value.end - 1)
    ensures QuoteAt(c, p, Odd(c[p..StringLiteral(c, p).value.end]), StringLiteral(c, p).value)
  {
    var r := StringLiteral(c, p).value;
    LiteralAlone(c, p);
    hide StringLiteral;
    IllFormedLater(c, p, p + 1, r.end);
    var i := IllFormedAlone(c, p, r.end);
  }

  lemma LiteralCases(c: Text, p: nat) returns (e: nat)
    requires p <= |c| && StringLiteral(c, p).Some?
    ensures p < e < |c| && c[p] == '\"' == c[e] && StringEnd(c, p + 1) == Some(e) && Unescape(c, p + 1, e).Some?
    ensures StringLiteral(c, p).value == ParsedString(CString(Unescape(c, p + 1, e).value), e + 1)
  {
    hide Unescape, StringEnd, CString;
    e := StringEnd(c, p + 1).value;
  }

  lemma QuoteIsWritten(c: Text, p: nat) returns (q: Quote)
    requires p <= |c| && StringLiteral(c, p).Some?
    ensures QuoteAt(c, p, q, StringLiteral(c, p).value)
  {
    hide *;
    var e := LiteralCases(c, p);
    var ps := LiteralPieces(c, p + 1, e);
    if IllFormed(c, p + 1, e) {
      OddIsQuote(c, p);
      q := Odd(c[p..e + 1]);
    } else {
      PiecesAreQuote(c, p, e, ps);
      PiecesUnescaped(c, p + 1, e, ps);
      q := Pieces(ps);
    }
  }

  lemma PiecesUnescaped(c: Text, i: nat, e: nat, ps: seq<Piece>)
    requires e < |c| && PiecesAre(c, i, e, ps)
    ensures Unescape(c, i, e) == Some(DenoteAll(ps))
  {}

  // --- numbers

  function ReadDigits(t: Text): (ds: seq<Digit>)
    requires AllDigits(t)
    ensures |ds| == |t|
  {
    seq(|t|, i requires 0 <= i < |t| => t[i] as int - 0x30)
  }

  lemma ReadDigitsWritten(t: Text)
    requires AllDigits(t)
    ensures WrittenDigits(ReadDigits(t)) == t && DigitsValue(t) == DenotedDigits(ReadDigits(t))
  {
    DigitsMean(ReadDigits(t));
    assert WrittenDigits(ReadDigits(t)) == t;
  }

  /** A value of the grammar stands at `p`, and `r` is what it denotes and where it ends. */
  ghost predicate SyntaxAt(c: Text, p: nat, s: Syntax, r: Parsed<Value>) {
    Allowed(s) && Occurs(c, p, Written(s)) && r.end == p + |Written(s)| && Denoted(s) == r.value
  }

  lemma PrefixParts(t: Text) returns (negative: bool, d: Text)
    requires IntegerPrefix(t).Some?
    ensures d != [] && AllDigits(d) && (if negative then "-" else "") + d <= t
    ensures var r := IntegerPrefix(t).value;
            && r.value == (if negative then -(DigitsValue(d) as int) else DigitsValue(d))
            && r.end == |(if negative then "-" else "") + d|
  {
    hide DigitsValue;
    negative := t[0] == '-';
    var sign := if negative then 1 else 0;
    var n := DigitCount(t[sign..]);
    d := t[sign..][..n];
    hide DigitCount;
    assert t[..sign + n] == t[..sign] + d;
    assert t[..sign] == if negative then "-" else "";
  }

  lemma ReadInteger(negative: bool, d: Text) returns (s: Syntax)
    requires d != [] && AllDigits(d) && (if negative then 1 else 0) + |d| <= 63
    ensures s.IntText? && Allowed(s) && Written(s) == (if negative then "-" else "") + d
    ensures Denoted(s) == Number(Saturate(if negative then -(DigitsValue(d) as int) else DigitsValue(d)))
  {
    hide ReadDigits, WrittenDigits, DigitsValue, DenotedDigits;
    ReadDigitsWritten(d);
    DenotedIsSaturated(negative, ReadDigits(d));
    s := IntText(negative, ReadDigits(d));
  }

  lemma IntegerIsWritten(t: Text) returns (s: Syntax)
    requires IntegerPrefix(t).Some? && |t| <= 63
    ensures var r := IntegerPrefix(t).value;
            s.IntText? && Allowed(s) && Written(s) <= t && |Written(s)| == r.end
            && Denoted(s) == Number(Saturate(r.value))
  {
    hide *;
    var negative, d := PrefixParts(t);
    s := ReadInteger(negative, d);
  }

  lemma NumberIsWritten(c: Text, p: nat) returns (s: Syntax)
    requires NumberAt(c, p).Some?
    ensures var r := NumberAt(c, p).value; SyntaxAt(c, p, s, Parsed(Number(r.value), r.end))
  {
    hide NumberText, IntegerPrefix, Saturate, Allowed, Written, Denoted;
    var t := NumberText(c, p, 63);
    s := IntegerIsWritten(t);
    PrefixOccurs(c, p, t, Written(s));
  }

  lemma PrefixOccurs(c: Text, p: nat, t: Text, u: Text)
    requires u <= t && (t == [] || Occurs(c, p, t)) && u != []
    ensures Occurs(c, p, u)
  {
    assert c[p..p + |u|] == c[p..p + |t|][..|u|];
  }

  // --- values

  lemma KeywordIsWritten(c: Text, p: nat, depth: nat) returns (s: Syntax)
    requires p <= |c| && (Occurs(c, p, "null") || Occurs(c, p, "true") || Occurs(c, p, "false"))
    ensures ValueAt(c, p, depth).Some? && SyntaxAt(c, p, s, ValueAt(c, p, depth).value)
  {
    hide Occurs, StringLiteral, NumberAt, ArrayAt, ObjectAt;
    s := if Occurs(c, p, "null") then NullText else if Occurs(c, p, "false") then FalseText else TrueText;
  }

  lemma StringIsWritten(c: Text, p: nat) returns (s: Syntax)
    requires p <= |c| && StringLiteral(c, p).Some?
    ensures var r := StringLiteral(c, p).value; SyntaxAt(c, p, s, Parsed(Str(r.value), r.end))
  {
    hide StringLiteral, AllowedQuote, WrittenQuote, DenotedQuote, Occurs;
    var q := QuoteIsWritten(c, p);
    s := StringText(q);
  }

  // What `parse_value` does where no keyword stands.
  lemma ValueCases(c: Text, p: nat, depth: nat)
    requires p <= |c| && ValueAt(c, p, depth).Some?
    requires !Occurs(c, p, "null") && !Occurs(c, p, "true") && !Occurs(c, p, "false")
    ensures var r := ValueAt(c, p, depth).value;
            && p < |c|
            && (c[p] == '\"' ==>
                  && StringLiteral(c, p).Some?
                  && r == Parsed(Str(StringLiteral(c, p).value.value), StringLiteral(c, p).value.end))
            && (c[p] == '-' || IsDigit(c[p]) ==>
                  NumberAt(c, p).Some? && r == Parsed(Number(NumberAt(c, p).value.value), NumberAt(c, p).value.end))
            && (c[p] == '[' ==>
                  && ArrayAt(c, p, depth + 1).Some?
                  && r == Parsed(Array(ArrayAt(c, p, depth + 1).value.value), ArrayAt(c, p, depth + 1).value.end + 1))
            && (c[p] == '{' ==>
                  && ObjectAt(c, p, depth + 1).Some?
                  && r == Parsed(Object(ObjectAt(c, p, depth + 1).value.value),
                                 ObjectAt(c, p, depth + 1).value.end + 1))
            && (c[p] == '\"' || c[p] == '-' || IsDigit(c[p]) || c[p] == '[' || c[p] == '{')
  {
    hide Occurs, StringLiteral, NumberAt, ArrayAt, ObjectAt;
  }

  /** Where the parser finds a value, one of the grammar stands, and is what the parser has found. */
  lemma {:induction false} ValueIsWritten(c: Text, p: nat, depth: nat) returns (s: Syntax)
    requires p <= |c| && ValueAt(c, p, depth).Some?
    ensures SyntaxAt(c, p, s, ValueAt(c, p, depth).value)
    decreases |c| - p, 4
  {
    if Occurs(c, p, "null") || Occurs(c, p, "true") || Occurs(c, p, "false") {
      s := KeywordIsWritten(c, p, depth);
    } else {
      hide *;
      ValueCases(c, p, depth);
      if c[p] == '\"' {
        s := StringIsWritten(c, p);
      } else if c[p] == '[' {
        s := ArrayIsWritten(c, p, depth + 1);
      } else if c[p] == '{' {
        s := ObjectIsWritten(c, p, depth + 1);
      } else {
        s := NumberIsWritten(c, p);
      }
    }
  }

  // --- arrays

  ghost predicate ElementsAre(c: Text, p: nat, es: seq<Element>, r: Parsed<seq<Value>>) {
    && es != [] && AllowedElements(es) && Occurs(c, p, WrittenElements(es)) && r.end == p + |WrittenElements(es)|
    && DenotedElements(es) == r.value
  }

  ghost predicate ElementIs(c: Text, p: nat, e: Element, v: Value, end: nat) {
    && White(e.before) && Allowed(e.value) && White(e.behind) && Denoted(e.value) == v
    && Occurs(c, p, e.before + Written(e.value) + e.behind)
    && end == p + |e.before| + |Written(e.value)| + |e.behind|
  }

  lemma ElementJoins(c: Text, p: nat, s: Syntax, v: Parsed<Value>) returns (e: Element)
    requires p <= |c| && SyntaxAt(c, SkipSpace(c, p), s, v) && v.end <= |c|
    ensures ElementIs(c, p, e, v.value, SkipSpace(c, v.end))
  {
    hide SkipSpace, White, Occurs, Written, Allowed, Denoted;
    var q, f := SkipSpace(c, p), SkipSpace(c, v.end);
    var w, u := c[p..q], c[v.end..f];
    SkippedIsWhite(c, p);
    SkippedIsWhite(c, v.end);
    OccursJoin(c, p, w, Written(s));
    OccursJoin(c, p, w + Written(s), u);
    e := Element(w, s, u);
  }

  lemma LastElementIs(c: Text, p: nat, e: Element, v: Value, end: nat)
    requires ElementIs(c, p, e, v, end)
    ensures ElementsAre(c, p, [e], Parsed([v], end))
  {
    hide Occurs, Written, Denoted, Allowed, White;
    assert [e][1..] == [];
    assert DenotedElements([e]) == [Denoted(e.value)];
  }

  lemma MoreElementsAre(c: Text, p: nat, e: Element, v: Value, f: nat, es: seq<Element>, r: Parsed<seq<Value>>)
    requires ElementIs(c, p, e, v, f) && f < |c| && c[f] == ',' && ElementsAre(c, f + 1, es, r)
    ensures ElementsAre(c, p, [e] + es, Parsed([v] + r.value, r.end))
  {
    var all, first := [e] + es, e.before + Written(e.value) + e.behind;
    assert all[1..] == es && all[0] == e;
    assert WrittenElements(all) == first + "," + WrittenElements(es);
    assert DenotedElements(all) == [Denoted(e.value)] + DenotedElements(es);
    hide Occurs, Written, Denoted, Allowed, White, WrittenElements, DenotedElements;
    ByteOccurs(c, f, ',');
    OccursJoin(c, p, first, ",");
    OccursJoin(c, p, first + ",", WrittenElements(es));
  }

  // The parts of an element, and what follows it.
  lemma ElementCases(c: Text, p: nat, depth: nat) returns (v: Parsed<Value>, f: nat)
    requires p < |c| && ElementsAt(c, p, depth).Some?
    ensures p < v.end <= |c| && ValueAt(c, SkipSpace(c, p + 1), depth) == Some(v) && f == SkipSpace(c, v.end)
    ensures p < f < |c|
    ensures c[f] == ',' ==>
              var rest := ElementsAt(c, f, depth);
              rest.Some? && ElementsAt(c, p, depth) == Some(Parsed([v.value] + rest.value.value, rest.value.end))
    ensures c[f] != ',' ==> c[f] == ']' && ElementsAt(c, p, depth) == Some(Parsed([v.value], f))
  {
    hide ValueAt, SkipSpace;
    v := ValueAt(c, SkipSpace(c, p + 1), depth).value;
    f := SkipSpace(c, v.end);
  }

  lemma {:induction false} ElementsAreWritten(c: Text, p: nat, depth: nat) returns (es: seq<Element>)
    requires p < |c| && ElementsAt(c, p, depth).Some?
    ensures var r := ElementsAt(c, p, depth).value; ElementsAre(c, p + 1, es, r) && r.end < |c| && c[r.end] == ']'
    decreases |c| - p, 1
  {
    hide *;
    var v, f := ElementCases(c, p, depth);
    var s := ValueIsWritten(c, SkipSpace(c, p + 1), depth);
    var e := ElementJoins(c, p + 1, s, v);
    if c[f] == ',' {
      es := ElementsAreWritten(c, f, depth);
      MoreElementsAre(c, p + 1, e, v.value, f, es, ElementsAt(c, f, depth).value);
      es := [e] + es;
    } else {
      LastElementIs(c, p + 1, e, v.value, f);
      es := [e];
    }
  }

  /** With more white space in front. */
  function Spaced(w: Text, es: seq<Element>): seq<Element>
    requires es != []
  {
    [es[0].(before := w + es[0].before)] + es[1..]
  }

  lemma WrittenElement(e: Element, es: seq<Element>)
    ensures WrittenElements([e] + es)
         == e.before + Written(e.value) + e.behind + if es == [] then [] else "," + WrittenElements(es)
  {
    var all := [e] + es;
    assert all[0] == e && all[1..] == es;
    WrittenElementsIs(all);
    var u, r := e.behind, if es == [] then [] else "," + WrittenElements(es);
    assert ElementsBody(all) == Written(e.value) + u + r;
    hide *;
    Regroup3(e.before, Written(e.value), u, r);
  }

  lemma SpacedMeans(w: Text, es: seq<Element>)
    requires es != [] && AllowedElements(es) && White(w)
    ensures AllowedElements(Spaced(w, es)) && DenotedElements(Spaced(w, es)) == DenotedElements(es)
  {
    var all := Spaced(w, es);
    assert all[1..] == es[1..] && |all| == |es| && all[0].value == es[0].value;
    assert forall i :: 0 < i < |es| ==> all[i] == es[i];
    hide Denoted, Allowed;
  }

  lemma SpacedIs(w: Text, es: seq<Element>)
    requires es != []
    ensures WrittenElements(Spaced(w, es)) == w + WrittenElements(es)
  {
    var e, e' := es[0], Spaced(w, es)[0];
    assert [e] + es[1..] == es && [e'] + es[1..] == Spaced(w, es);
    WrittenElement(e, es[1..]);
    WrittenElement(e', es[1..]);
    var rest := if es[1..] == [] then [] else "," + WrittenElements(es[1..]);
    assert e'.before == w + e.before && e'.value == e.value && e'.behind == e.behind;
    hide *;
    Front3(w, e.before, Written(e.value), e.behind, rest);
  }

  lemma Front3(w: Text, x: Text, t: Text, u: Text, r: Text)
    ensures (w + x) + t + u + r == w + (x + t + u + r)
  {}

  lemma SpacedAre(c: Text, p: nat, w: Text, es: seq<Element>, r: Parsed<seq<Value>>)
    requires White(w) && Occurs(c, p, w) && ElementsAre(c, p + |w|, es, r)
    ensures es != [] && ElementsAre(c, p, Spaced(w, es), r)
  {
    SpacedIs(w, es);
    SpacedMeans(w, es);
    hide Occurs, AllowedElements, DenotedElements, WrittenElements, White;
    OccursJoin(c, p, w, WrittenElements(es));
  }

  lemma EmptyArrayMeans(space: Text)
    requires White(space)
    ensures var s := ArrayText(space, []); Allowed(s) && Denoted(s) == Array([]) && Written(s) == "[" + space + "]"
  {
    hide White;
  }

  lemma EmptyArrayIs(c: Text, p: nat, q: nat)
    requires p < q < |c| && c[p] == '[' && SkipSpace(c, p + 1) == q && c[q] == ']'
    ensures SyntaxAt(c, p, ArrayText(c[p + 1..q], []), Parsed(Array([]), q + 1))
  {
    SkippedIsWhite(c, p + 1);
    var space := c[p + 1..q];
    hide SkipSpace, Occurs, White, Allowed, Denoted, Written;
    EmptyArrayMeans(space);
    ByteOccurs(c, p, '[');
    OccursJoin(c, p, "[", space);
    ByteOccurs(c, q, ']');
    OccursJoin(c, p, "[" + space, "]");
  }

  lemma FullArrayMeans(es: seq<Element>)
    requires es != [] && AllowedElements(es)
    ensures var s := ArrayText([], es);
            Allowed(s) && Denoted(s) == Array(DenotedElements(es)) && Written(s) == "[" + WrittenElements(es) + "]"
  {
    hide AllowedElements, DenotedElements, WrittenElements;
  }

  lemma FullArrayIs(c: Text, p: nat, es: seq<Element>, r: Parsed<seq<Value>>)
    requires p < |c| && c[p] == '[' && ElementsAre(c, p + 1, es, r) && r.end < |c| && c[r.end] == ']'
    ensures SyntaxAt(c, p, ArrayText([], es), Parsed(Array(r.value), r.end + 1))
  {
    hide Occurs, AllowedElements, DenotedElements, WrittenElements, Allowed, Denoted, Written;
    FullArrayMeans(es);
    ByteOccurs(c, p, '[');
    ByteOccurs(c, r.end, ']');
    JoinAround(c, p, "[", WrittenElements(es), "]");
  }

  lemma ArrayCases(c: Text, p: nat, depth: nat) returns (q: nat)
    requires p < |c| && ArrayAt(c, p, depth).Some?
    ensures p < q < |c| && q == SkipSpace(c, p + 1)
    ensures c[q] == ']' ==> ArrayAt(c, p, depth) == Some(Parsed([], q))
    ensures c[q] != ']' ==> ArrayAt(c, p, depth) == ElementsAt(c, q - 1, depth)
  {
    hide SkipSpace, ElementsAt;
    q := SkipSpace(c, p + 1);
  }

  lemma {:induction false} ArrayIsWritten(c: Text, p: nat, depth: nat) returns (s: Syntax)
    requires p < |c| && c[p] == '[' && ArrayAt(c, p, depth).Some?
    ensures var r := ArrayAt(c, p, depth).value; SyntaxAt(c, p, s, Parsed(Array(r.value), r.end + 1))
    decreases |c| - p, 2
  {
    hide *;
    var q := ArrayCases(c, p, depth);
    var space := c[p + 1..q];
    if c[q] == ']' {
      EmptyArrayIs(c, p, q);
      s := ArrayText(space, []);
    } else {
      var r := ArrayAt(c, p, depth).value;
      var es := ElementsAreWritten(c, q - 1, depth);
      SkippedIsWhite(c, p + 1);
      SpacedAre(c, p + 1, space, es, r);
      FullArrayIs(c, p, Spaced(space, es), r);
      s := ArrayText([], Spaced(space, es));
    }
  }

  // --- objects

  ghost predicate EntriesAre(c: Text, p: nat, es: seq<Entry>, r: Parsed<seq<Keyed<Value>>>) {
    && es != [] && AllowedEntries(es) && Occurs(c, p, WrittenEntries(es)) && r.end == p + |WrittenEntries(es)|
    && DenotedEntries(es) == r.value
  }

  ghost predicate EntryIs(c: Text, p: nat, e: Entry, m: Keyed<Value>, end: nat) {
    && White(e.before) && AllowedQuote(e.key) && White(e.behindKey) && White(e.beforeValue) && Allowed(e.value)
    && White(e.behind) && Keyed(DenotedQuote(e.key), Denoted(e.value)) == m
    && Occurs(c, p, e.before + EntryBody(e) + e.behind) && end == p + |e.before| + |EntryBody(e)| + |e.behind|
  }

  // The parts of a member, as the parser goes through them.
  lemma MemberCases(c: Text, p: nat, depth: nat) returns (q: nat, k: ParsedString, colon: nat, x: nat, v: Parsed<Value>)
    requires p < |c| && MemberAt(c, p, depth).Some?
    ensures p < q <= |c| && q == SkipSpace(c, p + 1) && StringLiteral(c, q) == Some(k) && q < k.end <= |c|
    ensures colon == SkipSpace(c, k.end) < |c| && c[colon] == ':' && k.end <= colon
    ensures x == SkipSpace(c, colon + 1) <= |c| && colon < x && ValueAt(c, x, depth) == Some(v) && v.end <= |c|
    ensures MemberAt(c, p, depth) == Some(Parsed(Keyed(k.value, v.value), v.end))
  {
    hide StringLiteral, ValueAt;
    q := SkipSpace(c, p + 1);
    k := StringLiteral(c, q).value;
    colon := SkipSpace(c, k.end);
    x := SkipSpace(c, colon + 1);
    v := ValueAt(c, x, depth).value;
  }

  lemma JoinAround(c: Text, p: nat, w: Text, t: Text, u: Text)
    requires Occurs(c, p, w) && Occurs(c, p + |w|, t) && Occurs(c, p + |w| + |t|, u)
    ensures Occurs(c, p, w + t + u)
  {
    hide Occurs;
    OccursJoin(c, p, w, t);
    OccursJoin(c, p, w + t, u);
  }

  lemma EntryJoins(c: Text, p: nat, q: nat, k: ParsedString, colon: nat, x: nat, v: Parsed<Value>, key: Quote,
                   s: Syntax)
    returns (e: Entry)
    requires p <= q < k.end <= colon < x < v.end <= |c| && q == SkipSpace(c, p) && QuoteAt(c, q, key, k)
    requires colon == SkipSpace(c, k.end) < |c| && c[colon] == ':' && x == SkipSpace(c, colon + 1)
    requires SyntaxAt(c, x, s, v)
    ensures EntryIs(c, p, e, Keyed(k.value, v.value), SkipSpace(c, v.end))
  {
    hide SkipSpace, White, Occurs, Written, Allowed, Denoted, AllowedQuote, DenotedQuote, WrittenQuote, EntryBody;
    hide EntryIs;
    var f := SkipSpace(c, v.end);
    e := Entry(c[p..q], key, c[k.end..colon], c[colon + 1..x], s, c[v.end..f]);
    SkippedIsWhite(c, p);
    SkippedIsWhite(c, k.end);
    SkippedIsWhite(c, colon + 1);
    SkippedIsWhite(c, v.end);
    EntryBodyOccurs(c, q, e, colon, x);
    EntryIsMade(c, p, e, q, v.end, f);
  }

  lemma EntryIsMade(c: Text, p: nat, e: Entry, q: nat, x: nat, f: nat)
    requires White(e.before) && AllowedQuote(e.key) && White(e.behindKey) && White(e.beforeValue) && Allowed(e.value)
    requires White(e.behind) && Occurs(c, p, e.before) && q == p + |e.before| && Occurs(c, q, EntryBody(e))
    requires x == q + |EntryBody(e)| && Occurs(c, x, e.behind) && f == x + |e.behind|
    ensures EntryIs(c, p, e, Keyed(DenotedQuote(e.key), Denoted(e.value)), f)
  {
    hide White, Occurs, Allowed, Denoted, AllowedQuote, DenotedQuote, EntryBody;
    JoinAround(c, p, e.before, EntryBody(e), e.behind);
  }

  lemma EntryBodyOccurs(c: Text, q: nat, e: Entry, colon: nat, x: nat)
    requires q <= colon < x <= |c| && Occurs(c, q, WrittenQuote(e.key)) && c[colon] == ':'
    requires Occurs(c, q + |WrittenQuote(e.key)|, e.behindKey) && colon == q + |WrittenQuote(e.key)| + |e.behindKey|
    requires Occurs(c, colon + 1, e.beforeValue) && x == colon + 1 + |e.beforeValue|
    requires Occurs(c, x, Written(e.value))
    ensures Occurs(c, q, EntryBody(e)) && q + |EntryBody(e)| == x + |Written(e.value)|
  {
    var k, y, z, t := WrittenQuote(e.key), e.behindKey, e.beforeValue, Written(e.value);
    assert EntryBody(e) == k + y + ":" + z + t;
    hide *;
    OccursJoin(c, q, k, y);
    ByteOccurs(c, colon, ':');
    OccursJoin(c, q, k + y, ":");
    OccursJoin(c, q, k + y + ":", z);
    OccursJoin(c, q, k + y + ":" + z, t);
  }

  lemma WrittenEntry(e: Entry, es: seq<Entry>)
    ensures WrittenEntries([e] + es)
         == e.before + EntryBody(e) + e.behind + if es == [] then [] else "," + WrittenEntries(es)
  {
    var all := [e] + es;
    assert all[0] == e && all[1..] == es;
    WrittenEntriesIs(all);
    var u, r := e.behind, if es == [] then [] else "," + WrittenEntries(es);
    assert EntriesBody(all) == EntryBody(e) + u + r;
    hide *;
    Regroup3(e.before, EntryBody(e), u, r);
  }

  lemma Regroup3(w: Text, t: Text, u: Text, r: Text)
    ensures w + (t + u + r) == w + t + u + r
  {}

  lemma LastEntryIs(c: Text, p: nat, e: Entry, m: Keyed<Value>, end: nat)
    requires EntryIs(c, p, e, m, end)
    ensures EntriesAre(c, p, [e], Parsed([m], end))
  {
    hide Occurs, Written, Denoted, Allowed, White, WrittenQuote, AllowedQuote, DenotedQuote;
    assert [e][1..] == [] && [e] + [] == [e];
    assert DenotedEntries([e]) == [Keyed(DenotedQuote(e.key), Denoted(e.value))];
    WrittenEntry(e, []);
    hide EntryBody;
    var t := e.before + EntryBody(e) + e.behind;
    assert t + [] == t;
  }

  lemma JoinMore(c: Text, p: nat, t: Text, f: nat, rest: Text)
    requires Occurs(c, p, t) && f == p + |t| && f < |c| && c[f] == ',' && Occurs(c, f + 1, rest)
    ensures Occurs(c, p, t + ("," + rest))
  {
    hide Occurs;
    ByteOccurs(c, f, ',');
    OccursJoin(c, f, ",", rest);
    OccursJoin(c, p, t, "," + rest);
  }

  lemma MoreEntriesMean(e: Entry, m: Keyed<Value>, es: seq<Entry>)
    requires AllowedQuote(e.key) && Allowed(e.value) && Keyed(DenotedQuote(e.key), Denoted(e.value)) == m
    requires White(e.before) && White(e.behindKey) && White(e.beforeValue) && White(e.behind) && AllowedEntries(es)
    ensures AllowedEntries([e] + es) && DenotedEntries([e] + es) == [m] + DenotedEntries(es)
  {
    hide White, Allowed, AllowedQuote, Denoted, DenotedQuote;
    assert ([e] + es)[1..] == es;
  }

  lemma MoreEntriesAre(c: Text, p: nat, e: Entry, m: Keyed<Value>, f: nat, es: seq<Entry>, r: Parsed<seq<Keyed<Value>>>)
    requires EntryIs(c, p, e, m, f) && f < |c| && c[f] == ',' && EntriesAre(c, f + 1, es, r)
    ensures EntriesAre(c, p, [e] + es, Parsed([m] + r.value, r.end))
  {
    var t := e.before + EntryBody(e) + e.behind;
    hide White, Allowed, AllowedQuote, Denoted, DenotedQuote, AllowedEntries, DenotedEntries, Occurs, EntryBody;
    hide WrittenEntries;
    MoreEntriesMean(e, m, es);
    WrittenEntry(e, es);
    JoinMore(c, p, t, f, WrittenEntries(es));
  }

  lemma {:induction false} EntryIsWritten(c: Text, p: nat, depth: nat) returns (e: Entry)
    requires p < |c| && MemberAt(c, p, depth).Some?
    ensures var r := MemberAt(c, p, depth).value; r.end <= |c| && EntryIs(c, p + 1, e, r.value, SkipSpace(c, r.end))
    decreases |c| - p, 0
  {
    hide *;
    var q, k, colon, x, v := MemberCases(c, p, depth);
    var key := QuoteIsWritten(c, q);
    var s := ValueIsWritten(c, x, depth);
    e := EntryJoins(c, p + 1, q, k, colon, x, v, key, s);
  }

  // What follows a member.
  lemma EntryCases(c: Text, p: nat, depth: nat) returns (m: Parsed<Keyed<Value>>, f: nat)
    requires p < |c| && MembersAt(c, p, depth).Some?
    ensures p < m.end <= |c| && MemberAt(c, p, depth) == Some(m) && p < f == SkipSpace(c, m.end) < |c|
    ensures c[f] == ',' ==>
              var rest := MembersAt(c, f, depth);
              rest.Some? && MembersAt(c, p, depth) == Some(Parsed([m.value] + rest.value.value, rest.value.end))
    ensures c[f] != ',' ==> c[f] == '}' && MembersAt(c, p, depth) == Some(Parsed([m.value], f))
  {
    hide MemberAt, SkipSpace;
    m := MemberAt(c, p, depth).value;
    f := SkipSpace(c, m.end);
  }

  lemma {:induction false} EntriesAreWritten(c: Text, p: nat, depth: nat) returns (es: seq<Entry>)
    requires p < |c| && MembersAt(c, p, depth).Some?
    ensures var r := MembersAt(c, p, depth).value; EntriesAre(c, p + 1, es, r) && r.end < |c| && c[r.end] == '}'
    decreases |c| - p, 1
  {
    hide *;
    var m, f := EntryCases(c, p, depth);
    var e := EntryIsWritten(c, p, depth);
    if c[f] == ',' {
      es := EntriesAreWritten(c, f, depth);
      MoreEntriesAre(c, p + 1, e, m.value, f, es, MembersAt(c, f, depth).value);
      es := [e] + es;
    } else {
      LastEntryIs(c, p + 1, e, m.value, f);
      es := [e];
    }
  }

  /** With more white space in front. */
  function SpacedEntries(w: Text, es: seq<Entry>): seq<Entry>
    requires es != []
  {
    [es[0].(before := w + es[0].before)] + es[1..]
  }

  lemma SpacedEntriesMean(w: Text, es: seq<Entry>)
    requires es != [] && AllowedEntries(es) && White(w)
    ensures AllowedEntries(SpacedEntries(w, es)) && DenotedEntries(SpacedEntries(w, es)) == DenotedEntries(es)
  {
    var all := SpacedEntries(w, es);
    assert all[1..] == es[1..] && |all| == |es| && all[0].value == es[0].value && all[0].key == es[0].key;
    assert forall i :: 0 < i < |es| ==> all[i] == es[i];
    hide Denoted, Allowed, AllowedQuote, DenotedQuote;
  }

  lemma SpacedEntriesIs(w: Text, es: seq<Entry>)
    requires es != []
    ensures WrittenEntries(SpacedEntries(w, es)) == w + WrittenEntries(es)
  {
    var e, e' := es[0], SpacedEntries(w, es)[0];
    assert [e] + es[1..] == es && [e'] + es[1..] == SpacedEntries(w, es);
    WrittenEntry(e, es[1..]);
    WrittenEntry(e', es[1..]);
    var rest := if es[1..] == [] then [] else "," + WrittenEntries(es[1..]);
    assert e'.before == w + e.before && EntryBody(e') == EntryBody(e) && e'.behind == e.behind;
    hide *;
    Front3(w, e.before, EntryBody(e), e.behind, rest);
  }

  lemma SpacedEntriesAre(c: Text, p: nat, w: Text, es: seq<Entry>, r: Parsed<seq<Keyed<Value>>>)
    requires White(w) && Occurs(c, p, w) && EntriesAre(c, p + |w|, es, r)
    ensures es != [] && EntriesAre(c, p, SpacedEntries(w, es), r)
  {
    SpacedEntriesIs(w, es);
    SpacedEntriesMean(w, es);
    hide Occurs, AllowedEntries, DenotedEntries, WrittenEntries, White;
    OccursJoin(c, p, w, WrittenEntries(es));
  }

  lemma EmptyObjectMeans(space: Text)
    requires White(space)
    ensures var s := ObjectText(space, []); Allowed(s) && Denoted(s) == Object([]) && Written(s) == "{" + space + "}"
  {
    hide White;
  }

  lemma EmptyObjectIs(c: Text, p: nat, q: nat)
    requires p < q < |c| && c[p] == '{' && SkipSpace(c, p + 1) == q && c[q] == '}'
    ensures SyntaxAt(c, p, ObjectText(c[p + 1..q], []), Parsed(Object([]), q + 1))
  {
    SkippedIsWhite(c, p + 1);
    var space := c[p + 1..q];
    hide SkipSpace, Occurs, White, Allowed, Denoted, Written;
    EmptyObjectMeans(space);
    ByteOccurs(c, p, '{');
    OccursJoin(c, p, "{", space);
    ByteOccurs(c, q, '}');
    OccursJoin(c, p, "{" + space, "}");
  }

  lemma FullObjectMeans(es: seq<Entry>)
    requires es != [] && AllowedEntries(es)
    ensures var s := ObjectText([], es);
            Allowed(s) && Denoted(s) == Object(DenotedEntries(es)) && Written(s) == "{" + WrittenEntries(es) + "}"
  {
    hide AllowedEntries, DenotedEntries, WrittenEntries;
  }

  lemma FullObjectIs(c: Text, p: nat, es: seq<Entry>, r: Parsed<seq<Keyed<Value>>>)
    requires p < |c| && c[p] == '{' && EntriesAre(c, p + 1, es, r) && r.end < |c| && c[r.end] == '}'
    ensures SyntaxAt(c, p, ObjectText([], es), Parsed(Object(r.value), r.end + 1))
  {
    hide Occurs, AllowedEntries, DenotedEntries, WrittenEntries, Allowed, Denoted, Written;
    FullObjectMeans(es);
    ByteOccurs(c, p, '{');
    ByteOccurs(c, r.end, '}');
    JoinAround(c, p, "{", WrittenEntries(es), "}");
  }

  lemma ObjectCases(c: Text, p: nat, depth: nat) returns (q: nat)
    requires p < |c| && ObjectAt(c, p, depth).Some?
    ensures p < q < |c| && q == SkipSpace(c, p + 1)
    ensures c[q] == '}' ==> ObjectAt(c, p, depth) == Some(Parsed([], q))
    ensures c[q] != '}' ==> ObjectAt(c, p, depth) == MembersAt(c, q - 1, depth)
  {
    hide SkipSpace, MembersAt;
    q := SkipSpace(c, p + 1);
  }

  lemma {:induction false} ObjectIsWritten(c: Text, p: nat, depth: nat) returns (s: Syntax)
    requires p < |c| && c[p] == '{' && ObjectAt(c, p, depth).Some?
    ensures var r := ObjectAt(c, p, depth).value; SyntaxAt(c, p, s, Parsed(Object(r.value), r.end + 1))
    decreases |c| - p, 2
  {
    hide *;
    var q := ObjectCases(c, p, depth);
    var space := c[p + 1..q];
    if c[q] == '}' {
      EmptyObjectIs(c, p, q);
      s := ObjectText(space, []);
    } else {
      var r := ObjectAt(c, p, depth).value;
      var es := EntriesAreWritten(c, q - 1, depth);
      SkippedIsWhite(c, p + 1);
      SpacedEntriesAre(c, p + 1, space, es, r);
      FullObjectIs(c, p, SpacedEntries(space, es), r);
      s := ObjectText([], SpacedEntries(space, es));
    }
  }

  // ---------------------------------------------------------------------------------------------
  // What any value that is parsed can be
  // ---------------------------------------------------------------------------------------------

  lemma {:induction false} CStringHasNoNul(s: Text)
    ensures NulFree(CString(s))
  {
    if s != [] && s[0] != '\0' {
      CStringHasNoNul(s[1..]);
    }
  }

  lemma StringsHaveNoNul(c: Text, p: nat)
    requires p <= |c| && StringLiteral(c, p).Some?
    ensures NulFree(StringLiteral(c, p).value.value)
  {
    if p < |c| && c[p] == '\"' && StringEnd(c, p + 1).Some? {
      var e := StringEnd(c, p + 1).value;
      if Unescape(c, p + 1, e).Some? {
        CStringHasNoNul(Unescape(c, p + 1, e).value);
      }
    }
  }

  lemma {:induction false} ParsedFits(c: Text, p: nat, depth: nat)
    requires p <= |c| && depth <= NESTING_LIMIT && ValueAt(c, p, depth).Some?
    ensures Representable(ValueAt(c, p, depth).value.value)
    ensures depth + Nesting(ValueAt(c, p, depth).value.value) <= NESTING_LIMIT
    decreases |c| - p, 3
  {
    hide StringLiteral, NumberAt, ArrayAt, ObjectAt;
    if p < |c| && !Occurs(c, p, "null") && !Occurs(c, p, "false") && !Occurs(c, p, "true") {
      if c[p] == '\"' {
        StringsHaveNoNul(c, p);
      } else if c[p] == '-' || IsDigit(c[p]) {
        NumbersFit(c, p);
      } else if c[p] == '[' {
        ParsedItemsFit(c, p, depth + 1);
      } else if c[p] == '{' {
        ParsedMembersFit(c, p, depth + 1);
      }
    }
  }

  lemma NumbersFit(c: Text, p: nat)
    requires NumberAt(c, p).Some?
    ensures INT_MIN <= NumberAt(c, p).value.value <= INT_MAX
  {
    hide IntegerPrefix, NumberText;
  }

  lemma {:induction false} ParsedItemsFit(c: Text, p: nat, depth: nat)
    requires p < |c| && depth <= NESTING_LIMIT && ArrayAt(c, p, depth).Some?
    ensures Representable(Array(ArrayAt(c, p, depth).value.value))
    ensures depth + NestingOfItems(ArrayAt(c, p, depth).value.value) <= NESTING_LIMIT
    decreases |c| - p, 2
  {
    hide ElementsAt;
    var q := SkipSpace(c, p + 1);
    if q < |c| && c[q] != ']' {
      ElementsFit(c, q - 1, depth);
    }
  }

  lemma {:induction false} ElementsFit(c: Text, p: nat, depth: nat)
    requires p < |c| && depth <= NESTING_LIMIT && ElementsAt(c, p, depth).Some?
    ensures Representable(Array(ElementsAt(c, p, depth).value.value))
    ensures depth + NestingOfItems(ElementsAt(c, p, depth).value.value) <= NESTING_LIMIT
    decreases |c| - p, 1
  {
    hide ValueAt, SkipSpace, Representable, Nesting;
    ParsedFits(c, SkipSpace(c, p + 1), depth);
    var v := ValueAt(c, SkipSpace(c, p + 1), depth).value;
    var q := SkipSpace(c, v.end);
    if q < |c| && c[q] == ',' {
      ElementsFit(c, q, depth);
      OneMoreItem(v.value, ElementsAt(c, q, depth).value.value);
    } else {
      OneMoreItem(v.value, []);
      assert [v.value] + [] == [v.value];
    }
  }

  lemma OneMoreItem(v: Value, rest: seq<Value>)
    requires Representable(v)
    ensures Representable(Array(rest)) ==> Representable(Array([v] + rest))
    ensures Representable(Array([])) && NestingOfItems([]) == 0
    ensures NestingOfItems([v] + rest) == Max(Nesting(v), NestingOfItems(rest))
  {
    assert ([v] + rest)[1..] == rest;
  }

  lemma {:induction false} ParsedMembersFit(c: Text, p: nat, depth: nat)
    requires p < |c| && depth <= NESTING_LIMIT && ObjectAt(c, p, depth).Some?
    ensures Representable(Object(ObjectAt(c, p, depth).value.value))
    ensures depth + NestingOfMembers(ObjectAt(c, p, depth).value.value) <= NESTING_LIMIT
    decreases |c| - p, 2
  {
    hide MembersAt;
    var q := SkipSpace(c, p + 1);
    if q < |c| && c[q] != '}' {
      MembersFit(c, q - 1, depth);
    }
  }

  lemma {:induction false} MemberFits(c: Text, p: nat, depth: nat)
    requires p < |c| && depth <= NESTING_LIMIT && MemberAt(c, p, depth).Some?
    ensures var m := MemberAt(c, p, depth).value.value;
            NulFree(m.key) && Representable(m.value) && depth + Nesting(m.value) <= NESTING_LIMIT
    decreases |c| - p, 0
  {
    hide ValueAt, SkipSpace, StringLiteral, Representable, Nesting, NulFree;
    var k := StringLiteral(c, SkipSpace(c, p + 1)).value;
    StringsHaveNoNul(c, SkipSpace(c, p + 1));
    ParsedFits(c, SkipSpace(c, SkipSpace(c, k.end) + 1), depth);
  }

  lemma {:induction false} MembersFit(c: Text, p: nat, depth: nat)
    requires p < |c| && depth <= NESTING_LIMIT && MembersAt(c, p, depth).Some?
    ensures Representable(Object(MembersAt(c, p, depth).value.value))
    ensures depth + NestingOfMembers(MembersAt(c, p, depth).value.value) <= NESTING_LIMIT
    decreases |c| - p, 1
  {
    hide MemberAt, SkipSpace, Representable, Nesting, NulFree;
    MemberFits(c, p, depth);
    var m := MemberAt(c, p, depth).value;
    var q := SkipSpace(c, m.end);
    if q < |c| && c[q] == ',' {
      MembersFit(c, q, depth);
      OneMoreMember(m.value, MembersAt(c, q, depth).value.value);
    } else {
      OneMoreMember(m.value, []);
      assert [m.value] + [] == [m.value];
    }
  }

  lemma OneMoreMember(m: Keyed<Value>, rest: seq<Keyed<Value>>)
    requires NulFree(m.key) && Representable(m.value)
    ensures Representable(Object(rest)) ==> Representable(Object([m] + rest))
    ensures Representable(Object([])) && NestingOfMembers([]) == 0
    ensures NestingOfMembers([m] + rest) == Max(Nesting(m.value), NestingOfMembers(rest))
  {
    assert ([m] + rest)[1..] == rest;
  }

  // ---------------------------------------------------------------------------------------------
  // Whole texts
  // ---------------------------------------------------------------------------------------------

  lemma MarkIsSkipped(mark: bool, rest: Text)
    requires |rest| > 1 && rest[0] as int < 0x80
    ensures BomEnd(Mark(mark) + rest) == |Mark(mark)| && Occurs(Mark(mark) + rest, |Mark(mark)|, rest)
  {
    var c := Mark(mark) + rest;
    assert c[|Mark(mark)|..] == rest;
    if !mark {
      assert c == rest;
    }
  }

  lemma RestStarts(before: Text, s: Syntax, behind: Text)
    requires White(before) && Allowed(s)
    ensures var rest := before + (Written(s) + (behind + "\0")); |rest| > 1 && rest[0] as int < 0x80
    ensures Written(s) != [] && Written(s)[0] as int > 0x20
  {
    hide Written, Allowed;
    StartsVisibly(s);
    var rest := before + (Written(s) + (behind + "\0"));
    assert rest[0] == if before == [] then Written(s)[0] else before[0];
  }

  lemma {:induction false} SpacesToTheEnd(c: Text, p: nat)
    requires p <= |c| && forall k :: p <= k < |c| ==> c[k] as int <= 0x20
    ensures SpaceEnd(c, p) == |c|
    decreases |c| - p
  {
    if p < |c| {
      SpacesToTheEnd(c, p + 1);
    }
  }

  lemma BehindIsSkipped(c: Text, e: nat, behind: Text)
    requires White(behind) && Occurs(c, e, behind + "\0") && |c| == e + |behind| + 1
    ensures SkipSpace(c, e) == |c| - 1 && c[|c| - 1] == '\0' && Delimits(c, e)
  {
    ByteAt(c, e, behind + "\0");
    forall k | e <= k < |c| ensures c[k] as int <= 0x20 {
      assert c[e + (k - e)] == (behind + "\0")[k - e];
    }
    SpacesToTheEnd(c, e);
    assert c[e + |behind|] == '\0';
    assert c[e + 0] as int <= 0x20;
  }

  lemma TextPieces(c: Text, text: Text, mark: bool, before: Text, s: Syntax, behind: Text) returns (q: nat, end: nat)
    requires c == text + "\0" && IsText(text, mark, before, s, behind)
    ensures Allowed(s) && 0 + Nesting(Denoted(s)) <= NESTING_LIMIT
    ensures BomEnd(c) <= q < end <= |text| < |c| && SkipSpace(c, BomEnd(c)) == q && Occurs(c, q, Written(s))
    ensures end == q + |Written(s)| == |text| - |behind| && Delimits(c, end) && SkipSpace(c, end) == |text|
  {
    var m, w := |Mark(mark)|, Written(s);
    var rest := before + (w + (behind + "\0"));
    hide Allowed, Written, Denoted, Nesting, Mark, White, Occurs, SkipSpace, BomEnd, Delimits;
    RestStarts(before, s, behind);
    assert c == Mark(mark) + rest;
    MarkIsSkipped(mark, rest);
    SkipRun(c, m, before, w + (behind + "\0"));
    q, end := m + |before|, m + |before| + |w|;
    OccursSplit(c, q, w, behind + "\0");
    BehindIsSkipped(c, end, behind);
  }

  lemma WholeText(c: Text, text: Text, q: nat, v: Parsed<Value>, require_null_terminated: bool)
    requires c == text + "\0" && q <= |c| && SkipSpace(c, BomEnd(c)) == q && ValueAt(c, q, 0) == Some(v)
    requires v.end <= |text| && SkipSpace(c, v.end) == |text|
    ensures ParseCString(text, require_null_terminated)
         == Some(Parsed(v.value, if require_null_terminated then |text| else v.end))
  {
    hide ValueAt, SkipSpace, BomEnd;
  }

  /** Every text of the grammar is parsed to the value it denotes, up to its end or, where no terminator is asked for,
      up to the end of the value. */
  lemma TextIsParsed(text: Text, mark: bool, before: Text, s: Syntax, behind: Text, require_null_terminated: bool)
    requires IsText(text, mark, before, s, behind)
    ensures ParseCString(text, require_null_terminated)
         == Some(Parsed(Denoted(s), if require_null_terminated then |text| else |text| - |behind|))
  {
    TextOfBufferIsParsed(text + "\0", text, mark, before, s, behind, require_null_terminated);
  }

  lemma TextOfBufferIsParsed(c: Text, text: Text, mark: bool, before: Text, s: Syntax, behind: Text,
                             require_null_terminated: bool)
    requires c == text + "\0" && IsText(text, mark, before, s, behind)
    ensures ParseCString(text, require_null_terminated)
         == Some(Parsed(Denoted(s), if require_null_terminated then |text| else |text| - |behind|))
  {
    hide *;
    var q, end := TextPieces(c, text, mark, before, s, behind);
    SyntaxIsParsed(c, q, s, 0, end);
    WholeText(c, text, q, Parsed(Denoted(s), end), require_null_terminated);
  }

  lemma StrictIsText(before: Text, s: Syntax, behind: Text)
    requires StrictWhite(before) && Allowed(s) && StrictWhite(behind) && Nesting(Denoted(s)) <= 1000
    ensures IsText(before + Written(s) + behind, false, before, s, behind)
  {
    hide Allowed, Written, Denoted, Nesting;
    assert Mark(false) + before == before;
  }

  /** Documents of RFC 8259 with C ints, nested at most 1000 levels deep, with any of its white space around any
      token. */
  lemma DocumentIsParsed(before: Text, s: Syntax, behind: Text, require_null_terminated: bool)
    requires StrictWhite(before) && Strict(s) && StrictWhite(behind)
    requires (StrictIsAllowed(s); Nesting(Denoted(s)) <= 1000)
    ensures Allowed(s)
    ensures var text := before + Written(s) + behind;
            ParseCString(text, require_null_terminated)
            == Some(Parsed(Denoted(s), if require_null_terminated then |text| else |text| - |behind|))
  {
    hide *;
    StrictIsAllowed(s);
    StrictIsText(before, s, behind);
    TextIsParsed(before + Written(s) + behind, false, before, s, behind, require_null_terminated);
  }

  lemma MarkOccurs(c: Text) returns (mark: bool)
    ensures BomEnd(c) == |Mark(mark)| && c[..BomEnd(c)] == Mark(mark)
  {
    mark := BomEnd(c) != 0;
  }

  lemma LastByteIsTerminator(text: Text, e: nat)
    requires var c := text + "\0"; e <= |c| && SkipSpace(c, e) < |c| && c[SkipSpace(c, e)] == '\0'
    ensures SkipSpace(text + "\0", e) == |text| && e <= |text|
  {}

  /** Whatever is accepted as a whole is such a text. */
  lemma ParsedIsText(text: Text) returns (mark: bool, before: Text, s: Syntax, behind: Text)
    requires ParseCString(text, true).Some?
    ensures IsText(text, mark, before, s, behind)
    ensures ParseCString(text, true) == Some(Parsed(Denoted(s), |text|))
  {
    var c := text + "\0";
    hide ValueAt, SkipSpace, SpaceEnd, BomEnd, Written, Allowed, Denoted, Nesting, Representable, White, Mark, Occurs;
    mark := MarkOccurs(c);
    var b := BomEnd(c);
    var q := SkipSpace(c, b);
    var v := ValueAt(c, q, 0).value;
    LastByteIsTerminator(text, v.end);
    s := ValueIsWritten(c, q, 0);
    ParsedFits(c, q, 0);
    before, behind := c[b..q], c[v.end..SkipSpace(c, v.end)];
    SkippedIsWhite(c, b);
    SkippedIsWhite(c, v.end);
    SplitText(text, b, q, v.end, Written(s));
  }

  lemma SplitText(text: Text, b: nat, q: nat, e: nat, w: Text)
    requires var c := text + "\0"; b <= q <= e <= |text| && Occurs(c, q, w) && e == q + |w|
    ensures var c := text + "\0"; text == c[..b] + c[b..q] + w + c[e..|text|]
  {
    var c := text + "\0";
    assert text == c[..|text|] == c[..b] + c[b..q] + c[q..e] + c[e..|text|];
  }

  ghost predicate Spells(text: Text, v: Value) {
    exists mark: bool, before: Text, s: Syntax, behind: Text ::
      IsText(text, mark, before, s, behind) && Denoted(s) == v
  }

  /** Parsing with the check for a terminator accepts exactly the texts of the grammar. */
  lemma AcceptedExactly(text: Text, v: Value)
    ensures ParseCString(text, true) == Some(Parsed(v, |text|)) <==> Spells(text, v)
    ensures ParseCString(text, true).Some? ==> ParseCString(text, true).value.end == |text|
  {
    hide ParseCString, Denoted, Allowed, White, Written, Nesting, Mark;
    if ParseCString(text, true).Some? {
      var mark, before, s, behind := ParsedIsText(text);
    }
    if mark: bool, before: Text, s: Syntax, behind: Text :|
        IsText(text, mark, before, s, behind) && Denoted(s) == v {
      TextIsParsed(text, mark, before, s, behind, true);
    }
  }
}
