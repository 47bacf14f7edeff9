/** The texts that cJSON accepts as documents, as a grammar apart from the parser, and that the parser accepts exactly
    these, with the value each of them denotes. Documents of RFC 8259 with C integers are among them. */
module JsonGrammar {
  import opened Bytes
  import opened Json
  import opened JsonStrings
  import opened JsonParser

  // ---------------------------------------------------------------------------------------------
  // The grammar
  // ---------------------------------------------------------------------------------------------

  /** A string literal: well-formed pieces, or a text with ill-formed `\\u` escapes that `parse_string` takes whole. */
  datatype Quote = Pieces(pieces: seq<Piece>) | Odd(text: Text)

  type Digit = d: nat | d < 10

  /** A value as it is written, with the white space around its tokens. An array or object has `space` inside if it has
      nothing else. */
  datatype Syntax =
    | NullText
    | TrueText
    | FalseText
    | IntText(negative: bool, digits: seq<Digit>)
    | StringText(literal: Quote)
    | ArrayText(space: Text, elements: seq<Element>)
    | ObjectText(space: Text, entries: seq<Entry>)

  datatype Element = Element(before: Text, value: Syntax, behind: Text)

  datatype Entry =
    Entry(before: Text, key: Quote, behindKey: Text, beforeValue: Text, value: Syntax, behind: Text)

  function WrittenQuote(q: Quote): Text {
    match q
    case Pieces(ps) => "\"" + RenderAll(ps) + "\""
    case Odd(t) => t
  }

  function WrittenDigits(ds: seq<Digit>): (t: Text)
    ensures |t| == |ds|
  {
    seq(|ds|, i requires 0 <= i < |ds| => (ds[i] as int + 0x30) as char)
  }

  function Written(s: Syntax): Text
    decreases s
  {
    match s
    case NullText => "null"
    case TrueText => "true"
    case FalseText => "false"
    case IntText(negative, ds) => (if negative then "-" else "") + WrittenDigits(ds)
    case StringText(q) => WrittenQuote(q)
    case ArrayText(space, es) => if es == [] then "[" + space + "]" else "[" + WrittenElements(es) + "]"
    case ObjectText(space, es) => if es == [] then "{" + space + "}" else "{" + WrittenEntries(es) + "}"
  }

  function WrittenElements(es: seq<Element>): Text
    requires es != []
    decreases es
  {
    var first := es[0].before + Written(es[0].value) + es[0].behind;
    if |es| == 1 then first else first + "," + WrittenElements(es[1..])
  }

  function WrittenEntries(es: seq<Entry>): Text
    requires es != []
    decreases es
  {
    var e := es[0];
    var first := e.before + WrittenQuote(e.key) + e.behindKey + ":" + e.beforeValue + Written(e.value) + e.behind;
    if |es| == 1 then first else first + "," + WrittenEntries(es[1..])
  }

  /** White space for cJSON: all control characters count. */
  predicate White(w: Text) {
    forall i :: 0 <= i < |w| ==> w[i] as int <= 0x20
  }

  ghost predicate AllowedQuote(q: Quote) {
    match q
    case Pieces(ps) => forall k :: 0 <= k < |ps| ==> WellFormed(ps[k])
    case Odd(t) =>
      && (exists i: nat :: IllFormedAt(t, i))
      && StringLiteral(t, 0).Some? && StringLiteral(t, 0).value.end == |t|
  }

  /** A `\\u` without four hexadecimal digits behind it. */
  predicate IllFormedAt(t: Text, i: nat) {
    i + 6 <= |t| && t[i] == '\\' && t[i + 1] == 'u' && !AllHex(t[i + 2..i + 6])
  }

  ghost predicate Allowed(s: Syntax)
    decreases s
  {
    match s
    case IntText(negative, ds) =>
      1 <= |ds| && (if negative then 1 else 0) + |ds| <= 63
    case StringText(q) => AllowedQuote(q)
    case ArrayText(space, es) => White(space) && AllowedElements(es)
    case ObjectText(space, es) => White(space) && AllowedEntries(es)
    case _ => true
  }

  ghost predicate AllowedElements(es: seq<Element>)
    decreases es
  {
    forall i :: 0 <= i < |es| ==> White(es[i].before) && Allowed(es[i].value) && White(es[i].behind)
  }

  ghost predicate AllowedEntries(es: seq<Entry>)
    decreases es
  {
    forall i :: 0 <= i < |es| ==>
      && White(es[i].before) && AllowedQuote(es[i].key) && White(es[i].behindKey)
      && White(es[i].beforeValue) && Allowed(es[i].value) && White(es[i].behind)
  }

  ghost function DenotedQuote(q: Quote): Text
    requires AllowedQuote(q)
  {
    match q
    case Pieces(ps) => CString(DenoteAll(ps))
    case Odd(t) => StringLiteral(t, 0).value.value
  }

  function DenotedDigits(ds: seq<Digit>): nat {
    if ds == [] then 0 else 10 * DenotedDigits(ds[..|ds| - 1]) + ds[|ds| - 1]
  }

  /** Integers beyond a C int are taken for its last one. */
  function DenotedInt(negative: bool, ds: seq<Digit>): int {
    var n: int := DenotedDigits(ds);
    if negative then (if n > 2147483648 then -2147483648 else -n) else (if n > 2147483647 then 2147483647 else n)
  }

  ghost function Denoted(s: Syntax): Value
    requires Allowed(s)
    decreases s
  {
    match s
    case NullText => Null
    case TrueText => Bool(true)
    case FalseText => Bool(false)
    case IntText(negative, ds) => Number(DenotedInt(negative, ds))
    case StringText(q) => Str(DenotedQuote(q))
    case ArrayText(_, es) => Array(DenotedElements(es))
    case ObjectText(_, es) => Object(DenotedEntries(es))
  }

  ghost function DenotedElements(es: seq<Element>): (vs: seq<Value>)
    requires AllowedElements(es)
    ensures |vs| == |es|
    decreases es
  {
    if es == [] then [] else [Denoted(es[0].value)] + DenotedElements(es[1..])
  }

  ghost function DenotedEntries(es: seq<Entry>): (ms: seq<Keyed<Value>>)
    requires AllowedEntries(es)
    ensures |ms| == |es|
    decreases es
  {
    if es == [] then [] else [Keyed(DenotedQuote(es[0].key), Denoted(es[0].value))] + DenotedEntries(es[1..])
  }

  /** A whole text: perhaps a byte order mark, and white space around a value of at most 1000 levels. */
  ghost predicate IsText(text: Text, mark: bool, before: Text, s: Syntax, behind: Text) {
    && White(before) && Allowed(s) && White(behind) && Nesting(Denoted(s)) <= 1000
    && text == Mark(mark) + before + Written(s) + behind
  }

  function Mark(mark: bool): Text {
    if mark then [0xEF as char, 0xBB as char, 0xBF as char] else []
  }

  // ---------------------------------------------------------------------------------------------
  // RFC 8259
  // ---------------------------------------------------------------------------------------------

  /** White space of section 2: blank, tab, line feed and carriage return. */
  predicate StrictWhite(w: Text) {
    forall i :: 0 <= i < |w| ==> w[i] as int in {0x20, 0x09, 0x0A, 0x0D}
  }

  /** Literals of section 7, in which control characters are escaped and surrogates come in pairs. */
  ghost predicate StrictQuote(q: Quote) {
    q.Pieces? && forall k :: 0 <= k < |q.pieces| ==> WellFormed(q.pieces[k]) && StrictPiece(q.pieces[k])
  }

  predicate StrictPiece(p: Piece) {
    p.Plain? ==> p.b as int >= 0x20
  }

  /** Values of sections 3 to 7, with C ints for numbers. */
  ghost predicate Strict(s: Syntax)
    decreases s
  {
    match s
    case IntText(negative, ds) =>
      && 1 <= |ds| && (|ds| > 1 ==> ds[0] != 0)
      && (if negative then DenotedDigits(ds) <= 2147483648 else DenotedDigits(ds) <= 2147483647)
    case StringText(q) => StrictQuote(q)
    case ArrayText(space, es) =>
      && StrictWhite(space)
      && forall i :: 0 <= i < |es| ==> StrictWhite(es[i].before) && Strict(es[i].value) && StrictWhite(es[i].behind)
    case ObjectText(space, es) =>
      && StrictWhite(space)
      && forall i :: 0 <= i < |es| ==>
           && StrictWhite(es[i].before) && StrictQuote(es[i].key) && StrictWhite(es[i].behindKey)
           && StrictWhite(es[i].beforeValue) && Strict(es[i].value) && StrictWhite(es[i].behind)
    case _ => true
  }

  lemma {:induction false} LeadingDigit(ds: seq<Digit>)
    requires ds != [] && ds[0] != 0
    ensures DenotedDigits(ds) >= Pow10(|ds| - 1)
    decreases |ds|
  {
    if |ds| > 1 {
      LeadingDigit(ds[..|ds| - 1]);
    }
  }

  lemma {:induction false} Pow10Grows(k: nat)
    requires k >= 10
    ensures Pow10(k) >= 10000000000
  {
    if k == 10 {
      assert Pow10(5) == 100000;
    } else {
      Pow10Grows(k - 1);
    }
  }

  /** What RFC 8259 allows is in the grammar. */
  lemma {:induction false} StrictIsAllowed(s: Syntax)
    requires Strict(s)
    ensures Allowed(s)
    decreases s
  {
    match s {
      case IntText(negative, ds) =>
        if |ds| > 10 {
          LeadingDigit(ds);
          Pow10Grows(|ds| - 1);
        }
      case ArrayText(_, es) =>
        forall i | 0 <= i < |es| ensures Allowed(es[i].value) {
          StrictIsAllowed(es[i].value);
        }
      case ObjectText(_, es) =>
        forall i | 0 <= i < |es| ensures Allowed(es[i].value) {
          StrictIsAllowed(es[i].value);
        }
      case _ =>
    }
  }

  // ---------------------------------------------------------------------------------------------
  // Texts of the grammar are accepted
  // ---------------------------------------------------------------------------------------------

  /** A character that ends a number behind it. */
  predicate Delimits(c: Text, p: nat) {
    p < |c| && !IsNumberChar(c[p])
  }

  lemma FirstOf(c: Text, p: nat, t: Text)
    requires Occurs(c, p, t) && t != []
    ensures p < |c| && c[p] == t[0]
  {
    assert c[p] == c[p..p + |t|][0];
  }

  lemma {:induction false} SpaceEndRun(c: Text, p: nat, w: Text)
    requires White(w) && Occurs(c, p, w) && p + |w| < |c| && !IsSpace(c[p + |w|])
    ensures SpaceEnd(c, p) == p + |w|
    decreases |w|
  {
    if w != [] {
      assert c[p] == c[p..p + |w|][0];
      assert c[p + 1..p + 1 + |w[1..]|] == c[p..p + |w|][1..];
      SpaceEndRun(c, p + 1, w[1..]);
    }
  }

  /** A comma, a colon, or the end of an array or object. */
  predicate Divides(b: byte) {
    b == ',' || b == ':' || b == ']' || b == '}'
  }

  /** White space in front of a visible text is skipped exactly. */
  lemma SkipRun(c: Text, p: nat, w: Text, t: Text)
    requires White(w) && Occurs(c, p, w + t) && t != [] && t[0] as int > 0x20
    ensures p + |w| < |c| && SkipSpace(c, p) == p + |w| && c[p + |w|] == t[0] && Occurs(c, p + |w|, t)
    ensures Divides(t[0]) || w != [] ==> Delimits(c, p)
  {
    hide Occurs, SpaceEnd;
    OccursSplit(c, p, w, t);
    FirstOf(c, p + |w|, t);
    FirstOf(c, p, w + t);
    SpaceEndRun(c, p, w);
  }

  // --- numbers

  lemma {:induction false} NumberTextOccurs(c: Text, p: nat, t: Text, limit: nat)
    requires Occurs(c, p, t) && Delimits(c, p + |t|) && |t| <= limit
    requires forall i :: 0 <= i < |t| ==> IsNumberChar(t[i])
    ensures NumberText(c, p, limit) == t
    decreases |t|
  {
    if t != [] {
      assert c[p] == c[p..p + |t|][0];
      assert c[p + 1..p + 1 + |t[1..]|] == c[p..p + |t|][1..];
      NumberTextOccurs(c, p + 1, t[1..], limit - 1);
    }
  }

  lemma {:induction false} DigitCountAll(t: Text)
    requires AllDigits(t)
    ensures DigitCount(t) == |t|
  {
    if t != [] {
      DigitCountAll(t[1..]);
    }
  }

  lemma {:induction false} DigitsMean(ds: seq<Digit>)
    ensures AllDigits(WrittenDigits(ds)) && DigitsValue(WrittenDigits(ds)) == DenotedDigits(ds)
    decreases |ds|
  {
    if ds != [] {
      var front := ds[..|ds| - 1];
      DigitsMean(front);
      assert WrittenDigits(ds)[..|ds| - 1] == WrittenDigits(front);
    }
  }

  lemma SignedPrefix(t: Text, negative: bool, d: Text)
    requires AllDigits(d) && d != [] && t != []
    requires t[if negative then 1 else 0..] == d && (t[0] == '-' <==> negative)
    ensures IntegerPrefix(t) == Some(Parsed(if negative then -(DigitsValue(d) as int) else DigitsValue(d), |t|))
  {
    DigitCountAll(d);
    hide DigitCount, DigitsValue;
    assert d[..|d|] == d;
  }

  lemma SignedChars(negative: bool, d: Text)
    requires AllDigits(d) && d != []
    ensures var t := (if negative then "-" else "") + d;
            && t != [] && t[if negative then 1 else 0..] == d && (t[0] == '-' <==> negative)
            && (t[0] == '-' || IsDigit(t[0])) && forall i :: 0 <= i < |t| ==> IsNumberChar(t[i])
  {
    var t := (if negative then "-" else "") + d;
    forall i | 0 <= i < |t| ensures IsNumberChar(t[i]) {
      assert (negative && i == 0) || t[i] == d[if negative then i - 1 else i];
    }
  }

  lemma IntPrefix(negative: bool, ds: seq<Digit>)
    requires ds != []
    ensures var t, n: int := Written(IntText(negative, ds)), DenotedDigits(ds);
            && IntegerPrefix(t) == Some(Parsed(if negative then -n else n, |t|))
            && (t[0] == '-' || IsDigit(t[0])) && forall i :: 0 <= i < |t| ==> IsNumberChar(t[i])
  {
    var t, d := Written(IntText(negative, ds)), WrittenDigits(ds);
    assert t == (if negative then "-" else "") + d;
    hide *;
    DigitsMean(ds);
    SignedChars(negative, d);
    SignedPrefix(t, negative, d);
  }

  lemma DenotedIsSaturated(negative: bool, ds: seq<Digit>)
    ensures var n: int := DenotedDigits(ds); Saturate(if negative then -n else n) == DenotedInt(negative, ds)
  {
    hide DenotedDigits;
  }

  lemma NumberIs(c: Text, p: nat, t: Text, n: int)
    requires NumberText(c, p, 63) == t && IntegerPrefix(t) == Some(Parsed(n, |t|))
    ensures NumberAt(c, p) == Some(Parsed(Saturate(n), p + |t|))
  {
    hide NumberText, IntegerPrefix, Saturate;
  }

  lemma NumberTextIs(c: Text, p: nat, t: Text, n: int)
    requires t != [] && |t| <= 63 && Occurs(c, p, t) && Delimits(c, p + |t|)
    requires forall i :: 0 <= i < |t| ==> IsNumberChar(t[i])
    requires IntegerPrefix(t) == Some(Parsed(n, |t|))
    ensures NumberAt(c, p) == Some(Parsed(Saturate(n), p + |t|)) && p < |c| && c[p] == t[0]
  {
    hide NumberText, IntegerPrefix, Occurs, IsNumberChar, Delimits, NumberAt, Saturate;
    FirstOf(c, p, t);
    NumberTextOccurs(c, p, t, 63);
    NumberIs(c, p, t, n);
  }

  lemma NumberIsParsed(c: Text, p: nat, negative: bool, ds: seq<Digit>)
    requires var s := IntText(negative, ds);
             Allowed(s) && Occurs(c, p, Written(s)) && Delimits(c, p + |Written(s)|)
    ensures var s := IntText(negative, ds);
            && NumberAt(c, p) == Some(Parsed(DenotedInt(negative, ds), p + |Written(s)|))
            && p < |c| && (c[p] == '-' || IsDigit(c[p]))
  {
    hide NumberAt, IntegerPrefix, Occurs, IsNumberChar, Delimits, Saturate, DenotedInt, DenotedDigits, IsDigit;
    var n: int := DenotedDigits(ds);
    IntPrefix(negative, ds);
    DenotedIsSaturated(negative, ds);
    NumberTextIs(c, p, Written(IntText(negative, ds)), if negative then -n else n);
  }

  // --- strings

  /** A literal does not depend on what stands around it. */
  lemma {:induction false} StringEndShifted(c: Text, p: nat, t: Text, i: nat)
    requires Occurs(c, p, t) && StringEnd(t, i).Some?
    ensures StringEnd(c, p + i) == Some(p + StringEnd(t, i).value)
    decreases |t| - i
  {
    assert forall k :: 0 <= k < |t| ==> c[p + k] == t[k] by {
      ByteAt(c, p, t);
    }
    if t[i] == '\\' {
      StringEndShifted(c, p, t, i + 2);
    } else if t[i] != '\"' {
      StringEndShifted(c, p, t, i + 1);
    }
  }

  lemma ByteAt(c: Text, p: nat, t: Text)
    requires Occurs(c, p, t)
    ensures forall k :: 0 <= k < |t| ==> c[p + k] == t[k]
  {
    forall k | 0 <= k < |t| ensures c[p + k] == t[k] {
      assert c[p + k] == c[p..p + |t|][k];
    }
  }

  lemma Utf16Shifted(c: Text, p: nat, t: Text, i: nat, e: nat)
    requires Occurs(c, p, t) && i <= e < |t|
    ensures Utf16Literal(c, p + i, p + e) == Utf16Literal(t, i, e)
  {
    hide ParseHex4, EncodeBits, PairBits;
    ByteAt(c, p, t);
    if e - i >= 6 {
      assert c[p + i + 2..p + i + 6] == t[i + 2..i + 6];
      if e - (i + 6) >= 6 {
        assert c[p + i + 8..p + i + 12] == t[i + 8..i + 12];
      }
    }
  }

  lemma UnescapeEscape(c: Text, i: nat, e: nat)
    requires i < e < |c| && c[i] == '\\'
    ensures Unescape(c, i, e)
         == if IsShortEscape(c[i + 1]) then Prepend([ShortEscape(c[i + 1])], Unescape(c, i + 2, e))
            else if c[i + 1] != 'u' then None
            else match Utf16Literal(c, i, e)
                 case None => None
                 case Some(l) => Prepend(l.bytes, Unescape(c, i + l.length, e))
  {
    hide IsShortEscape, ShortEscape, Utf16Literal, Prepend;
  }

  lemma {:induction false} UnescapeShifted(c: Text, p: nat, t: Text, i: nat, e: nat)
    requires Occurs(c, p, t) && e < |t|
    ensures Unescape(c, p + i, p + e) == Unescape(t, i, e)
    decreases e - i
  {
    hide Utf16Literal, IsShortEscape, ShortEscape, Prepend, Unescape;
    if i >= e {
      UnescapeEnd(c, p + i, p + e);
      UnescapeEnd(t, i, e);
    } else {
      ByteAt(c, p, t);
      Utf16Shifted(c, p, t, i, e);
      hide Occurs;
      if t[i] != '\\' {
        UnescapePlain(c, p + i, p + e);
        UnescapePlain(t, i, e);
        UnescapeShifted(c, p, t, i + 1, e);
      } else {
        UnescapeEscape(c, p + i, p + e);
        UnescapeEscape(t, i, e);
        if IsShortEscape(t[i + 1]) {
          UnescapeShifted(c, p, t, i + 2, e);
        } else if t[i + 1] == 'u' && Utf16Literal(t, i, e).Some? {
          UnescapeShifted(c, p, t, i + Utf16Literal(t, i, e).value.length, e);
        }
      }
    }
  }

  lemma LiteralShifted(c: Text, p: nat, t: Text)
    requires Occurs(c, p, t) && StringLiteral(t, 0).Some? && StringLiteral(t, 0).value.end == |t|
    ensures StringLiteral(c, p) == Some(ParsedString(StringLiteral(t, 0).value.value, p + |t|))
  {
    hide Unescape, StringEnd;
    ByteAt(c, p, t);
    var e := StringEnd(t, 1).value;
    StringEndShifted(c, p, t, 1);
    UnescapeShifted(c, p, t, 1, e);
  }

  lemma QuoteIsParsed(c: Text, p: nat, q: Quote)
    requires AllowedQuote(q) && Occurs(c, p, WrittenQuote(q))
    ensures StringLiteral(c, p) == Some(ParsedString(DenotedQuote(q), p + |WrittenQuote(q)|))
    ensures p < |c| && c[p] == '\"' == WrittenQuote(q)[0]
  {
    hide Unescape, StringEnd, CString, RenderAll, DenoteAll, WellFormed;
    FirstOf(c, p, WrittenQuote(q));
    match q {
      case Pieces(ps) =>
        hide StringLiteral, Occurs;
        assert |WrittenQuote(q)| == |RenderAll(ps)| + 2;
        WellFormedLiteral(c, p, ps);
      case Odd(t) =>
        LiteralShifted(c, p, t);
    }
  }

  // --- values

  lemma StartsVisibly(s: Syntax)
    requires Allowed(s)
    ensures var t := Written(s); t != [] && 0x20 < t[0] as int < 0x80 && !Divides(t[0])
  {
    hide WrittenElements, WrittenEntries, WrittenQuote, WrittenDigits, AllowedElements, AllowedEntries, AllowedQuote;
    hide IntegerPrefix;
    match s {
      case IntText(negative, ds) => IntPrefix(negative, ds); hide Written;
      case StringText(q) => QuoteStarts(q);
      case _ =>
    }
  }

  lemma QuoteStarts(q: Quote)
    requires AllowedQuote(q)
    ensures WrittenQuote(q) != [] && WrittenQuote(q)[0] == '\"'
  {
    hide Unescape, StringEnd;
  }

  lemma NotKeyword(c: Text, p: nat, t: Text)
    requires p < |c| && t != [] && c[p] != t[0]
    ensures !Occurs(c, p, t)
  {
    if Occurs(c, p, t) {
      FirstOf(c, p, t);
    }
  }

  lemma NoKeyword(c: Text, p: nat)
    requires p < |c| && c[p] != 'n' && c[p] != 't' && c[p] != 'f'
    ensures !Occurs(c, p, "null") && !Occurs(c, p, "true") && !Occurs(c, p, "false")
  {
    NotKeyword(c, p, "null");
    NotKeyword(c, p, "true");
    NotKeyword(c, p, "false");
  }

  lemma KeywordIsParsed(c: Text, p: nat, s: Syntax, depth: nat)
    requires (s.NullText? || s.TrueText? || s.FalseText?) && Occurs(c, p, Written(s))
    ensures ValueAt(c, p, depth) == Some(Parsed(Denoted(s), p + |Written(s)|))
  {
    hide StringLiteral, NumberAt, ArrayAt, ObjectAt, Occurs;
    FirstOf(c, p, Written(s));
    if !s.NullText? {
      NotKeyword(c, p, "null");
    }
    if s.TrueText? {
      NotKeyword(c, p, "false");
    }
  }

  lemma ScalarIsParsed(c: Text, p: nat, s: Syntax, depth: nat)
    requires (s.IntText? || s.StringText?) && Allowed(s)
    requires Occurs(c, p, Written(s)) && Delimits(c, p + |Written(s)|)
    ensures ValueAt(c, p, depth) == Some(Parsed(Denoted(s), p + |Written(s)|))
  {
    hide StringLiteral, NumberAt, ArrayAt, ObjectAt, Occurs, WrittenQuote, WrittenDigits, DenotedInt, DenotedQuote;
    hide AllowedQuote;
    match s {
      case IntText(negative, ds) =>
        NumberIsParsed(c, p, negative, ds);
        NoKeyword(c, p);
      case StringText(q) =>
        QuoteIsParsed(c, p, q);
        NoKeyword(c, p);
    }
  }

  /** A value of the grammar is parsed to what it denotes wherever it stands, if the containers around it leave room for
      its levels. */
  lemma {:induction false} SyntaxIsParsed(c: Text, p: nat, s: Syntax, depth: nat, end: nat)
    requires Allowed(s) && depth + Nesting(Denoted(s)) <= NESTING_LIMIT
    requires Occurs(c, p, Written(s)) && end == p + |Written(s)| && Delimits(c, end)
    ensures ValueAt(c, p, depth) == Some(Parsed(Denoted(s), end))
    decreases s, 3
  {
    match s {
      case ArrayText(space, es) => hide *; ArrayIsParsed(c, p, space, es, depth, end);
      case ObjectText(space, es) => hide *; ObjectIsParsed(c, p, space, es, depth, end);
      case IntText(_, _) => ScalarIsParsed(c, p, s, depth);
      case StringText(_) => ScalarIsParsed(c, p, s, depth);
      case _ => KeywordIsParsed(c, p, s, depth);
    }
  }

  // --- arrays

  /** Written elements without the white space in front of the first. */
  function ElementsBody(es: seq<Element>): Text
    requires es != []
  {
    Written(es[0].value) + es[0].behind + if |es| == 1 then [] else "," + WrittenElements(es[1..])
  }

  /** What stands behind the first element and its white space, up to the closing bracket. */
  function MoreElements(es: seq<Element>): Text
    requires es != []
  {
    if |es| == 1 then "]" else "," + (es[1].before + (ElementsBody(es[1..]) + "]"))
  }

  lemma WrittenElementsIs(es: seq<Element>)
    requires es != []
    ensures WrittenElements(es) == es[0].before + ElementsBody(es)
  {
    var w, t, u := es[0].before, Written(es[0].value), es[0].behind;
    if |es| > 1 {
      var r := WrittenElements(es[1..]);
      assert WrittenElements(es) == w + t + u + "," + r && ElementsBody(es) == t + u + ("," + r);
      hide Written, WrittenElements, ElementsBody;
      Regroup5(w, t, u, ",", r);
    } else {
      assert WrittenElements(es) == w + t + u && ElementsBody(es) == t + u + [];
      hide Written, WrittenElements, ElementsBody;
      Regroup5(w, t, u, [], []);
    }
  }

  lemma Regroup5(w: Text, t: Text, u: Text, x: Text, r: Text)
    ensures w + t + u + x + r == w + (t + u + (x + r)) && w + t + u == w + (t + u + [])
  {}

  lemma RegroupMore(t: Text, u: Text, x: Text, b: Text, close: Text)
    ensures t + u + ("," + (x + b)) + close == t + (u + ("," + (x + (b + close))))
    ensures t + u + [] + close == t + (u + close)
  {}

  lemma ElementsParts(es: seq<Element>)
    requires es != []
    ensures ElementsBody(es) + "]" == Written(es[0].value) + (es[0].behind + MoreElements(es))
  {
    var t, u := Written(es[0].value), es[0].behind;
    if |es| > 1 {
      var x, b := es[1].before, ElementsBody(es[1..]);
      assert ElementsBody(es) == t + u + ("," + (x + b)) by {
        WrittenElementsIs(es[1..]);
      }
      hide Written, ElementsBody;
      RegroupMore(t, u, x, b, "]");
    } else {
      hide Written;
      RegroupMore(t, u, [], [], "]");
    }
  }

  lemma ArrayOpens(c: Text, p: nat, depth: nat, items: seq<Value>, e: nat)
    requires p < |c| && c[p] == '[' && depth < NESTING_LIMIT && ArrayAt(c, p, depth + 1) == Some(Parsed(items, e))
    ensures ValueAt(c, p, depth) == Some(Parsed(Array(items), e + 1))
  {
    hide StringLiteral, NumberAt, ArrayAt, ObjectAt, Occurs;
    NoKeyword(c, p);
  }

  lemma EmptyArrayIsParsed(c: Text, p: nat, space: Text, depth: nat)
    requires White(space) && depth < NESTING_LIMIT && Occurs(c, p, "[" + (space + "]"))
    ensures ValueAt(c, p, depth) == Some(Parsed(Array([]), p + |space| + 2))
  {
    hide Occurs, SkipSpace, ValueAt, ElementsAt, White;
    OccursSplit(c, p, "[", space + "]");
    FirstOf(c, p, "[");
    SkipRun(c, p + 1, space, "]");
    ArrayOpens(c, p, depth, [], p + 1 + |space|);
  }

  lemma OpenPieces(c: Text, p: nat, open: byte, w: Text, t: Text) returns (q: nat)
    requires White(w) && Occurs(c, p, [open] + (w + t)) && t != [] && t[0] as int > 0x20
    ensures q == p + 1 + |w| < |c| && c[p] == open && SkipSpace(c, p + 1) == q && c[q] == t[0] && Occurs(c, q, t)
  {
    hide Occurs, SkipSpace, White;
    OccursSplit(c, p, [open], w + t);
    FirstOf(c, p, [open]);
    SkipRun(c, p + 1, w, t);
    q := p + 1 + |w|;
  }

  /** `[`, what follows it up to `end`, and `]`. */
  predicate ArraySpan(c: Text, p: nat, es: seq<Element>, end: nat)
    requires es != []
  {
    Occurs(c, p, "[" + (es[0].before + (ElementsBody(es) + "]"))) && end == p + 1 + |es[0].before| + |ElementsBody(es)|
  }

  lemma ElementsSpanIs(c: Text, q: nat, es: seq<Element>, end: nat, t: Text)
    requires es != [] && Occurs(c, q, t) && t == ElementsBody(es) + "]" && end == q + |t| - 1
    ensures ElementsSpan(c, q, [], es, end) && White([])
  {
    hide Occurs, ElementsBody;
    assert [] + t == t;
  }

  lemma ArraySpanIs(c: Text, p: nat, es: seq<Element>, end: nat) returns (w: Text, t: Text)
    requires es != [] && AllowedElements(es) && ArraySpan(c, p, es, end)
    ensures White(w) && w == es[0].before && t == ElementsBody(es) + "]"
    ensures Occurs(c, p, ['['] + (w + t)) && end == p + |w| + |t| && t != [] && t[0] as int > 0x20 && t[0] != ']'
  {
    BodyStarts(es);
    FirstElementIs(es);
    hide Occurs, ElementsBody, AllowedElements;
    w, t := es[0].before, ElementsBody(es) + "]";
  }

  lemma ArrayPieces(c: Text, p: nat, es: seq<Element>, end: nat) returns (q: nat)
    requires es != [] && AllowedElements(es) && ArraySpan(c, p, es, end)
    ensures p < q < |c| && c[p] == '[' && SkipSpace(c, p + 1) == q && c[q] != ']'
    ensures White([]) && ElementsSpan(c, q, [], es, end)
  {
    hide *;
    var w, t := ArraySpanIs(c, p, es, end);
    q := OpenPieces(c, p, '[', w, t);
    ElementsSpanIs(c, q, es, end, t);
  }

  lemma ArrayStep(c: Text, p: nat, depth: nat, q: nat, vs: seq<Value>, end: nat)
    requires p < q < |c| && c[p] == '[' && SkipSpace(c, p + 1) == q && c[q] != ']' && depth < NESTING_LIMIT
    requires ElementsAt(c, q - 1, depth + 1) == Some(Parsed(vs, end))
    ensures ValueAt(c, p, depth) == Some(Parsed(Array(vs), end + 1))
  {
    hide SkipSpace, ElementsAt, ValueAt;
    ArrayOpens(c, p, depth, vs, end);
  }

  lemma {:induction false} FullArrayIsParsed(c: Text, p: nat, es: seq<Element>, depth: nat, end: nat)
    requires es != [] && AllowedElements(es) && depth + 1 + NestingOfItems(DenotedElements(es)) <= NESTING_LIMIT
    requires ArraySpan(c, p, es, end)
    ensures ValueAt(c, p, depth) == Some(Parsed(Array(DenotedElements(es)), end + 1))
    decreases es, 1
  {
    hide *;
    var q := ArrayPieces(c, p, es, end);
    ElementsAreParsed(c, q - 1, [], es, depth + 1, end);
    ArrayStep(c, p, depth, q, DenotedElements(es), end);
  }

  lemma ArrayWritten(space: Text, es: seq<Element>)
    requires es != []
    ensures Written(ArrayText(space, es)) == "[" + (es[0].before + (ElementsBody(es) + "]"))
  {
    WrittenElementsIs(es);
    var w, body := es[0].before, ElementsBody(es);
    hide ElementsBody, WrittenElements;
    assert "[" + (w + body) + "]" == "[" + (w + (body + "]"));
  }

  lemma ArrayFits(space: Text, es: seq<Element>, depth: nat)
    requires White(space) && AllowedElements(es) && depth + Nesting(Denoted(ArrayText(space, es))) <= NESTING_LIMIT
    ensures depth + 1 + NestingOfItems(DenotedElements(es)) <= NESTING_LIMIT
    ensures Denoted(ArrayText(space, es)) == Array(DenotedElements(es))
    ensures es == [] ==> DenotedElements(es) == [] && Written(ArrayText(space, es)) == "[" + (space + "]")
  {
    hide DenotedElements;
    if es == [] {
      assert "[" + space + "]" == "[" + (space + "]");
    }
  }

  lemma ArraySpans(c: Text, p: nat, space: Text, es: seq<Element>, end: nat)
    requires es != [] && Occurs(c, p, Written(ArrayText(space, es))) && end == p + |Written(ArrayText(space, es))|
    ensures end > 0 && ArraySpan(c, p, es, end - 1)
  {
    ArrayWritten(space, es);
    hide Written, ElementsBody, Occurs;
  }

  lemma {:induction false} ArrayIsParsed(c: Text, p: nat, space: Text, es: seq<Element>, depth: nat, end: nat)
    requires White(space) && AllowedElements(es) && depth + Nesting(Denoted(ArrayText(space, es))) <= NESTING_LIMIT
    requires Occurs(c, p, Written(ArrayText(space, es))) && end == p + |Written(ArrayText(space, es))|
    ensures ValueAt(c, p, depth) == Some(Parsed(Denoted(ArrayText(space, es)), end))
    decreases es, 2
  {
    hide *;
    ArrayFits(space, es, depth);
    if es == [] {
      EmptyArrayIsParsed(c, p, space, depth);
    } else {
      ArraySpans(c, p, space, es, end);
      FullArrayIsParsed(c, p, es, depth, end - 1);
    }
  }

  lemma BodyStarts(es: seq<Element>)
    requires AllowedElements(es) && es != []
    ensures var t := ElementsBody(es) + "]"; t != [] && 0x20 < t[0] as int && t[0] != ']'
    ensures Written(es[0].value) != [] && 0x20 < Written(es[0].value)[0] as int
  {
    StartsVisibly(es[0].value);
    hide Written, WrittenElements;
  }

  /** A token with white space around it, and a comma or bracket behind that. */
  lemma TokenPieces(c: Text, p: nat, w: Text, t: Text, u: Text, more: Text) returns (q: nat, e: nat, f: nat)
    requires White(w) && White(u) && t != [] && t[0] as int > 0x20 && more != [] && Divides(more[0])
    requires Occurs(c, p, w + (t + (u + more)))
    ensures q == p + |w| && e == q + |t| && f == e + |u| && f < |c|
    ensures SkipSpace(c, p) == q && Occurs(c, q, t) && Occurs(c, p, w + t) && Delimits(c, e)
    ensures SkipSpace(c, e) == f && c[f] == more[0] && Occurs(c, f + 1, more[1..])
  {
    hide Occurs, SkipSpace, Delimits, White;
    q, e, f := p + |w|, p + |w| + |t|, p + |w| + |t| + |u|;
    SkipRun(c, p, w, t + (u + more));
    OccursSplit(c, q, t, u + more);
    SkipRun(c, e, u, more);
    assert more == [more[0]] + more[1..];
    OccursSplit(c, f, [more[0]], more[1..]);
    assert w + (t + (u + more)) == (w + t) + (u + more);
    OccursSplit(c, p, w + t, u + more);
  }

  /** White space, elements behind it up to `end`, and the closing bracket. */
  predicate ElementsSpan(c: Text, p: nat, w: Text, es: seq<Element>, end: nat)
    requires es != []
  {
    Occurs(c, p, w + (ElementsBody(es) + "]")) && end == p + |w| + |ElementsBody(es)|
  }

  lemma MoreIs(es: seq<Element>)
    requires es != []
    ensures var more := MoreElements(es);
            && more != [] && Divides(more[0])
            && |ElementsBody(es)| + 1 == |Written(es[0].value)| + |es[0].behind| + |more|
            && (|es| == 1 ==> more == "]")
            && (|es| > 1 ==> more[0] == ',' && more[1..] == es[1].before + (ElementsBody(es[1..]) + "]"))
  {
    ElementsParts(es);
    hide ElementsBody, Written;
  }

  lemma ElementPieces(c: Text, p: nat, w: Text, es: seq<Element>, end: nat) returns (q: nat, e: nat, f: nat)
    requires White(w) && AllowedElements(es) && es != [] && ElementsSpan(c, p, w, es, end)
    ensures p <= q < e <= f < |c| && SkipSpace(c, p) == q && SkipSpace(c, e) == f
    ensures Occurs(c, q, Written(es[0].value)) && e == q + |Written(es[0].value)| && Delimits(c, e)
    ensures |es| == 1 ==> c[f] == ']' && f == end
    ensures |es| > 1 ==> c[f] == ',' && White(es[1].before) && ElementsSpan(c, f + 1, es[1].before, es[1..], end)
  {
    assert White(es[0].behind) && (|es| > 1 ==> White(es[1].before));
    ElementsParts(es);
    BodyStarts(es);
    MoreIs(es);
    hide Written, ElementsBody, Occurs, SkipSpace, Delimits, MoreElements, AllowedElements, White;
    q, e, f := TokenPieces(c, p, w, Written(es[0].value), es[0].behind, MoreElements(es));
  }

  lemma ElementStep(c: Text, p: nat, es: seq<Element>, depth: nat, q: nat, e: nat, f: nat, end: nat)
    requires AllowedElements(es) && es != []
    requires p < q < e <= f < |c| && SkipSpace(c, p + 1) == q && SkipSpace(c, e) == f
    requires ValueAt(c, q, depth) == Some(Parsed(Denoted(es[0].value), e))
    requires if |es| == 1 then c[f] == ']' && end == f
             else c[f] == ',' && ElementsAt(c, f, depth) == Some(Parsed(DenotedElements(es[1..]), end))
    ensures ElementsAt(c, p, depth) == Some(Parsed(DenotedElements(es), end))
  {
    FirstElement(es);
    hide SkipSpace, ValueAt, ElementsAt, Denoted, DenotedElements, AllowedElements;
    ElementsUnrolled(c, p, depth, Denoted(es[0].value), e);
  }

  lemma ElementsFit(es: seq<Element>, depth: nat)
    requires AllowedElements(es) && es != [] && depth + NestingOfItems(DenotedElements(es)) <= NESTING_LIMIT
    ensures Allowed(es[0].value) && depth + Nesting(Denoted(es[0].value)) <= NESTING_LIMIT
    ensures AllowedElements(es[1..]) && depth + NestingOfItems(DenotedElements(es[1..])) <= NESTING_LIMIT
  {
    FirstElement(es);
  }

  lemma {:induction false} ElementsAreParsed(c: Text, p: nat, w: Text, es: seq<Element>, depth: nat, end: nat)
    requires White(w) && AllowedElements(es) && es != [] && ElementsSpan(c, p + 1, w, es, end)
    requires depth + NestingOfItems(DenotedElements(es)) <= NESTING_LIMIT
    ensures ElementsAt(c, p, depth) == Some(Parsed(DenotedElements(es), end))
    decreases es, 0
  {
    ElementsFit(es, depth);
    hide *;
    var q, e, f := ElementPieces(c, p + 1, w, es, end);
    SyntaxIsParsed(c, q, es[0].value, depth, e);
    if |es| > 1 {
      ElementsAreParsed(c, f, es[1].before, es[1..], depth, end);
    }
    ElementStep(c, p, es, depth, q, e, f, end);
  }

  lemma FirstElementIs(es: seq<Element>)
    requires AllowedElements(es) && es != []
    ensures White(es[0].before) && Allowed(es[0].value) && White(es[0].behind) && AllowedElements(es[1..])
    ensures DenotedElements(es) == [Denoted(es[0].value)] + DenotedElements(es[1..])
    ensures |es| == 1 ==> DenotedElements(es) == [Denoted(es[0].value)]
  {
    hide Denoted, White, Allowed;
  }

  lemma NestingOfMore(v: Value, rest: seq<Value>)
    ensures NestingOfItems([v] + rest) == Max(Nesting(v), NestingOfItems(rest))
  {
    hide Nesting;
    assert ([v] + rest)[1..] == rest;
  }

  lemma FirstElement(es: seq<Element>)
    requires AllowedElements(es) && es != []
    ensures Allowed(es[0].value) && AllowedElements(es[1..])
    ensures DenotedElements(es) == [Denoted(es[0].value)] + DenotedElements(es[1..])
    ensures |es| == 1 ==> DenotedElements(es) == [Denoted(es[0].value)]
    ensures NestingOfItems(DenotedElements(es))
         == Max(Nesting(Denoted(es[0].value)), NestingOfItems(DenotedElements(es[1..])))
  {
    hide *;
    FirstElementIs(es);
    NestingOfMore(Denoted(es[0].value), DenotedElements(es[1..]));
  }

  // --- objects

  /** An entry without the white space around it. */
  function EntryBody(e: Entry): Text {
    WrittenQuote(e.key) + e.behindKey + ":" + e.beforeValue + Written(e.value)
  }

  function EntriesBody(es: seq<Entry>): Text
    requires es != []
  {
    EntryBody(es[0]) + es[0].behind + if |es| == 1 then [] else "," + WrittenEntries(es[1..])
  }

  function MoreEntries(es: seq<Entry>): Text
    requires es != []
  {
    if |es| == 1 then "}" else "," + (es[1].before + (EntriesBody(es[1..]) + "}"))
  }

  lemma WrittenEntriesIs(es: seq<Entry>)
    requires es != []
    ensures WrittenEntries(es) == es[0].before + EntriesBody(es)
  {
    var e := es[0];
    var k := WrittenQuote(e.key) + e.behindKey;
    var t := EntryBody(e);
    var r := if |es| == 1 then [] else "," + WrittenEntries(es[1..]);
    assert WrittenEntries(es) == e.before + WrittenQuote(e.key) + e.behindKey + ":" + e.beforeValue + Written(e.value)
                                 + e.behind + r by {
      if |es| > 1 {
        Regroup(e.before + WrittenQuote(e.key) + e.behindKey + ":" + e.beforeValue + Written(e.value) + e.behind, ",",
                WrittenEntries(es[1..]));
      }
    }
    assert EntriesBody(es) == t + e.behind + r;
    hide Written, WrittenQuote, WrittenEntries, EntriesBody;
    Regroup8(e.before, WrittenQuote(e.key), e.behindKey, e.beforeValue, Written(e.value), e.behind, r);
  }

  lemma Regroup(s: Text, t: Text, u: Text)
    ensures s + t + u == s + (t + u)
  {}

  lemma Regroup8(w: Text, k: Text, x: Text, y: Text, t: Text, u: Text, r: Text)
    ensures w + k + x + ":" + y + t + u + r == w + (k + x + ":" + y + t + u + r)
  {}

  lemma EntriesParts(es: seq<Entry>)
    requires es != []
    ensures EntriesBody(es) + "}" == EntryBody(es[0]) + (es[0].behind + MoreEntries(es))
  {
    var t, u := EntryBody(es[0]), es[0].behind;
    if |es| > 1 {
      var x, b := es[1].before, EntriesBody(es[1..]);
      assert EntriesBody(es) == t + u + ("," + (x + b)) by {
        WrittenEntriesIs(es[1..]);
        hide EntryBody;
      }
      hide EntryBody, EntriesBody;
      RegroupMore(t, u, x, b, "}");
    } else {
      hide EntryBody;
      RegroupMore(t, u, [], [], "}");
    }
  }

  lemma ObjectOpens(c: Text, p: nat, depth: nat, ms: seq<Keyed<Value>>, e: nat)
    requires p < |c| && c[p] == '{' && depth < NESTING_LIMIT && ObjectAt(c, p, depth + 1) == Some(Parsed(ms, e))
    ensures ValueAt(c, p, depth) == Some(Parsed(Object(ms), e + 1))
  {
    hide StringLiteral, NumberAt, ArrayAt, ObjectAt, Occurs;
    NoKeyword(c, p);
  }

  lemma EmptyObjectIsParsed(c: Text, p: nat, space: Text, depth: nat)
    requires White(space) && depth < NESTING_LIMIT && Occurs(c, p, "{" + (space + "}"))
    ensures ValueAt(c, p, depth) == Some(Parsed(Object([]), p + |space| + 2))
  {
    hide Occurs, SkipSpace, ValueAt, MembersAt, White;
    OccursSplit(c, p, "{", space + "}");
    FirstOf(c, p, "{");
    SkipRun(c, p + 1, space, "}");
    ObjectOpens(c, p, depth, [], p + 1 + |space|);
  }

  /** `{`, what follows it up to `end`, and `}`. */
  predicate ObjectSpan(c: Text, p: nat, es: seq<Entry>, end: nat)
    requires es != []
  {
    Occurs(c, p, "{" + (es[0].before + (EntriesBody(es) + "}"))) && end == p + 1 + |es[0].before| + |EntriesBody(es)|
  }

  lemma EntriesSpanIs(c: Text, q: nat, es: seq<Entry>, end: nat, t: Text)
    requires es != [] && Occurs(c, q, t) && t == EntriesBody(es) + "}" && end == q + |t| - 1
    ensures EntriesSpan(c, q, [], es, end) && White([])
  {
    hide Occurs, EntriesBody;
    assert [] + t == t;
  }

  lemma ObjectSpanIs(c: Text, p: nat, es: seq<Entry>, end: nat) returns (w: Text, t: Text)
    requires es != [] && AllowedEntries(es) && ObjectSpan(c, p, es, end)
    ensures White(w) && w == es[0].before && t == EntriesBody(es) + "}"
    ensures Occurs(c, p, ['{'] + (w + t)) && end == p + |w| + |t| && t != [] && t[0] as int > 0x20 && t[0] != '}'
  {
    EntriesStart(es);
    FirstEntryIs(es);
    hide Occurs, EntriesBody, AllowedEntries;
    w, t := es[0].before, EntriesBody(es) + "}";
  }

  lemma ObjectPieces(c: Text, p: nat, es: seq<Entry>, end: nat) returns (q: nat)
    requires es != [] && AllowedEntries(es) && ObjectSpan(c, p, es, end)
    ensures p < q < |c| && c[p] == '{' && SkipSpace(c, p + 1) == q && c[q] != '}'
    ensures White([]) && EntriesSpan(c, q, [], es, end)
  {
    hide *;
    var w, t := ObjectSpanIs(c, p, es, end);
    q := OpenPieces(c, p, '{', w, t);
    EntriesSpanIs(c, q, es, end, t);
  }

  lemma ObjectStep(c: Text, p: nat, depth: nat, q: nat, vs: seq<Keyed<Value>>, end: nat)
    requires p < q < |c| && c[p] == '{' && SkipSpace(c, p + 1) == q && c[q] != '}' && depth < NESTING_LIMIT
    requires MembersAt(c, q - 1, depth + 1) == Some(Parsed(vs, end))
    ensures ValueAt(c, p, depth) == Some(Parsed(Object(vs), end + 1))
  {
    hide SkipSpace, MembersAt, ValueAt;
    ObjectOpens(c, p, depth, vs, end);
  }

  lemma {:induction false} FullObjectIsParsed(c: Text, p: nat, es: seq<Entry>, depth: nat, end: nat)
    requires es != [] && AllowedEntries(es) && depth + 1 + NestingOfMembers(DenotedEntries(es)) <= NESTING_LIMIT
    requires ObjectSpan(c, p, es, end)
    ensures ValueAt(c, p, depth) == Some(Parsed(Object(DenotedEntries(es)), end + 1))
    decreases es, 1
  {
    hide *;
    var q := ObjectPieces(c, p, es, end);
    EntriesAreParsed(c, q - 1, [], es, depth + 1, end);
    ObjectStep(c, p, depth, q, DenotedEntries(es), end);
  }

  lemma ObjectWritten(space: Text, es: seq<Entry>)
    requires es != []
    ensures Written(ObjectText(space, es)) == "{" + (es[0].before + (EntriesBody(es) + "}"))
  {
    WrittenEntriesIs(es);
    var w, body := es[0].before, EntriesBody(es);
    hide EntriesBody, WrittenEntries;
    assert "{" + (w + body) + "}" == "{" + (w + (body + "}"));
  }

  lemma ObjectFits(space: Text, es: seq<Entry>, depth: nat)
    requires White(space) && AllowedEntries(es) && depth + Nesting(Denoted(ObjectText(space, es))) <= NESTING_LIMIT
    ensures depth + 1 + NestingOfMembers(DenotedEntries(es)) <= NESTING_LIMIT
    ensures Denoted(ObjectText(space, es)) == Object(DenotedEntries(es))
    ensures es == [] ==> DenotedEntries(es) == [] && Written(ObjectText(space, es)) == "{" + (space + "}")
  {
    hide DenotedEntries;
    if es == [] {
      assert "{" + space + "}" == "{" + (space + "}");
    }
  }

  lemma ObjectSpans(c: Text, p: nat, space: Text, es: seq<Entry>, end: nat)
    requires es != [] && Occurs(c, p, Written(ObjectText(space, es))) && end == p + |Written(ObjectText(space, es))|
    ensures end > 0 && ObjectSpan(c, p, es, end - 1)
  {
    ObjectWritten(space, es);
    hide Written, EntriesBody, Occurs;
  }

  lemma {:induction false} ObjectIsParsed(c: Text, p: nat, space: Text, es: seq<Entry>, depth: nat, end: nat)
    requires White(space) && AllowedEntries(es) && depth + Nesting(Denoted(ObjectText(space, es))) <= NESTING_LIMIT
    requires Occurs(c, p, Written(ObjectText(space, es))) && end == p + |Written(ObjectText(space, es))|
    ensures ValueAt(c, p, depth) == Some(Parsed(Denoted(ObjectText(space, es)), end))
    decreases es, 2
  {
    hide *;
    ObjectFits(space, es, depth);
    if es == [] {
      EmptyObjectIsParsed(c, p, space, depth);
    } else {
      ObjectSpans(c, p, space, es, end);
      FullObjectIsParsed(c, p, es, depth, end - 1);
    }
  }

  lemma EntriesStart(es: seq<Entry>)
    requires AllowedEntries(es) && es != []
    ensures EntryBody(es[0]) != [] && EntryBody(es[0])[0] == '\"'
    ensures var t := EntriesBody(es) + "}"; t != [] && 0x20 < t[0] as int && t[0] != '}'
  {
    QuoteStarts(es[0].key);
    hide Written, WrittenEntries, WrittenQuote, AllowedQuote;
  }

  lemma EntryBodyIs(e: Entry)
    ensures EntryBody(e) == WrittenQuote(e.key) + (e.behindKey + (":" + (e.beforeValue + Written(e.value))))
  {
    var t, x, y, u := WrittenQuote(e.key), e.behindKey, e.beforeValue, Written(e.value);
    assert EntryBody(e) == t + x + ":" + y + u;
    hide *;
    assert t + x + ":" + y + u == t + (x + (":" + (y + u)));
  }

  // The key of an entry with its colon, and the value behind that.
  lemma KeyPieces(c: Text, p: nat, w: Text, e: Entry) returns (q: nat, k: nat, colon: nat, v: nat)
    requires White(w) && AllowedQuote(e.key) && White(e.behindKey) && White(e.beforeValue) && Allowed(e.value)
    requires Occurs(c, p, w + EntryBody(e))
    ensures q == p + |w| && k == q + |WrittenQuote(e.key)| && k <= colon < v < |c|
    ensures v + |Written(e.value)| == p + |w| + |EntryBody(e)|
    ensures SkipSpace(c, p) == q && q < k && StringLiteral(c, q) == Some(ParsedString(DenotedQuote(e.key), k))
    ensures SkipSpace(c, k) == colon && c[colon] == ':'
    ensures SkipSpace(c, colon + 1) == v && Occurs(c, v, Written(e.value))
  {
    var t, x, y, u := WrittenQuote(e.key), e.behindKey, e.beforeValue, Written(e.value);
    hide Written, WrittenQuote, Occurs, SkipSpace, Delimits, AllowedQuote, EntryBody, White, StringLiteral, Allowed;
    QuoteStarts(e.key);
    StartsVisibly(e.value);
    EntryBodyIs(e);
    assert (":" + (y + u))[1..] == y + u;
    var f;
    q, k, f := TokenPieces(c, p, w, t, x, ":" + (y + u));
    colon := f;
    SkipRun(c, colon + 1, y, u);
    v := colon + 1 + |y|;
    QuoteIsParsed(c, q, e.key);
  }

  lemma MemberIs(c: Text, p: nat, depth: nat, key: ParsedString, value: Parsed<Value>, q: nat, colon: nat, v: nat)
    requires p < q < key.end <= colon < v < |c| && SkipSpace(c, p + 1) == q && StringLiteral(c, q) == Some(key)
    requires SkipSpace(c, key.end) == colon && c[colon] == ':' && SkipSpace(c, colon + 1) == v
    requires ValueAt(c, v, depth) == Some(value)
    ensures MemberAt(c, p, depth) == Some(Parsed(Keyed(key.value, value.value), value.end))
  {
    hide SkipSpace, StringLiteral, ValueAt;
  }

  lemma {:induction false} EntryIsParsed(c: Text, p: nat, w: Text, e: Entry, depth: nat, end: nat)
    requires White(w) && AllowedQuote(e.key) && White(e.behindKey) && White(e.beforeValue) && Allowed(e.value)
    requires depth + Nesting(Denoted(e.value)) <= NESTING_LIMIT
    requires Occurs(c, p + 1, w + EntryBody(e)) && end == p + 1 + |w| + |EntryBody(e)| && Delimits(c, end)
    ensures MemberAt(c, p, depth) == Some(Parsed(Keyed(DenotedQuote(e.key), Denoted(e.value)), end))
    decreases e.value, 4
  {
    hide *;
    var q, k, colon, v := KeyPieces(c, p + 1, w, e);
    SyntaxIsParsed(c, v, e.value, depth, end);
    MemberIs(c, p, depth, ParsedString(DenotedQuote(e.key), k), Parsed(Denoted(e.value), end), q, colon, v);
  }

  predicate EntriesSpan(c: Text, p: nat, w: Text, es: seq<Entry>, end: nat)
    requires es != []
  {
    Occurs(c, p, w + (EntriesBody(es) + "}")) && end == p + |w| + |EntriesBody(es)|
  }

  lemma MoreEntriesIs(es: seq<Entry>)
    requires es != []
    ensures var more := MoreEntries(es);
            && more != [] && Divides(more[0]) && |EntriesBody(es)| + 1 == |EntryBody(es[0])| + |es[0].behind| + |more|
            && (|es| == 1 ==> more == "}")
            && (|es| > 1 ==> more[0] == ',' && more[1..] == es[1].before + (EntriesBody(es[1..]) + "}"))
  {
    EntriesParts(es);
    hide EntriesBody, EntryBody;
  }

  lemma EntryPieces(c: Text, p: nat, w: Text, es: seq<Entry>, end: nat) returns (e: nat, f: nat)
    requires White(w) && AllowedEntries(es) && es != [] && EntriesSpan(c, p, w, es, end)
    ensures p < e <= f < |c| && SkipSpace(c, e) == f
    ensures Occurs(c, p, w + EntryBody(es[0])) && e == p + |w| + |EntryBody(es[0])| && Delimits(c, e)
    ensures |es| == 1 ==> c[f] == '}' && f == end
    ensures |es| > 1 ==> c[f] == ',' && White(es[1].before) && EntriesSpan(c, f + 1, es[1].before, es[1..], end)
  {
    assert White(es[0].behind) && (|es| > 1 ==> White(es[1].before));
    EntriesParts(es);
    EntriesStart(es);
    MoreEntriesIs(es);
    hide EntriesBody, EntryBody, Occurs, SkipSpace, Delimits, MoreEntries, AllowedEntries, White;
    var q;
    q, e, f := TokenPieces(c, p, w, EntryBody(es[0]), es[0].behind, MoreEntries(es));
  }

  lemma EntryStep(c: Text, p: nat, es: seq<Entry>, depth: nat, e: nat, f: nat, end: nat)
    requires AllowedEntries(es) && es != [] && p < e <= f < |c| && SkipSpace(c, e) == f
    requires MemberAt(c, p, depth) == Some(Parsed(Keyed(DenotedQuote(es[0].key), Denoted(es[0].value)), e))
    requires if |es| == 1 then c[f] == '}' && end == f
             else c[f] == ',' && MembersAt(c, f, depth) == Some(Parsed(DenotedEntries(es[1..]), end))
    ensures MembersAt(c, p, depth) == Some(Parsed(DenotedEntries(es), end))
  {
    FirstEntry(es);
    hide SkipSpace, MemberAt, MembersAt, Denoted, DenotedEntries, AllowedEntries, DenotedQuote;
    MembersUnrolled(c, p, depth, Keyed(DenotedQuote(es[0].key), Denoted(es[0].value)), e);
  }

  lemma EntriesFit(es: seq<Entry>, depth: nat)
    requires AllowedEntries(es) && es != [] && depth + NestingOfMembers(DenotedEntries(es)) <= NESTING_LIMIT
    ensures AllowedQuote(es[0].key) && White(es[0].behindKey) && White(es[0].beforeValue)
    ensures Allowed(es[0].value) && depth + Nesting(Denoted(es[0].value)) <= NESTING_LIMIT
    ensures AllowedEntries(es[1..]) && depth + NestingOfMembers(DenotedEntries(es[1..])) <= NESTING_LIMIT
  {
    FirstEntry(es);
  }

  lemma {:induction false} EntriesAreParsed(c: Text, p: nat, w: Text, es: seq<Entry>, depth: nat, end: nat)
    requires White(w) && AllowedEntries(es) && es != [] && EntriesSpan(c, p + 1, w, es, end)
    requires depth + NestingOfMembers(DenotedEntries(es)) <= NESTING_LIMIT
    ensures MembersAt(c, p, depth) == Some(Parsed(DenotedEntries(es), end))
    decreases es, 0
  {
    EntriesFit(es, depth);
    hide *;
    var e, f := EntryPieces(c, p + 1, w, es, end);
    EntryIsParsed(c, p, w, es[0], depth, e);
    if |es| > 1 {
      EntriesAreParsed(c, f, es[1].before, es[1..], depth, end);
    }
    EntryStep(c, p, es, depth, e, f, end);
  }

  lemma FirstEntryIs(es: seq<Entry>)
    requires AllowedEntries(es) && es != []
    ensures White(es[0].before) && AllowedQuote(es[0].key) && White(es[0].behindKey) && White(es[0].beforeValue)
    ensures Allowed(es[0].value) && White(es[0].behind) && AllowedEntries(es[1..])
    ensures var m := Keyed(DenotedQuote(es[0].key), Denoted(es[0].value));
            DenotedEntries(es) == [m] + DenotedEntries(es[1..]) && (|es| == 1 ==> DenotedEntries(es) == [m])
  {
    hide Denoted, White, Allowed, AllowedQuote, DenotedQuote;
  }

  lemma NestingOfMoreMembers(m: Keyed<Value>, rest: seq<Keyed<Value>>)
    ensures NestingOfMembers([m] + rest) == Max(Nesting(m.value), NestingOfMembers(rest))
  {
    hide Nesting;
    assert ([m] + rest)[1..] == rest;
  }

  lemma FirstEntry(es: seq<Entry>)
    requires AllowedEntries(es) && es != []
    ensures AllowedEntries(es[1..]) && Allowed(es[0].value) && AllowedQuote(es[0].key)
    ensures var m := Keyed(DenotedQuote(es[0].key), Denoted(es[0].value));
            && DenotedEntries(es) == [m] + DenotedEntries(es[1..]) && (|es| == 1 ==> DenotedEntries(es) == [m])
            && NestingOfMembers(DenotedEntries(es)) == Max(Nesting(m.value), NestingOfMembers(DenotedEntries(es[1..])))
  {
    hide *;
    FirstEntryIs(es);
    NestingOfMoreMembers(Keyed(DenotedQuote(es[0].key), Denoted(es[0].value)), DenotedEntries(es[1..]));
  }
}
