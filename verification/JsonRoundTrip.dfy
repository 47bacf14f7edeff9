/** Parsing undoes printing: the law that ties cJSON's parser to its printer. */
module JsonRoundTrip {
  import opened Bytes
  import opened Json
  import opened JsonStrings
  import opened JsonPrinter
  import opened JsonParser
  import opened JsonGrammar
  import opened JsonAccepted
  import opened JsonLayout

  /** `cJSON_Print` and `cJSON_PrintUnformatted`. */
  method PrintDocument(item: Value, format: bool) returns (printed: Text)
    ensures printed == Print(item, format, 0)
  {
    var buffer := new PrintBuffer(format);
    buffer.PrintValue(item);
    printed := buffer.output;
  }

  /** `cJSON_ParseWithOpts` on the C string `text`. With the check for a terminator it accepts exactly the texts of the
      grammar, for the value that they denote. */
  method ParseDocument(text: Text, require_null_terminated: bool) returns (ok: bool, item: Value, parse_end: nat)
    ensures ParseCString(text, require_null_terminated) == if ok then Some(Parsed(item, parse_end)) else None
    ensures require_null_terminated ==> forall v :: Spells(text, v) <==> ok && v == item
  {
    hide ValueAt, Spells;
    var buffer := new ParseBuffer(text + "\0");
    buffer.offset := BomEnd(buffer.content);
    buffer.SkipWhitespace();
    ok, item := buffer.ParseValue();
    parse_end := buffer.offset;
    if ok && require_null_terminated {
      buffer.SkipWhitespace();
      parse_end := buffer.offset;
      ok := buffer.offset < |buffer.content| && buffer.content[buffer.offset] == '\0';
    }
    forall v ensures require_null_terminated ==> (Spells(text, v) <==> ok && v == item) {
      AcceptedExactly(text, v);
    }
  }

  // ---------------------------------------------------------------------------------------------
  // Parsing what was printed
  // ---------------------------------------------------------------------------------------------

  /** The printed value is parsed back, wherever it stands, if the containers around it leave room for its nesting. */
  lemma ValueRoundTrip(c: Text, p: nat, v: Value, format: bool, indent: nat, depth: nat)
    requires Representable(v) && depth + Nesting(v) <= NESTING_LIMIT
    requires Occurs(c, p, Print(v, format, indent)) && Delimits(c, p + |Print(v, format, indent)|)
    ensures ValueAt(c, p, depth) == Some(Parsed(v, p + |Print(v, format, indent)|))
  {
    hide *;
    var s := PrintedText(v, format, indent);
    SyntaxIsParsed(c, p, s, depth, p + |Print(v, format, indent)|);
  }

  lemma PrintIsText(v: Value, s: Syntax, text: Text)
    requires Allowed(s) && Written(s) == text && Denoted(s) == v && Nesting(v) <= NESTING_LIMIT
    ensures IsText(text, false, [], s, [])
  {
    hide Allowed, Written, Denoted, Nesting;
    assert Mark(false) + [] + text + [] == text;
  }

  /** Parsing the printed text of a document, formatted or not, gives back the very same ordered tree; parsing stops
      exactly at the end of the text, and also passes the check for a terminator. */
  lemma ParseUndoesPrint(v: Value, format: bool, require_null_terminated: bool)
    requires Representable(v) && Nesting(v) <= NESTING_LIMIT
    ensures ParseCString(Print(v, format, 0), require_null_terminated) == Some(Parsed(v, |Print(v, format, 0)|))
  {
    hide *;
    var s := PrintedText(v, format, 0);
    PrintIsText(v, s, Print(v, format, 0));
    TextIsParsed(Print(v, format, 0), false, [], s, [], require_null_terminated);
  }

  /** Whatever text is parsed, the document is one that can be printed and nested at most 1000 containers deep; so
      printing and parsing it once more gives the same document again. */
  lemma ReparseIsStable(text: Text, require_null_terminated: bool, format: bool)
    requires ParseCString(text, require_null_terminated).Some?
    ensures var v := ParseCString(text, require_null_terminated).value.value;
            && Representable(v) && Nesting(v) <= NESTING_LIMIT
            && ParseCString(Print(v, format, 0), true) == Some(Parsed(v, |Print(v, format, 0)|))
  {
    var c := text + "\0";
    hide ValueAt, Print, SpaceEnd, SkipSpace, Representable, Nesting;
    ParsedFits(c, SkipSpace(c, BomEnd(c)), 0);
    ParseUndoesPrint(ParseCString(text, require_null_terminated).value.value, format, true);
  }

  /** Parsing undoes printing for exactly the documents that are nested at most 1000 containers deep. */
  lemma ParseUndoesPrintExactly(v: Value, format: bool)
    requires Representable(v)
    ensures ParseCString(Print(v, format, 0), true) == Some(Parsed(v, |Print(v, format, 0)|))
       <==> Nesting(v) <= NESTING_LIMIT
  {
    hide Print, ParseCString;
    if Nesting(v) <= NESTING_LIMIT {
      ParseUndoesPrint(v, format, true);
    } else if ParseCString(Print(v, format, 0), true) == Some(Parsed(v, |Print(v, format, 0)|)) {
      ReparseIsStable(Print(v, format, 0), true, format);
    }
  }

  /** Distinct documents print to distinct texts. */
  lemma PrintIsInjective(v: Value, w: Value, format: bool)
    requires Representable(v) && Nesting(v) <= NESTING_LIMIT && Representable(w) && Nesting(w) <= NESTING_LIMIT
    requires Print(v, format, 0) == Print(w, format, 0)
    ensures v == w
  {
    hide Print, ParseCString;
    ParseUndoesPrint(v, format, false);
    ParseUndoesPrint(w, format, false);
  }
}
