/** What printed text looks like, told in the grammar of documents and not in terms of the printer. */
module JsonLayout {
  import opened Bytes
  import opened Json
  import opened JsonStrings
  import opened JsonPrinter
  import opened JsonParser
  import opened JsonGrammar
  import opened JsonAccepted

  // ---------------------------------------------------------------------------------------------
  // The layouts
  // ---------------------------------------------------------------------------------------------

  /** A line feed and so many tabs. */
  function LineBreak(depth: nat): Text {
    [0x0A as char] + seq(depth, _ => 0x09 as char)
  }

  /** No white space anywhere. */
  predicate Compact(s: Syntax)
    decreases s
  {
    match s
    case ArrayText(space, es) =>
      space == [] && forall i :: 0 <= i < |es| ==> es[i].before == es[i].behind == [] && Compact(es[i].value)
    case ObjectText(space, es) =>
      && space == []
      && forall i :: 0 <= i < |es| ==>
           && es[i].before == es[i].behindKey == es[i].beforeValue == es[i].behind == [] && Compact(es[i].value)
    case _ => true
  }

  /** Inside `depth` containers: a blank in front of every element but the first; every member on a line of its own,
      behind a tab for each container around it, and a tab in front of its value; and the closing brace on a line of its
      own behind a tab for each container around the object. */
  predicate LaidOut(s: Syntax, depth: nat)
    decreases s
  {
    match s
    case ArrayText(space, es) =>
      && space == []
      && forall i :: 0 <= i < |es| ==>
           es[i].before == (if i == 0 then "" else " ") && es[i].behind == [] && LaidOut(es[i].value, depth + 1)
    case ObjectText(space, es) =>
      && (es == [] ==> space == LineBreak(depth))
      && forall i :: 0 <= i < |es| ==>
           && es[i].before == LineBreak(depth + 1) && es[i].behindKey == [] && es[i].beforeValue == "\t"
           && es[i].behind == (if i == |es| - 1 then LineBreak(depth) else []) && LaidOut(es[i].value, depth + 1)
    case _ => true
  }

  /** Numbers without superfluous zeros or minus, and strings of `Chosen` pieces. */
  predicate Plainest(s: Syntax)
    decreases s
  {
    match s
    case IntText(negative, ds) => (|ds| > 1 ==> ds[0] != 0) && (negative ==> ds != [0])
    case StringText(q) => PlainestQuote(q)
    case ArrayText(_, es) => forall i :: 0 <= i < |es| ==> Plainest(es[i].value)
    case ObjectText(_, es) => forall i :: 0 <= i < |es| ==> PlainestQuote(es[i].key) && Plainest(es[i].value)
    case _ => true
  }

  predicate PlainestQuote(q: Quote) {
    q.Pieces? && forall k :: 0 <= k < |q.pieces| ==> Chosen(q.pieces[k])
  }

  // ---------------------------------------------------------------------------------------------
  // The text of a value in these layouts
  // ---------------------------------------------------------------------------------------------

  function DigitsOf(n: nat): (ds: seq<Digit>)
    ensures ds != []
  {
    if n < 10 then [n] else DigitsOf(n / 10) + [n % 10]
  }

  function Laid(v: Value, format: bool, depth: nat): Syntax
    decreases v, 0
  {
    match v
    case Invalid => NullText
    case Null => NullText
    case Bool(b) => if b then TrueText else FalseText
    case Number(n) => IntText(n < 0, DigitsOf(if n < 0 then -n else n))
    case Str(s) => StringText(Pieces(PiecesOf(s)))
    case Array(items) => ArrayText([], LaidItems(items, format, depth + 1, true))
    case Object(ms) => ObjectText(Break(format, depth), LaidMembers(ms, format, depth + 1))
  }

  function Break(format: bool, depth: nat): Text {
    if format then LineBreak(depth) else []
  }

  function LaidItems(items: seq<Value>, format: bool, depth: nat, first: bool): (es: seq<Element>)
    ensures |es| == |items|
    decreases items
  {
    if items == [] then [] else
    [Element(if format && !first then " " else [], Laid(items[0], format, depth), [])]
    + LaidItems(items[1..], format, depth, false)
  }

  function LaidMembers(ms: seq<Keyed<Value>>, format: bool, depth: nat): (es: seq<Entry>)
    requires depth > 0
    ensures |es| == |ms|
    decreases ms
  {
    if ms == [] then [] else
    [LaidMember(ms[0], format, depth, |ms| == 1)] + LaidMembers(ms[1..], format, depth)
  }

  function LaidMember(m: Keyed<Value>, format: bool, depth: nat, last: bool): Entry
    requires depth > 0
    decreases m, 0
  {
    Entry(Break(format, depth), Pieces(PiecesOf(m.key)), [], if format then "\t" else [], Laid(m.value, format, depth),
          if last then Break(format, depth - 1) else [])
  }

  // ---------------------------------------------------------------------------------------------
  // Numbers and strings
  // ---------------------------------------------------------------------------------------------

  lemma {:induction false} DigitsOfDecimal(n: nat)
    ensures WrittenDigits(DigitsOf(n)) == Decimal(n) && DenotedDigits(DigitsOf(n)) == n
    ensures DigitsOf(n)[0] == 0 ==> n == 0
    ensures n == 0 ==> DigitsOf(n) == [0]
  {
    if n >= 10 {
      DigitsOfDecimal(n / 10);
      var ds := DigitsOf(n);
      assert ds[..|ds| - 1] == DigitsOf(n / 10);
    } else {
      assert DigitsOf(n)[..0] == [];
    }
  }

  lemma IntIsShort(m: nat)
    requires m <= 2147483648
    ensures |DigitsOf(m)| <= 10
  {
    assert Pow10(10) == 10000000000 by {
      assert Pow10(5) == 100000;
    }
    DecimalLength(m, 10);
    DigitsOfDecimal(m);
    hide DigitsOf, Decimal;
    assert |WrittenDigits(DigitsOf(m))| == |DigitsOf(m)|;
  }

  lemma PlainestInt(n: int, ds: seq<Digit>)
    requires ds != [] && (ds[0] == 0 ==> n == 0) && (n == 0 ==> ds == [0])
    ensures Plainest(IntText(n < 0, ds))
  {}

  lemma IntIsDenoted(n: int, ds: seq<Digit>)
    requires INT_MIN <= n <= INT_MAX && DenotedDigits(ds) == if n < 0 then -n else n
    ensures DenotedInt(n < 0, ds) == n
  {
    hide DenotedDigits;
  }

  lemma IntIsPrinted(n: int, ds: seq<Digit>)
    requires WrittenDigits(ds) == Decimal(if n < 0 then -n else n)
    ensures Written(IntText(n < 0, ds)) == PrintInt(n)
  {
    hide WrittenDigits, Decimal;
    if n >= 0 {
      assert "" + Decimal(n) == Decimal(n);
    }
  }

  lemma LaidNumber(n: int)
    requires INT_MIN <= n <= INT_MAX
    ensures var s := IntText(n < 0, DigitsOf(if n < 0 then -n else n));
            Allowed(s) && Written(s) == PrintInt(n) && Denoted(s) == Number(n) && Plainest(s)
  {
    var m := if n < 0 then -n else n;
    var ds := DigitsOf(m);
    hide DigitsOf, Decimal, DenotedDigits, WrittenDigits, Written, PrintInt, Plainest, DenotedInt;
    IntIsShort(m);
    DigitsOfDecimal(m);
    PlainestInt(n, ds);
    IntIsDenoted(n, ds);
    IntIsPrinted(n, ds);
  }

  lemma LaidString(s: Text)
    requires NulFree(s)
    ensures var q := Pieces(PiecesOf(s));
            AllowedQuote(q) && WrittenQuote(q) == PrintedString(s) && DenotedQuote(q) == s && PlainestQuote(q)
  {
    hide WellFormed, Chosen, Escaped, RenderAll, DenoteAll, PiecesOf, CString;
    EscapedIsRendered(s);
    CStringOfNulFree(s);
  }

  // ---------------------------------------------------------------------------------------------
  // Values
  // ---------------------------------------------------------------------------------------------

  /** A value's text is the one with this layout, and the layout is that of the value. */
  ghost predicate LaidRight(v: Value, format: bool, depth: nat) {
    var s := Laid(v, format, depth);
    && Allowed(s) && Denoted(s) == v && Plainest(s) && (if format then LaidOut(s, depth) else Compact(s))
    && Written(s) == Print(v, format, depth)
  }

  lemma {:induction false} LaidIsRight(v: Value, format: bool, depth: nat)
    requires Representable(v)
    ensures LaidRight(v, format, depth)
    decreases v, 1
  {
    match v {
      case Array(items) =>
        LaidItemsAreRight(items, format, depth + 1, true);
        hide *;
        LaidArray(items, format, depth);
      case Object(ms) =>

        LaidMembersAreRight(ms, format, depth + 1);
        hide *;
        LaidObject(ms, format, depth);
      case _ => LaidScalar(v, format, depth);
    }
  }

  lemma LaidScalar(v: Value, format: bool, depth: nat)
    requires Representable(v) && !v.Array? && !v.Object?
    ensures LaidRight(v, format, depth)
  {
    hide DigitsOf, PrintInt, PiecesOf, PrintedString, AllowedQuote, DenotedQuote, WrittenQuote, DenotedInt;
    hide WrittenDigits, PlainestQuote;
    match v {
      case Number(n) => LaidNumber(n);
      case Str(s) => LaidString(s);
      case _ =>
    }
  }

  // --- arrays

  ghost predicate ItemsRight(items: seq<Value>, format: bool, depth: nat, first: bool) {
    var es := LaidItems(items, format, depth, first);
    && AllowedElements(es) && DenotedElements(es) == items
    && forall i :: 0 <= i < |es| ==> ElementRight(es[i], format, depth, first && i == 0)
  }

  predicate ElementRight(e: Element, format: bool, depth: nat, first: bool) {
    && e.before == (if format && !first then " " else []) && e.behind == [] && Plainest(e.value)
    && if format then LaidOut(e.value, depth) else Compact(e.value)
  }

  ghost predicate ItemsWritten(items: seq<Value>, format: bool, depth: nat, first: bool) {
    items != [] ==>
      WrittenElements(LaidItems(items, format, depth, first))
      == (if format && !first then " " else "") + PrintItems(items, format, depth)
  }

  lemma {:induction false} LaidItemsAreRight(items: seq<Value>, format: bool, depth: nat, first: bool)
    requires Representable(Array(items))
    ensures ItemsRight(items, format, depth, first) && ItemsWritten(items, format, depth, first)
    decreases items, 0
  {
    if items != [] {
      assert Representable(items[0]) && Representable(Array(items[1..]));
      hide *;
      LaidIsRight(items[0], format, depth);
      LaidItemsAreRight(items[1..], format, depth, false);
      MoreItemsRight(items, format, depth, first);
      MoreItemsWritten(items, format, depth, first);
    }
  }

  lemma MoreItemsRight(items: seq<Value>, format: bool, depth: nat, first: bool)
    requires items != [] && LaidRight(items[0], format, depth) && ItemsRight(items[1..], format, depth, false)
    ensures ItemsRight(items, format, depth, first)
  {
    hide Allowed, Denoted, Plainest, LaidOut, Compact, Laid, Written, Print;
    var e := Element(if format && !first then " " else [], Laid(items[0], format, depth), []);
    var es := LaidItems(items[1..], format, depth, false);
    var all := LaidItems(items, format, depth, first);
    assert all == [e] + es && all[1..] == es && all[0] == e;
    assert White(e.before) && White([]);
    assert items == [items[0]] + items[1..];
    assert DenotedElements(all) == [Denoted(e.value)] + DenotedElements(es);
    hide LaidItems, DenotedElements;
    forall i | 0 <= i < |all| ensures ElementRight(all[i], format, depth, first && i == 0) {
      assert i > 0 ==> all[i] == es[i - 1];
    }
  }

  lemma MoreItemsWritten(items: seq<Value>, format: bool, depth: nat, first: bool)
    requires items != [] && LaidRight(items[0], format, depth) && ItemsWritten(items[1..], format, depth, false)
    ensures ItemsWritten(items, format, depth, first)
  {
    hide Allowed, Denoted, Plainest, LaidOut, Compact, Laid, Written, Print, WrittenElements;
    var e := Element(if format && !first then " " else [], Laid(items[0], format, depth), []);
    var rest := items[1..];
    var es := LaidItems(rest, format, depth, false);
    var t, p := Print(items[0], format, depth), PrintItems(rest, format, depth);
    assert LaidItems(items, format, depth, first) == [e] + es;
    WrittenElement(e, es);
    assert PrintItems(items, format, depth) == t + ItemSeparator(format, |items| > 1) + p;
    hide LaidItems, PrintItems;
    if rest == [] {
      assert p == [] by { NoItems(format, depth); }
      Same4(e.before, t);
    } else {
      Regroup6(e.before, t, if format then " " else "", p);
    }
  }

  lemma NoItems(format: bool, depth: nat)
    ensures PrintItems([], format, depth) == [] && PrintMembers([], format, depth) == []
  {}

  lemma Same4(w: Text, t: Text)
    ensures w + t + [] + [] == w + (t + [] + [])
  {}

  lemma Regroup6(w: Text, t: Text, x: Text, p: Text)
    ensures w + t + [] + ("," + (x + p)) == w + (t + ("," + x) + p)
    ensures "," + "" == ","
  {}

  lemma LaidArray(items: seq<Value>, format: bool, depth: nat)
    requires ItemsRight(items, format, depth + 1, true) && ItemsWritten(items, format, depth + 1, true)
    ensures LaidRight(Array(items), format, depth)
  {
    var es, p := LaidItems(items, format, depth + 1, true), PrintItems(items, format, depth + 1);
    assert White([]);
    hide Allowed, Denoted, Plainest, LaidOut, Compact, LaidItems, Print, PrintItems, WrittenElements;
    hide AllowedElements, DenotedElements;
    ArrayLaid(items, format, depth);
    if items == [] {
      assert p == [] by { NoItems(format, depth + 1); }
      assert "[" + [] + "]" == "[" + p + "]";
    } else {
      assert "" + p == p;
    }
  }

  lemma ArrayLaid(items: seq<Value>, format: bool, depth: nat)
    requires ItemsRight(items, format, depth + 1, true)
    ensures var es := LaidItems(items, format, depth + 1, true);
            var s := ArrayText([], es);
            && Laid(Array(items), format, depth) == s && Allowed(s) && Denoted(s) == Array(items) && Plainest(s)
            && (if format then LaidOut(s, depth) else Compact(s))
            && Written(s) == (if items == [] then "[" + [] + "]" else "[" + WrittenElements(es) + "]")
            && Print(Array(items), format, depth) == "[" + PrintItems(items, format, depth + 1) + "]"
  {
    hide LaidItems, PrintItems, WrittenElements, AllowedElements, DenotedElements;
    var es := LaidItems(items, format, depth + 1, true);
    assert forall i :: 0 <= i < |es| ==> ElementRight(es[i], format, depth + 1, i == 0);
  }

  // --- objects

  ghost predicate MembersRight(ms: seq<Keyed<Value>>, format: bool, depth: nat)
    requires depth > 0
  {
    var es := LaidMembers(ms, format, depth);
    && AllowedEntries(es) && DenotedEntries(es) == ms
    && EntriesRight(es, format, depth)
  }

  predicate EntriesRight(es: seq<Entry>, format: bool, depth: nat)
    requires depth > 0
  {
    forall i :: 0 <= i < |es| ==> EntryRight(es[i], format, depth, i == |es| - 1)
  }

  lemma OneMoreEntryRight(e: Entry, es: seq<Entry>, format: bool, depth: nat)
    requires depth > 0 && EntryRight(e, format, depth, es == []) && EntriesRight(es, format, depth)
    ensures EntriesRight([e] + es, format, depth)
  {
    hide EntryRight;
    var all := [e] + es;
    forall i | 0 <= i < |all| ensures EntryRight(all[i], format, depth, i == |all| - 1) {
      assert i > 0 ==> all[i] == es[i - 1];
    }
  }

  predicate EntryRight(e: Entry, format: bool, depth: nat, last: bool)
    requires depth > 0
  {
    && e.before == Break(format, depth) && e.behindKey == [] && e.beforeValue == (if format then "\t" else [])
    && e.behind == (if last then Break(format, depth - 1) else []) && PlainestQuote(e.key) && Plainest(e.value)
    && if format then LaidOut(e.value, depth) else Compact(e.value)
  }

  ghost predicate MembersWritten(ms: seq<Keyed<Value>>, format: bool, depth: nat)
    requires depth > 0
  {
    ms != [] ==>
      WrittenEntries(LaidMembers(ms, format, depth))
      == Line(format) + PrintMembers(ms, format, depth) + Indent(format, depth - 1)
  }

  function Line(format: bool): Text {
    if format then "\n" else ""
  }

  lemma BreakIs(format: bool, depth: nat)
    ensures Break(format, depth) == Line(format) + Indent(format, depth) && White(Break(format, depth))
  {
    var b := Break(format, depth);
    if format {
      assert forall i :: 0 < i < |b| ==> b[i] == '\t';
    }
  }

  lemma {:induction false} LaidMembersAreRight(ms: seq<Keyed<Value>>, format: bool, depth: nat)
    requires Representable(Object(ms)) && depth > 0
    ensures MembersRight(ms, format, depth) && MembersWritten(ms, format, depth)
    decreases ms, 0
  {
    if ms != [] {
      assert NulFree(ms[0].key) && Representable(ms[0].value) && Representable(Object(ms[1..]));
      hide *;
      LaidIsRight(ms[0].value, format, depth);
      LaidString(ms[0].key);
      LaidMembersAreRight(ms[1..], format, depth);
      MoreMembersRight(ms, format, depth);
      MoreMembersWritten(ms, format, depth);
    }
  }

  ghost predicate KeyRight(key: Text) {
    var q := Pieces(PiecesOf(key));
    AllowedQuote(q) && WrittenQuote(q) == PrintedString(key) && DenotedQuote(q) == key && PlainestQuote(q)
  }

  lemma BodyOfMember(m: Keyed<Value>, format: bool, depth: nat, last: bool)
    requires LaidRight(m.value, format, depth) && KeyRight(m.key) && depth > 0
    ensures EntryBody(LaidMember(m, format, depth, last))
         == PrintedString(m.key) + Colon(format) + Print(m.value, format, depth)
  {
    hide Allowed, Denoted, Plainest, LaidOut, Compact, Laid, Written, Print, Break, PiecesOf, PrintedString;
    hide AllowedQuote, DenotedQuote, WrittenQuote, PlainestQuote;
    var k, t := PrintedString(m.key), Print(m.value, format, depth);
    assert EntryBody(LaidMember(m, format, depth, last)) == k + [] + ":" + (if format then "\t" else []) + t;
    KeyAndTab(k, t);
  }

  lemma KeyAndTab(k: Text, t: Text)
    ensures k + [] + ":" + [] + t == k + ":" + t && k + [] + ":" + "\t" + t == k + ":\t" + t
  {
    assert k + [] + ":" + [] == k + ":" && k + [] + ":" + "\t" == k + ":\t";
  }

  lemma FirstMemberRight(m: Keyed<Value>, format: bool, depth: nat, last: bool)
    requires LaidRight(m.value, format, depth) && KeyRight(m.key) && depth > 0
    ensures var e := LaidMember(m, format, depth, last);
            && EntryRight(e, format, depth, last) && AllowedQuote(e.key) && Allowed(e.value)
            && White(e.before) && White(e.behindKey) && White(e.beforeValue) && White(e.behind)
            && Keyed(DenotedQuote(e.key), Denoted(e.value)) == m
            && EntryBody(e) == PrintedString(m.key) + Colon(format) + Print(m.value, format, depth)
  {
    BreakIs(format, depth);
    BreakIs(format, depth - 1);
    hide EntryBody;
    BodyOfMember(m, format, depth, last);
    hide Allowed, Denoted, Plainest, LaidOut, Compact, Laid, Written, Print, Break, PiecesOf, PrintedString;
    hide AllowedQuote, DenotedQuote, WrittenQuote, PlainestQuote, Colon;
  }

  lemma MembersAreOneMore(ms: seq<Keyed<Value>>, format: bool, depth: nat)
    requires ms != [] && depth > 0
    ensures LaidMembers(ms, format, depth)
         == [LaidMember(ms[0], format, depth, |ms| == 1)] + LaidMembers(ms[1..], format, depth)
    ensures ms == [ms[0]] + ms[1..] && (LaidMembers(ms[1..], format, depth) == [] <==> |ms| == 1)
  {
    hide LaidMember;
  }

  lemma MoreMembersRight(ms: seq<Keyed<Value>>, format: bool, depth: nat)
    requires ms != [] && depth > 0
    requires LaidRight(ms[0].value, format, depth) && KeyRight(ms[0].key) && MembersRight(ms[1..], format, depth)
    ensures MembersRight(ms, format, depth)
  {
    var e, es := LaidMember(ms[0], format, depth, |ms| == 1), LaidMembers(ms[1..], format, depth);
    hide Allowed, Denoted, AllowedQuote, DenotedQuote, LaidMember, EntryRight, LaidRight, KeyRight, EntriesRight;
    hide AllowedEntries, DenotedEntries, White, EntryBody, WrittenQuote, PrintedString, Print, Colon, LaidMembers;
    FirstMemberRight(ms[0], format, depth, |ms| == 1);
    MembersAreOneMore(ms, format, depth);
    MoreEntriesMean(e, ms[0], es);
    OneMoreEntryRight(e, es, format, depth);
  }

  lemma MoreMembersWritten(ms: seq<Keyed<Value>>, format: bool, depth: nat)
    requires ms != [] && depth > 0
    requires LaidRight(ms[0].value, format, depth) && KeyRight(ms[0].key) && MembersWritten(ms[1..], format, depth)
    ensures MembersWritten(ms, format, depth)
  {
    FirstMemberRight(ms[0], format, depth, |ms| == 1);
    BreakIs(format, depth);
    BreakIs(format, depth - 1);
    hide LaidRight, KeyRight, EntryBody, Break, Allowed, AllowedQuote, Denoted, DenotedQuote, White, WrittenEntries;
    hide Plainest, PlainestQuote, LaidOut, Compact;
    var m, rest := ms[0], ms[1..];
    var e, es := LaidMember(m, format, depth, |ms| == 1), LaidMembers(rest, format, depth);
    assert LaidMembers(ms, format, depth) == [e] + es;
    WrittenEntry(e, es);
    assert PrintMembers(ms, format, depth)
        == PrintMember(m, format, depth) + MemberSeparator(format, |ms| > 1) + PrintMembers(rest, format, depth);
    assert rest == [] ==> PrintMembers(rest, format, depth) == [];
    hide LaidMembers, PrintMembers, Print, PrintedString, Indent, LaidMember, EntryRight;
    var l, i, j, body := Line(format), Indent(format, depth), Indent(format, depth - 1), EntryBody(e);
    assert PrintMember(m, format, depth) == i + body by {
      Regroup4(i, PrintedString(m.key), Colon(format), Print(m.value, format, depth));
    }
    assert e.before == l + i && e.behind == (if |ms| == 1 then l + j else []) by {
      MemberEnds(m, format, depth, |ms| == 1);
    }
    hide PrintMember;
    if rest == [] {
      LastLine(l, i, body, j);
    } else {
      NextLine(l, i, body, PrintMembers(rest, format, depth), j);
    }
  }

  lemma MemberEnds(m: Keyed<Value>, format: bool, depth: nat, last: bool)
    requires depth > 0
    ensures var e := LaidMember(m, format, depth, last);
            e.before == Break(format, depth) && e.behind == if last then Break(format, depth - 1) else []
  {}

  lemma Regroup4(i: Text, k: Text, x: Text, t: Text)
    ensures i + k + x + t == i + (k + x + t)
  {}

  lemma LastLine(l: Text, i: Text, body: Text, j: Text)
    ensures (l + i) + body + (l + j) + [] == l + ((i + body) + ([] + l) + []) + j
  {}

  lemma NextLine(l: Text, i: Text, body: Text, p: Text, j: Text)
    ensures (l + i) + body + [] + ("," + (l + p + j)) == l + ((i + body) + ("," + l) + p) + j
  {}

  lemma LaidObject(ms: seq<Keyed<Value>>, format: bool, depth: nat)
    requires MembersRight(ms, format, depth + 1) && MembersWritten(ms, format, depth + 1)
    ensures LaidRight(Object(ms), format, depth)
  {
    var es, p := LaidMembers(ms, format, depth + 1), PrintMembers(ms, format, depth + 1);
    hide Allowed, Denoted, Plainest, LaidOut, Compact, LaidMembers, Print, PrintMembers, WrittenEntries;
    hide AllowedEntries, DenotedEntries, Indent, Break;
    ObjectLaid(ms, format, depth);
    BreakIs(format, depth);
    var l, j := Line(format), Indent(format, depth);
    NoItems(format, depth + 1);
    hide Line;
    Braces(l, p, j);
    Braces(l, [], j);
  }

  lemma Braces(l: Text, p: Text, j: Text)
    ensures "{" + (l + p + j) + "}" == ("{" + l) + p + (j + "}") && "{" + (l + j) + "}" == ("{" + l) + [] + (j + "}")
  {}

  lemma ObjectLaid(ms: seq<Keyed<Value>>, format: bool, depth: nat)
    requires MembersRight(ms, format, depth + 1)
    ensures var es := LaidMembers(ms, format, depth + 1);
            var s := ObjectText(Break(format, depth), es);
            && Laid(Object(ms), format, depth) == s && Allowed(s) && Denoted(s) == Object(ms) && Plainest(s)
            && (if format then LaidOut(s, depth) else Compact(s))
            && Written(s) == (if ms == [] then "{" + Break(format, depth) + "}" else "{" + WrittenEntries(es) + "}")
            && Print(Object(ms), format, depth)
               == ("{" + Line(format)) + PrintMembers(ms, format, depth + 1) + (Indent(format, depth) + "}")
  {
    hide LaidMembers, PrintMembers, WrittenEntries, AllowedEntries, DenotedEntries, PlainestQuote;
    BreakIs(format, depth);
    var es := LaidMembers(ms, format, depth + 1);
    assert forall i :: 0 <= i < |es| ==> EntryRight(es[i], format, depth + 1, i == |es| - 1);
    assert "{" + Line(format) == Opening(format);
  }

  /** The printed text of a value: without layout it has no white space outside of literals, and with layout every line
      break, tab and blank is where `LaidOut` says; its literals are the plainest, and it denotes the value. */
  lemma PrintedText(v: Value, format: bool, depth: nat) returns (s: Syntax)
    requires Representable(v)
    ensures Allowed(s) && Denoted(s) == v && Written(s) == Print(v, format, depth)
    ensures Plainest(s) && if format then LaidOut(s, depth) else Compact(s)
  {
    hide *;
    s := Laid(v, format, depth);
    LaidIsRight(v, format, depth);
    LaidMeans(v, format, depth);
  }

  lemma LaidMeans(v: Value, format: bool, depth: nat)
    requires LaidRight(v, format, depth)
    ensures var s := Laid(v, format, depth);
            && Allowed(s) && Denoted(s) == v && Written(s) == Print(v, format, depth)
            && Plainest(s) && if format then LaidOut(s, depth) else Compact(s)
  {}

  // ---------------------------------------------------------------------------------------------
  // The shortest text
  // ---------------------------------------------------------------------------------------------

  lemma {:induction false} PrefixIsShorter(s: Text)
    ensures |Escaped(CString(s))| <= |Escaped(s)|
  {
    if s != [] && s[0] != '\0' {
      PrefixIsShorter(s[1..]);
      assert CString(s)[1..] == CString(s[1..]);
    }
  }

  lemma HighByte(x: bv32)
    requires x & 0xFF >= 0x80
    ensures LowByte(x) as int >= 0x80
  {}

  lemma Utf8IsHigh(cp: bv32)
    requires 0x80 <= cp <= 0x10FFFF
    ensures forall k :: 0 <= k < |Utf8(cp)| ==> Utf8(cp)[k] as int >= 0x80
    ensures |Utf8(cp)| <= if cp < 0x10000 then 3 else 4
  {
    assert (0x80 + cp % 64) & 0xFF >= 0x80;
    HighByte(0x80 + cp % 64);
    assert (0x80 + cp / 64 % 64) & 0xFF >= 0x80;
    HighByte(0x80 + cp / 64 % 64);
    assert (0x80 + cp / 4096 % 64) & 0xFF >= 0x80;
    HighByte(0x80 + cp / 4096 % 64);
    hide LowByte;
    if cp < 0x800 {
      assert (0xC0 + cp / 64) & 0xFF >= 0x80;
      HighByte(0xC0 + cp / 64);
    } else if cp < 0x10000 {
      assert (0xE0 + cp / 4096) & 0xFF >= 0x80;
      HighByte(0xE0 + cp / 4096);
    } else {
      assert (0xF0 + cp / 262144) & 0xFF >= 0x80;
      HighByte(0xF0 + cp / 262144);
    }
  }

  lemma {:induction false} HighIsUnescaped(s: Text)
    requires forall k :: 0 <= k < |s| ==> s[k] as int >= 0x80
    ensures Escaped(s) == s
  {
    if s != [] {
      HighIsUnescaped(s[1..]);
    }
  }

  lemma ShortPlain(p: Piece)
    requires (p.Plain? || p.Short?) && WellFormed(p) && StrictPiece(p)
    ensures |Escaped(Denote(p))| <= |Render(p)|
  {
    var t := Denote(p);
    assert |t| == 1 && Escaped(t[1..]) == [];
    assert Escaped(t) == EscapedByte(t[0]) + [];
  }

  lemma OneByteEscaped(t: Text)
    requires |t| == 1
    ensures |Escaped(t)| <= 6
  {
    assert Escaped(t[1..]) == [];
  }

  lemma CombinedRange(high: bv32, low: bv32)
    requires 0xD800 <= high <= 0xDBFF && 0xDC00 <= low <= 0xDFFF
    ensures 0x10000 <= Combined(high, low) <= 0x10FFFF
  {}

  lemma ShortUnits(p: Piece)
    requires (p.Bmp? || p.Pair?) && WellFormed(p)
    ensures |Escaped(Denote(p))| <= |Render(p)|
  {
    hide CodeUnit, Escaped, AllHex;
    match p {
      case Bmp(hex) =>
        var cp := CodeUnit(hex);
        CodeUnitIsParsed(hex);
        if cp < 0x80 {
          OneByteEscaped(Denote(p));
        } else {
          Utf8IsHigh(cp);
          hide Utf8;
          HighIsUnescaped(Denote(p));
        }
      case Pair(high, low) =>
        CombinedRange(CodeUnit(high), CodeUnit(low));
        Utf8IsHigh(Combined(CodeUnit(high), CodeUnit(low)));
        hide Utf8, Combined;
        HighIsUnescaped(Denote(p));
    }
  }

  lemma {:induction false} ShortPieces(ps: seq<Piece>)
    requires forall k :: 0 <= k < |ps| ==> WellFormed(ps[k]) && StrictPiece(ps[k])
    ensures |Escaped(DenoteAll(ps))| <= |RenderAll(ps)|
  {
    hide WellFormed, Denote, Render, Escaped;
    if ps == [] {
      assert |Escaped(DenoteAll(ps))| == 0 by {
        EscapedLength(DenoteAll(ps));
      }
    } else {
      if ps[0].Plain? || ps[0].Short? {
        ShortPlain(ps[0]);
      } else {
        ShortUnits(ps[0]);
      }
      ShortPieces(ps[1..]);
      EscapedAppend(Denote(ps[0]), DenoteAll(ps[1..]));
    }
  }

  lemma ShortQuote(q: Quote)
    requires StrictQuote(q)
    ensures AllowedQuote(q) && |PrintedString(DenotedQuote(q))| <= |WrittenQuote(q)|
  {
    hide WellFormed, StrictPiece, RenderAll, DenoteAll, Escaped, CString;
    ShortPieces(q.pieces);
    PrefixIsShorter(DenoteAll(q.pieces));
  }

  lemma {:induction false} ShortDigits(ds: seq<Digit>)
    requires ds != []
    ensures |Decimal(DenotedDigits(ds))| <= |ds|
    decreases |ds|
  {
    var n := DenotedDigits(ds);
    if |ds| == 1 {
      assert DenotedDigits(ds[..0]) == 0;
    } else {
      ShortDigits(ds[..|ds| - 1]);
      assert n / 10 == DenotedDigits(ds[..|ds| - 1]);
    }
  }

  lemma ShortInt(negative: bool, ds: seq<Digit>)
    requires Strict(IntText(negative, ds))
    ensures |PrintInt(DenotedInt(negative, ds))| <= |Written(IntText(negative, ds))|
  {
    ShortDigits(ds);
    hide DenotedDigits;
    assert Decimal(0) == "0";
  }

  /** Nothing shorter denotes the same value: unformatted text is the shortest of all the texts of RFC 8259. */
  lemma {:induction false} PrintIsShortest(s: Syntax, depth: nat)
    requires Strict(s)
    ensures Allowed(s) && |Print(Denoted(s), false, depth)| <= |Written(s)|
    decreases s
  {
    StrictIsAllowed(s);
    match s {
      case IntText(negative, ds) => ShortInt(negative, ds);
      case StringText(q) => ShortQuote(q);
      case ArrayText(space, es) =>
        if es != [] {
          ShortElements(es, depth + 1);
        }
      case ObjectText(space, es) =>
        if es != [] {
          ShortEntries(es, depth + 1);
        }
      case _ =>
    }
  }

  ghost predicate StrictElements(es: seq<Element>) {
    forall i :: 0 <= i < |es| ==> StrictWhite(es[i].before) && Strict(es[i].value) && StrictWhite(es[i].behind)
  }

  lemma {:induction false} ShortElements(es: seq<Element>, depth: nat)
    requires es != [] && StrictElements(es) && AllowedElements(es)
    ensures |PrintItems(DenotedElements(es), false, depth)| <= |WrittenElements(es)|
    decreases es
  {
    FirstElementIs(es);
    assert Strict(es[0].value) && StrictElements(es[1..]);
    var v, vs := Denoted(es[0].value), DenotedElements(es[1..]);
    hide Strict, Allowed, Denoted, Print, Written, StrictWhite, DenotedElements, StrictElements, AllowedElements;
    PrintIsShortest(es[0].value, depth);
    assert ([v] + vs)[1..] == vs;
    if |es| > 1 {
      ShortElements(es[1..], depth);
    }
  }

  ghost predicate StrictEntries(es: seq<Entry>) {
    forall i :: 0 <= i < |es| ==>
      && StrictWhite(es[i].before) && StrictQuote(es[i].key) && StrictWhite(es[i].behindKey)
      && StrictWhite(es[i].beforeValue) && Strict(es[i].value) && StrictWhite(es[i].behind)
  }

  lemma {:induction false} ShortEntries(es: seq<Entry>, depth: nat)
    requires es != [] && StrictEntries(es) && AllowedEntries(es)
    ensures |PrintMembers(DenotedEntries(es), false, depth)| <= |WrittenEntries(es)|
    decreases es
  {
    FirstEntryIs(es);
    assert Strict(es[0].value) && StrictQuote(es[0].key) && StrictEntries(es[1..]);
    var m, ms := Keyed(DenotedQuote(es[0].key), Denoted(es[0].value)), DenotedEntries(es[1..]);
    hide Strict, Allowed, Denoted, Print, Written, StrictWhite, DenotedEntries, StrictEntries, AllowedEntries;
    hide StrictQuote, AllowedQuote, DenotedQuote, WrittenQuote, PrintedString;
    PrintIsShortest(es[0].value, depth);
    ShortQuote(es[0].key);
    assert ([m] + ms)[1..] == ms;
    if |es| > 1 {
      ShortEntries(es[1..], depth);
    }
  }
}
