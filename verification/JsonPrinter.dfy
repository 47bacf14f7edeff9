/** `print_value`, `print_array`, `print_object` and `print_number` of cJSON.c, onto a growing output. */
module JsonPrinter {
  import opened Bytes
  import opened Json
  import opened JsonStrings

  function PrintInt(n: int): Text {
    if n < 0 then "-" + Decimal(-n) else Decimal(n)
  }

  function Tabs(n: nat): (s: Text)
    ensures |s| == n && forall i :: 0 <= i < n ==> s[i] == '\t'
  {
    seq(n, _ => '\t')
  }

  /** The text of a value that is printed inside `depth` containers. */
  function Print(v: Value, format: bool, depth: nat): Text
    decreases v
  {
    match v
    case Invalid => []
    case Null => "null"
    case Bool(b) => if b then "true" else "false"
    case Number(n) => PrintInt(n)
    case Str(s) => PrintedString(s)
    case Array(items) => "[" + PrintItems(items, format, depth + 1) + "]"
    case Object(ms) => Opening(format) + PrintMembers(ms, format, depth + 1) + Closing(format, depth)
  }

  function Opening(format: bool): Text {
    if format then "{\n" else "{"
  }

  function Closing(format: bool, depth: nat): Text {
    (if format then Tabs(depth) else []) + "}"
  }

  function PrintItems(items: seq<Value>, format: bool, depth: nat): Text
    decreases items
  {
    if items == [] then [] else
    Print(items[0], format, depth) + ItemSeparator(format, |items| > 1) + PrintItems(items[1..], format, depth)
  }

  function ItemSeparator(format: bool, more: bool): Text {
    if !more then [] else if format then ", " else ","
  }

  function PrintMembers(ms: seq<Keyed<Value>>, format: bool, depth: nat): Text
    decreases ms
  {
    if ms == [] then [] else
    PrintMember(ms[0], format, depth) + MemberSeparator(format, |ms| > 1) + PrintMembers(ms[1..], format, depth)
  }

  function PrintMember(m: Keyed<Value>, format: bool, depth: nat): Text
    decreases m, 0
  {
    Indent(format, depth) + PrintedString(m.key) + Colon(format) + Print(m.value, format, depth)
  }

  function Indent(format: bool, depth: nat): Text {
    if format then Tabs(depth) else []
  }

  function Colon(format: bool): Text {
    if format then ":\t" else ":"
  }

  function MemberSeparator(format: bool, more: bool): Text {
    (if more then "," else []) + (if format then "\n" else [])
  }

  /** A print buffer whose growth always succeeds. */
  class PrintBuffer {
    var output: Text
    var depth: nat
    const format: bool

    constructor (format: bool)
      ensures output == [] && depth == 0 && this.format == format
    {
      output, depth := [], 0;
      this.format := format;
    }

    method PrintValue(item: Value)
      modifies this
      ensures output == old(output) + Print(item, format, old(depth)) && depth == old(depth)
      decreases item, 1
    {
      match item {
        case Invalid =>
        case Null => output := output + "null";
        case Bool(b) => output := output + if b then "true" else "false";
        case Number(n) => output := output + PrintInt(n);
        case Str(s) => PrintStringItem(s);
        case Array(items) => PrintArray(items);
        case Object(ms) => PrintObject(ms);
      }
    }

    method PrintStringItem(s: Text)
      modifies this
      ensures output == old(output) + PrintedString(s) && depth == old(depth)
    {
      var literal := PrintStringPtr(s);
      output := output + literal[..literal.Length - 1];
      assert literal[..literal.Length - 1] == literal[..][..literal.Length - 1] == PrintedString(s);
    }

    method PrintArray(items: seq<Value>)
      modifies this
      ensures output == old(output) + Print(Array(items), format, old(depth)) && depth == old(depth)
      decreases items, 1
    {
      ghost var text := PrintItems(items, format, depth + 1);
      output := output + "[";
      depth := depth + 1;
      PrintElements(items);
      output := output + "]";
      depth := depth - 1;
      assert output == old(output) + "[" + text + "]" == old(output) + ("[" + text + "]");
    }

    // The loop of `print_array`.
    method PrintElements(items: seq<Value>)
      modifies this
      ensures output == old(output) + PrintItems(items, format, depth) && depth == old(depth)
      decreases items, 0
    {
      hide Print, PrintItems, Tabs;
      ghost var start, done: Text := output, [];
      NothingToPrint(format, depth);
      var i := 0;
      while i < |items|
        invariant 0 <= i <= |items| && depth == old(depth)
        invariant output == start + done
        invariant done + PrintItems(items[i..], format, depth) == PrintItems(items, format, depth)
      {
        ghost var item, separator := Print(items[i], format, depth), ItemSeparator(format, i + 1 < |items|);
        ItemsStep(items, i, format, depth);
        Regroup(done, item + separator, PrintItems(items[i + 1..], format, depth));
        PrintValue(items[i]);
        if i + 1 < |items| {
          output := output + if format then ", " else ",";
        }
        Append(start, done, item, separator, output);
        done := done + (item + separator);
        i := i + 1;
      }
      assert items[i..] == [] && done + [] == done;
    }

    method PrintObject(ms: seq<Keyed<Value>>)
      modifies this
      ensures output == old(output) + Print(Object(ms), format, old(depth)) && depth == old(depth)
      decreases ms, 1
    {
      ghost var text, tabs := PrintMembers(ms, format, depth + 1), Indent(format, depth);
      assert Print(Object(ms), format, depth) == Opening(format) + text + (tabs + "}");
      hide PrintMembers, Tabs, Print;
      output := output + if format then "{\n" else "{";
      depth := depth + 1;
      PrintEntries(ms);
      if format {
        output := output + Tabs(depth - 1);
      }
      output := output + "}";
      depth := depth - 1;
      Enclose(old(output), Opening(format), text, tabs, output);
    }

    // The loop of `print_object`.
    method PrintEntries(ms: seq<Keyed<Value>>)
      modifies this
      ensures output == old(output) + PrintMembers(ms, format, depth) && depth == old(depth)
      decreases ms, 0
    {
      hide Print, PrintMembers, PrintMember, Tabs;
      ghost var start, done: Text := output, [];
      NothingToPrint(format, depth);
      var i := 0;
      while i < |ms|
        invariant 0 <= i <= |ms| && depth == old(depth)
        invariant output == start + done
        invariant done + PrintMembers(ms[i..], format, depth) == PrintMembers(ms, format, depth)
      {
        ghost var member, separator := PrintMember(ms[i], format, depth), MemberSeparator(format, i + 1 < |ms|);
        MembersStep(ms, i, format, depth);
        Regroup(done, member + separator, PrintMembers(ms[i + 1..], format, depth));
        PrintKeyAndValue(ms[i]);
        output := output + ((if i + 1 < |ms| then "," else []) + if format then "\n" else []);
        Append(start, done, member, separator, output);
        done := done + (member + separator);
        i := i + 1;
      }
      assert ms[i..] == [] && done + [] == done;
    }

    method PrintKeyAndValue(m: Keyed<Value>)
      modifies this
      ensures output == old(output) + PrintMember(m, format, old(depth)) && depth == old(depth)
      decreases m.value, 2
    {
      hide Print, Tabs, PrintedString;
      if format {
        output := output + Tabs(depth);
      }
      PrintStringItem(m.key);
      output := output + if format then ":\t" else ":";
      PrintValue(m.value);
      Join(old(output), Indent(format, depth), PrintedString(m.key), Colon(format), Print(m.value, format, depth),
           output);
    }
  }

  lemma NothingToPrint(format: bool, depth: nat)
    ensures PrintItems([], format, depth) == [] && PrintMembers([], format, depth) == []
  {}

  lemma Regroup(s: Text, t: Text, u: Text)
    ensures s + (t + u) == (s + t) + u
  {}

  lemma Append(start: Text, done: Text, t: Text, u: Text, output: Text)
    requires output == start + done + t + u || (u == [] && output == start + done + t)
    ensures output == start + (done + (t + u))
  {}

  lemma Join(start: Text, tabs: Text, key: Text, colon: Text, text: Text, output: Text)
    requires output == start + tabs + key + colon + text || (tabs == [] && output == start + key + colon + text)
    ensures output == start + (tabs + key + colon + text)
  {}

  lemma Enclose(start: Text, opening: Text, text: Text, tabs: Text, output: Text)
    requires output == start + opening + text + tabs + "}" || (tabs == [] && output == start + opening + text + "}")
    ensures output == start + (opening + text + (tabs + "}"))
  {}

  lemma ItemsStep(items: seq<Value>, i: nat, format: bool, depth: nat)
    requires i < |items|
    ensures PrintItems(items[i..], format, depth)
         == (Print(items[i], format, depth) + ItemSeparator(format, i + 1 < |items|))
            + PrintItems(items[i + 1..], format, depth)
  {
    assert items[i..][1..] == items[i + 1..];
  }

  lemma MembersStep(ms: seq<Keyed<Value>>, i: nat, format: bool, depth: nat)
    requires i < |ms|
    ensures PrintMembers(ms[i..], format, depth)
         == (PrintMember(ms[i], format, depth) + MemberSeparator(format, i + 1 < |ms|))
            + PrintMembers(ms[i + 1..], format, depth)
  {
    assert ms[i..][1..] == ms[i + 1..];
  }
}
