/** Lists of edits applied in place, as long as each addition is kept: what single edits do to the members of an object
    and the items of an array, and that edits below a child do to it what they would do by themselves. */
module PatchRuns {
  import opened Bytes
  import opened Json
  import opened JsonPointer
  import opened PointerDecode
  import opened PointerText
  import opened KeyedSort
  import opened ListTail
  import opened JsonNormal
  import opened JsonCompare
  import opened JsonPatch
  import opened PatchReference
  import opened PatchOperations
  import opened LinkedTree
  import opened LinkedPatch
  import opened PatchDiff
  import opened DiffRoundTrip
  import opened PatchLists

  // ---------------------------------------------------------------------------------------------
  // Runs in which every addition is kept
  // ---------------------------------------------------------------------------------------------

  function Linked(doc: Tree, path: Text, item: Tree, caseSensitive: bool): Option<Tree> {
    var e := LinkPath(doc, path, item, caseSensitive);
    if Links(doc, path, caseSensitive) && e.Effect? && e.status == 0 then Some(e.document) else None
  }

  function RunOne(doc: Tree, e: Edit, caseSensitive: bool): Option<Tree> {
    var p := PatchOf(Encode(e.tokens), e.change);
    var r := ApplyTree(doc, p, caseSensitive);
    if Keeps(doc, p, caseSensitive) && r.Effect? && r.status == 0 then Some(r.document) else None
  }

  /** What edits make of a document, if each returns 0 and what it adds is linked behind the last member. */
  function Run(doc: Tree, edits: seq<Edit>, caseSensitive: bool): Option<Tree>
    decreases |edits|
  {
    if edits == [] then Some(doc) else
    match RunOne(doc, edits[0], caseSensitive)
    case None => None
    case Some(d) => Run(d, edits[1..], caseSensitive)
  }

  lemma {:induction false} RunAppend(doc: Tree, a: seq<Edit>, b: seq<Edit>, caseSensitive: bool)
    ensures Run(doc, a + b, caseSensitive)
         == match Run(doc, a, caseSensitive) case None => None case Some(d) => Run(d, b, caseSensitive)
    decreases |a|
  {
    hide RunOne;
    if a == [] {
      assert a + b == b;
    } else {
      assert (a + b)[0] == a[0] && (a + b)[1..] == a[1..] + b;
      var d := RunOne(doc, a[0], caseSensitive);
      if d.Some? {
        RunAppend(d.value, a[1..], b, caseSensitive);
      }
    }
  }

  lemma RunSingle(doc: Tree, e: Edit, caseSensitive: bool)
    ensures Run(doc, [e], caseSensitive) == RunOne(doc, e, caseSensitive)
  {
    hide RunOne;
    var d := RunOne(doc, e, caseSensitive);
    if d.Some? {
      assert Run(d.value, [], caseSensitive) == d;
    }
  }

  /** What one edit takes out and adds. */
  lemma EditUnfolds(doc: Tree, e: Edit, caseSensitive: bool)
    requires e.tokens != []
    ensures var q := Encode(e.tokens);
            (RunOne(doc, e, caseSensitive)
             == match e.change
                case Add(v) => Linked(doc, q, Fresh(v), caseSensitive)
                case Remove =>
                  (match TakePath(doc, q, caseSensitive) case None => None case Some(d) => Some(d.document))
                case Replace(v) =>
                  (match TakePath(doc, q, caseSensitive)
                   case None => None
                   case Some(d) => Linked(d.document, q, Fresh(v), caseSensitive)))
  {
    hide GetMember, DecodeOperation, TakePath, LinkPath, Links, Encode, PatchOf, Fresh;
    PatchFields(Encode(e.tokens), e.change, caseSensitive);
    PathIsNotEmpty(e.tokens);
  }

  lemma PathIsNotEmpty(tokens: seq<Text>)
    requires tokens != []
    ensures Encode(tokens) != []
  {}

  /** Such a run does what the edits ask for. */
  lemma {:induction false} RunIsChange(doc: Tree, edits: seq<Edit>, keys: iset<Text>, caseSensitive: bool)
    requires Fine(Plain(doc), keys) && Safe(keys) && AllSafe(edits, keys) && ChangedAll(Norm(Plain(doc)), edits).Some?
    requires Run(doc, edits, caseSensitive).Some?
    ensures var r := Run(doc, edits, caseSensitive).value;
            && Norm(Plain(r)) == ChangedAll(Norm(Plain(doc)), edits).value && Fine(Plain(r), keys)
            && ApplyTreeAll(doc, Documents([], edits), caseSensitive) == Effect(0, r)
    decreases |edits|
  {
    hide Norm, Fine, Safe, SafeEdit, ApplyTree, ApplyPatch, Keeps, Plain, PatchOf, Changed, Encode, DecodeOperation;
    hide Asks;
    if edits != [] {
      var e := edits[0];
      var p := PatchOf(Encode(e.tokens), e.change);
      assert [] + Encode(e.tokens) == Encode(e.tokens);
      assert Documents([], edits)[0] == p && Documents([], edits)[1..] == Documents([], edits[1..]);
      PatchFields(Encode(e.tokens), e.change, caseSensitive);
      AppliesExactly(doc, p, caseSensitive);
      PatchAsks(e, caseSensitive);
      ApplyRefines(Plain(doc), p, e, keys, caseSensitive);
      RunIsChange(RunOne(doc, e, caseSensitive).value, edits[1..], keys, caseSensitive);
    }
  }

  // ---------------------------------------------------------------------------------------------
  // Edits below a child
  // ---------------------------------------------------------------------------------------------

  /** The token leads to child number `i`. */
  ghost predicate Names(v: Value, t: Text, i: nat, caseSensitive: bool) {
    i < Children(v) && forall rest :: IsRest(rest) ==> Step(v, Escape(t) + rest, caseSensitive) == Some(i)
  }

  lemma {:induction false} SameNamesFound(a: seq<Keyed<Value>>, b: seq<Keyed<Value>>, k: nat, p: Text,
                                          caseSensitive: bool)
    requires |a| == |b| && k <= |a| && forall i :: 0 <= i < |a| ==> a[i].key == b[i].key
    ensures FindMember(a, k, p, caseSensitive) == FindMember(b, k, p, caseSensitive)
    decreases |a| - k
  {
    hide MatchesToken;
    if k < |a| {
      SameNamesFound(a, b, k + 1, p, caseSensitive);
    }
  }

  lemma NamesStay(v: Value, t: Text, i: nat, w: Value, caseSensitive: bool)
    requires Names(v, t, i, caseSensitive)
    ensures Names(WithChild(v, i, w), t, i, caseSensitive)
  {
    hide Escape, FindMember, DecodeIndex;
    forall rest | IsRest(rest) ensures Step(WithChild(v, i, w), Escape(t) + rest, caseSensitive) == Some(i) {
      assert Step(v, Escape(t) + rest, caseSensitive) == Some(i);
      if v.Object? {
        SameNamesFound(v.members, WithChild(v, i, w).members, 0, Escape(t) + rest, caseSensitive);
      }
    }
  }

  lemma WithTreeChildTwice(t: Tree, i: nat, w: Tree, x: Tree)
    requires i < Children(Plain(t))
    ensures i < Children(Plain(WithTreeChild(t, i, w))) && TreeChild(WithTreeChild(t, i, w), i) == w
    ensures WithTreeChild(WithTreeChild(t, i, w), i, x) == WithTreeChild(t, i, x)
    ensures WithTreeChild(t, i, TreeChild(t, i)) == t
  {
    match t {
      case List(items) =>
        assert items[i := w][i := x] == items[i := x] && items[i := items[i]] == items;
      case Group(ms, tail) =>
        var k := ms[i].key;
        assert ms[i := Keyed(k, w)][i := Keyed(k, x)] == ms[i := Keyed(k, x)];
        assert ms[i := Keyed(k, ms[i].value)] == ms;
    }
  }

  lemma TakeFront(doc: Tree, i: nat, t: Text, q: Text, caseSensitive: bool)
    requires Names(Plain(doc), t, i, caseSensitive) && LastSlash(q).Some? && IsRest(q)
    ensures TakePath(doc, "/" + Escape(t) + q, caseSensitive)
         == match TakePath(TreeChild(doc, i), q, caseSensitive)
            case None => None
            case Some(d) => Some(Taken(d.item, WithTreeChild(doc, i, d.document)))
  {
    hide Escape, LastSlash, Step, Locate, TakeChild, DecodeInPlace, WithTreeChild, Plain;
    var k := LastSlash(q).value;
    SplitFront(t, q);
    PrefixIsRest(q, k);
    LocateStep(Plain(doc), i, Escape(t), q[..k], caseSensitive);
    var below := Locate(Plain(TreeChild(doc, i)), q[..k], caseSensitive);
    if below.Some? {
      assert ([i] + below.value)[1..] == below.value;
    }
  }

  /** Adding to the parent itself. */
  function LinkedHere(parent: Tree, child: Text, item: Tree, caseSensitive: bool): Option<Tree> {
    var e := LinkChild(parent, child, item, caseSensitive);
    var kept := match parent
                case Group(ms, tail) =>
                  (var (rest, tail') := Cleared(ms, tail, child, caseSensitive); Right(tail', |rest|))
                case _ => true;
    if kept && e.Effect? && e.status == 0 then Some(e.document) else None
  }

  lemma LinkedUnfolds(doc: Tree, path: Text, item: Tree, caseSensitive: bool)
    requires LastSlash(path).Some?
    ensures var k := LastSlash(path).value;
            (Linked(doc, path, item, caseSensitive)
             == match Locate(Plain(doc), path[..k], caseSensitive)
                case None => None
                case Some(at) =>
                  match LinkedHere(GetTree(doc, at), DecodeInPlace(path[k + 1..]), item, caseSensitive)
                  case None => None
                  case Some(r) => Some(SetTree(doc, at, r)))
  {
    hide LastSlash, Locate, LinkChild, DecodeInPlace, Plain, Cleared, GetTree, SetTree, Right;
  }

  lemma LinkFront(doc: Tree, i: nat, t: Text, q: Text, item: Tree, caseSensitive: bool)
    requires Names(Plain(doc), t, i, caseSensitive) && LastSlash(q).Some? && IsRest(q)
    ensures Linked(doc, "/" + Escape(t) + q, item, caseSensitive)
         == match Linked(TreeChild(doc, i), q, item, caseSensitive)
            case None => None
            case Some(c) => Some(WithTreeChild(doc, i, c))
  {
    hide Escape, LastSlash, Step, Locate, DecodeInPlace, WithTreeChild, Plain, Linked, LinkedHere;
    var k := LastSlash(q).value;
    SplitFront(t, q);
    PrefixIsRest(q, k);
    LinkedUnfolds(doc, "/" + Escape(t) + q, item, caseSensitive);
    LinkedUnfolds(TreeChild(doc, i), q, item, caseSensitive);
    LocateStep(Plain(doc), i, Escape(t), q[..k], caseSensitive);
    var below := Locate(Plain(TreeChild(doc, i)), q[..k], caseSensitive);
    if below.Some? {
      assert ([i] + below.value)[1..] == below.value;
    }
  }

  lemma RunOneBelow(doc: Tree, i: nat, t: Text, e: Edit, caseSensitive: bool)
    requires Names(Plain(doc), t, i, caseSensitive) && e.tokens != []
    ensures RunOne(doc, Edit([t] + e.tokens, e.change), caseSensitive)
         == match RunOne(TreeChild(doc, i), e, caseSensitive)
            case None => None
            case Some(c) => Some(WithTreeChild(doc, i, c))
  {
    hide Escape, LastSlash, TakePath, Linked, RunOne, Plain, Encode, Step;
    var q, e' := Encode(e.tokens), Edit([t] + e.tokens, e.change);
    EncodeHasSlash(e.tokens);
    EncodeBelow(t, e.tokens);
    EditUnfolds(doc, e', caseSensitive);
    EditUnfolds(TreeChild(doc, i), e, caseSensitive);
    TakeFront(doc, i, t, q, caseSensitive);
    match e.change {
      case Add(v) =>
        LinkFront(doc, i, t, q, Fresh(v), caseSensitive);
      case Remove =>
      case Replace(v) =>
        var taken := TakePath(TreeChild(doc, i), q, caseSensitive);
        if taken.Some? {
          var c := taken.value.document;
          NamesStay(Plain(doc), t, i, Plain(c), caseSensitive);
          LinkFront(WithTreeChild(doc, i, c), i, t, q, Fresh(v), caseSensitive);
          var linked := Linked(c, q, Fresh(v), caseSensitive);
          WithTreeChildTwice(doc, i, c, if linked.Some? then linked.value else c);
        }
    }
  }

  lemma EncodeBelow(t: Text, tokens: seq<Text>)
    ensures Encode([t] + tokens) == "/" + Escape(t) + Encode(tokens)
  {
    assert ([t] + tokens)[1..] == tokens;
  }

  predicate BelowRoot(edits: seq<Edit>) {
    forall i :: 0 <= i < |edits| ==> edits[i].tokens != []
  }

  /** Edits below a child are edits of that child. */
  lemma {:induction false} RunBelow(doc: Tree, i: nat, t: Text, edits: seq<Edit>, caseSensitive: bool)
    requires Names(Plain(doc), t, i, caseSensitive) && BelowRoot(edits)
    ensures Run(doc, BelowToken(t, edits), caseSensitive)
         == match Run(TreeChild(doc, i), edits, caseSensitive)
            case None => None
            case Some(c) => Some(WithTreeChild(doc, i, c))
    decreases |edits|
  {
    hide RunOne, Plain, Step, Escape;
    if edits == [] {
      assert BelowToken(t, edits) == [];
      WithTreeChildTwice(doc, i, doc, doc);
    } else {
      var es := BelowToken(t, edits);
      assert es[0] == Edit([t] + edits[0].tokens, edits[0].change) && es[1..] == BelowToken(t, edits[1..]);
      RunOneBelow(doc, i, t, edits[0], caseSensitive);
      var c := RunOne(TreeChild(doc, i), edits[0], caseSensitive);
      if c.Some? {
        var doc' := WithTreeChild(doc, i, c.value);
        NamesStay(Plain(doc), t, i, Plain(c.value), caseSensitive);
        RunBelow(doc', i, t, edits[1..], caseSensitive);
        var r := Run(c.value, edits[1..], caseSensitive);
        WithTreeChildTwice(doc, i, c.value, if r.Some? then r.value else c.value);
      }
    }
  }

  // ---------------------------------------------------------------------------------------------
  // Edits of the members of an object
  // ---------------------------------------------------------------------------------------------

  /** Members with names that the code handles as it should. */
  ghost predicate FineTrees(ms: seq<Keyed<Tree>>, keys: iset<Text>) {
    FineMembers(PlainMembers(ms), keys)
  }

  lemma MemberFound(ms: seq<Keyed<Tree>>, t: Text, keys: iset<Text>, caseSensitive: bool)
    requires FineTrees(ms, keys) && Separates(keys, caseSensitive) && t in keys
    ensures match FindKey(ms, 0, t, caseSensitive)
            case None => forall j :: 0 <= j < |ms| ==> ms[j].key != t
            case Some(j) => ms[j].key == t
  {
    hide Plain, SameKey, Fine;
    SameKeyFound(ms, 0, t, caseSensitive);
    FindKeyIsExact(PlainMembers(ms), 0, t, keys, caseSensitive);
  }

  lemma KeysDiffer(ms: seq<Keyed<Tree>>, keys: iset<Text>)
    requires FineTrees(ms, keys)
    ensures DistinctKeys(PlainMembers(ms))
    ensures forall i, j :: 0 <= i < j < |ms| ==> ms[i].key != ms[j].key
    ensures forall i :: 0 <= i < |ms| ==> ms[i].key in keys && Fine(Plain(ms[i].value), keys)
  {
    hide Plain, Fine;
    var pm := PlainMembers(ms);
    assert forall i :: 0 <= i < |ms| ==> pm[i].key == ms[i].key && pm[i].value == Plain(ms[i].value);
  }

  lemma TakeNamed(ms: seq<Keyed<Tree>>, tail: Tail, i: nat, keys: iset<Text>, caseSensitive: bool)
    requires FineTrees(ms, keys) && Safe(keys) && i < |ms|
    ensures TakePath(Group(ms, tail), Encode([ms[i].key]), caseSensitive)
         == Some(Taken(ms[i].value, TakeMember(ms, tail, i)))
  {
    hide Escape, LastSlash, DecodeInPlace, Encode, FineTrees, Safe, FindKey, Plain, Recoverable;
    var t := ms[i].key;
    KeysDiffer(ms, keys);
    SplitSingle(t);
    SafeToken(t, keys);
    SafeSeparates(keys, false);
    MemberFound(ms, t, keys, false);
    LocateRoot(Plain(Group(ms, tail)), caseSensitive);
    assert FindKey(ms, 0, t, false) == Some(i);
    TakenHere(ms, tail, t, i);
  }

  lemma TakenHere(ms: seq<Keyed<Tree>>, tail: Tail, t: Text, i: nat)
    requires i < |ms| && FindKey(ms, 0, t, false) == Some(i)
    ensures TakeChild(Group(ms, tail), t) == Some(Taken(ms[i].value, TakeMember(ms, tail, i)))
  {
    hide FindKey;
  }

  /** A new member goes behind the last one if the links are right. */
  lemma LinkNamed(ms: seq<Keyed<Tree>>, tail: Tail, t: Text, item: Tree, keys: iset<Text>, caseSensitive: bool)
    requires FineTrees(ms, keys) && Safe(keys) && t in keys && forall j :: 0 <= j < |ms| ==> ms[j].key != t
    ensures Linked(Group(ms, tail), Encode([t]), item, caseSensitive)
         == if Right(tail, |ms|) then Some(Group(ms + [Keyed(t, item)], At(|ms|))) else None
  {
    hide Escape, LastSlash, DecodeInPlace, Encode, FineTrees, Safe, FindKey, Plain, Recoverable;
    SplitSingle(t);
    SafeToken(t, keys);
    SafeSeparates(keys, caseSensitive);
    MemberFound(ms, t, keys, caseSensitive);
    LocateRoot(Plain(Group(ms, tail)), caseSensitive);
    assert Cleared(ms, tail, t, caseSensitive) == (ms, tail);
    if Right(tail, |ms|) {
      AppendedBehind(ms, tail, Keyed(t, item));
    }
  }

  lemma AppendedBehind(ms: seq<Keyed<Tree>>, tail: Tail, m: Keyed<Tree>)
    requires Right(tail, |ms|)
    ensures Append(ms, tail, m) == Effect(0, Group(ms + [m], At(|ms|)))
  {
    if ms != [] {
      AppendedIsLast(ms, tail, m);
    } else {
      assert ms + [m] == [m];
    }
  }

  lemma FineWithout(ms: seq<Keyed<Tree>>, i: nat, keys: iset<Text>)
    requires FineTrees(ms, keys) && i < |ms|
    ensures FineTrees(RemoveAt(ms, i), keys)
    ensures forall j :: 0 <= j < |RemoveAt(ms, i)| ==> RemoveAt(ms, i)[j].key != ms[i].key
  {
    hide Plain, Fine;
    KeysDiffer(ms, keys);
    PlainRemoved(ms, i);
    FineMembersRemove(PlainMembers(ms), i, keys);
  }

  lemma FineWith(ms: seq<Keyed<Tree>>, t: Text, item: Tree, keys: iset<Text>)
    requires FineTrees(ms, keys) && t in keys && Fine(Plain(item), keys)
    requires forall j :: 0 <= j < |ms| ==> ms[j].key != t
    ensures FineTrees(ms + [Keyed(t, item)], keys)
  {
    hide Plain, Fine;
    assert PlainMembers(ms + [Keyed(t, item)]) == PlainMembers(ms) + [Keyed(t, Plain(item))];
    FineMembersAppend(PlainMembers(ms), Keyed(t, Plain(item)), keys);
  }

  lemma DropOneMember(ms: seq<Keyed<Tree>>, tail: Tail, i: nat, keys: iset<Text>, caseSensitive: bool)
    requires FineTrees(ms, keys) && Safe(keys) && i < |ms|
    ensures RunOne(Group(ms, tail), Edit([ms[i].key], Remove), caseSensitive)
         == Some(Group(RemoveAt(ms, i), Without(tail, |ms|, i)))
    ensures FineTrees(RemoveAt(ms, i), keys)
  {
    hide RunOne, TakePath, FineTrees, Encode, Safe;
    EditUnfolds(Group(ms, tail), Edit([ms[i].key], Remove), caseSensitive);
    TakeNamed(ms, tail, i, keys, caseSensitive);
    FineWithout(ms, i, keys);
  }

  lemma AddOneMember(ms: seq<Keyed<Tree>>, tail: Tail, t: Text, v: Value, keys: iset<Text>, caseSensitive: bool)
    requires FineTrees(ms, keys) && Safe(keys) && t in keys && Fine(v, keys)
    requires forall j :: 0 <= j < |ms| ==> ms[j].key != t
    ensures RunOne(Group(ms, tail), Edit([t], Add(v)), caseSensitive)
         == if Right(tail, |ms|) then Some(Group(ms + [Keyed(t, Fresh(v))], At(|ms|))) else None
    ensures FineTrees(ms + [Keyed(t, Fresh(v))], keys)
  {
    hide RunOne, Linked, FineTrees, Encode, Safe, Fresh, Fine;
    EditUnfolds(Group(ms, tail), Edit([t], Add(v)), caseSensitive);
    LinkNamed(ms, tail, t, Fresh(v), keys, caseSensitive);
    FineWith(ms, t, Fresh(v), keys);
  }

  lemma ReplaceOneMember(ms: seq<Keyed<Tree>>, tail: Tail, i: nat, v: Value, keys: iset<Text>, caseSensitive: bool)
    requires FineTrees(ms, keys) && Safe(keys) && i < |ms| && Fine(v, keys)
    ensures var t, rest := ms[i].key, RemoveAt(ms, i);
            && RunOne(Group(ms, tail), Edit([t], Replace(v)), caseSensitive)
               == (if Right(Without(tail, |ms|, i), |rest|) then Some(Group(rest + [Keyed(t, Fresh(v))], At(|rest|)))
                   else None)
            && FineTrees(rest + [Keyed(t, Fresh(v))], keys)
  {
    hide RunOne, Linked, TakePath, FineTrees, Encode, Safe, Fresh, Fine, RemoveAt;
    var t, rest := ms[i].key, RemoveAt(ms, i);
    EditUnfolds(Group(ms, tail), Edit([t], Replace(v)), caseSensitive);
    TakeNamed(ms, tail, i, keys, caseSensitive);
    FineWithout(ms, i, keys);
    KeysDiffer(ms, keys);
    LinkNamed(rest, Without(tail, |ms|, i), t, Fresh(v), keys, caseSensitive);
    FineWith(rest, t, Fresh(v), keys);
  }

  // ---------------------------------------------------------------------------------------------
  // Edits of the items of an array
  // ---------------------------------------------------------------------------------------------

  lemma TakeItem(items: seq<Tree>, t: Text, i: nat, keys: iset<Text>, caseSensitive: bool)
    requires Safe(keys) && i < |items| && IsIndex(t) && DigitsValue(t) == i
    ensures TakePath(List(items), Encode([t]), caseSensitive) == Some(Taken(items[i], List(RemoveAt(items, i))))
  {
    hide Escape, LastSlash, DecodeInPlace, Encode, DecodeIndex, Plain, Recoverable, Locate;
    SplitSingle(t);
    SafeToken(t, keys);
    IndexOrDash(t, []);
    LocateRoot(Plain(List(items)), caseSensitive);
  }

  lemma ItemLinkedHere(items: seq<Tree>, t: Text, item: Tree, caseSensitive: bool)
    requires t == "-" || (AllDigits(t) && DecodeIndex(t) == Some(DigitsValue(t)) && DigitsValue(t) <= |items|)
    ensures LinkedHere(List(items), t, item, caseSensitive)
         == Some(List(if t == "-" then items + [item] else InsertAt(items, DigitsValue(t), item)))
  {
    hide DecodeIndex, DigitsValue, Plain;
  }

  lemma LinkItem(items: seq<Tree>, t: Text, item: Tree, keys: iset<Text>, caseSensitive: bool)
    requires Safe(keys) && (t == "-" || (IsIndex(t) && DigitsValue(t) <= |items|))
    ensures Linked(List(items), Encode([t]), item, caseSensitive)
         == Some(List(if t == "-" then items + [item] else InsertAt(items, DigitsValue(t), item)))
  {
    hide Escape, LastSlash, DecodeInPlace, Encode, DecodeIndex, Plain, Recoverable, Locate;
    SplitSingle(t);
    SafeToken(t, keys);
    IndexOrDash(t, []);
    LocateRoot(Plain(List(items)), caseSensitive);
    hide Linked, LinkedHere, Safe;
    LinkedUnfolds(List(items), Encode([t]), item, caseSensitive);
    ItemLinkedHere(items, t, item, caseSensitive);
  }

  lemma ReplaceOneItem(items: seq<Tree>, t: Text, i: nat, v: Value, keys: iset<Text>, caseSensitive: bool)
    requires Safe(keys) && i < |items| && IsIndex(t) && DigitsValue(t) == i && t != "-"
    ensures RunOne(List(items), Edit([t], Replace(v)), caseSensitive) == Some(List(items[i := Fresh(v)]))
  {
    hide Encode, TakePath, Linked, RunOne, Fresh, Safe, IsIndex, DigitsValue;
    EditUnfolds(List(items), Edit([t], Replace(v)), caseSensitive);
    TakeItem(items, t, i, keys, caseSensitive);
    LinkItem(RemoveAt(items, i), t, Fresh(v), keys, caseSensitive);
    assert InsertAt(RemoveAt(items, i), i, Fresh(v)) == items[i := Fresh(v)];
  }

  lemma {:induction false} RemovalsRun(items: seq<Tree>, t: Text, i: nat, n: nat, keys: iset<Text>, caseSensitive: bool)
    requires Safe(keys) && |items| == i + n && IsIndex(t) && DigitsValue(t) == i
    ensures Run(List(items), Removals(t, n), caseSensitive) == Some(List(items[..i]))
    decreases n
  {
    hide TakePath, RunOne, Safe, IsIndex, DigitsValue;
    if n == 0 {
      assert items[..i] == items;
    } else {
      EditUnfolds(List(items), Edit([t], Remove), caseSensitive);
      TakeItem(items, t, i, keys, caseSensitive);
      RemovalsRun(RemoveAt(items, i), t, i, n - 1, keys, caseSensitive);
      assert RemoveAt(items, i)[..i] == items[..i];
      assert Removals(t, n)[1..] == Removals(t, n - 1);
    }
  }

  lemma {:induction false} AdditionsRun(items: seq<Tree>, more: seq<Value>, keys: iset<Text>, caseSensitive: bool)
    requires Safe(keys)
    ensures Run(List(items), Additions(more), caseSensitive).Some?
    decreases |more|
  {
    hide Linked, RunOne, Safe, Fresh;
    if more != [] {
      EditUnfolds(List(items), Edit(["-"], Add(more[0])), caseSensitive);
      LinkItem(items, "-", Fresh(more[0]), keys, caseSensitive);
      AdditionsRun(items + [Fresh(more[0])], more[1..], keys, caseSensitive);
      assert Additions(more)[1..] == Additions(more[1..]);
    }
  }
}
